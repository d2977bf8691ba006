/** How routing_tree.h turns a path into the list of segments it descends through. */
module RoutingKeys {
  import opened Wrappers

  type Key = seq<string>

  // std::find over the bytes of a path; the end iterator is |s|.
  function FindChar(s: string, c: char, from: nat): (r: nat)
    requires from <= |s|
    ensures from <= r <= |s|
    ensures forall i :: from <= i < r ==> s[i] != c
    ensures r < |s| ==> s[r] == c
    decreases |s| - from
  {
    if from == |s| || s[from] == c then from else FindChar(s, c, from + 1)
  }

  function Split(s: string): (segments: Key)
    ensures segments != []
  {
    var i := FindChar(s, '/', 0);
    if i == |s| then [s] else [s[..i]] + Split(s[i + 1..])
  }

  function Join(segments: Key): string {
    if segments == [] then "" else "/" + segments[0] + Join(segments[1..])
  }

  // The path from its first slash on; everything before it is ignored.
  function Rooted(path: string): string {
    path[FindChar(path, '/', 0)..]
  }

  // The key `add` stores under; None is a refused path.
  function AddKey(path: string): Option<Key> {
    if |path| == 1 then
      if path == "/" then Some(["/"]) else None
    else
      var slash := FindChar(path, '/', 0);
      if slash == |path| then None else Some(Split(path[slash + 1..]))
  }

  // The key `get` looks under: a one-byte path is looked up as it is.
  function GetKey(path: string): Option<Key> {
    if |path| == 1 then Some([path]) else AddKey(path)
  }

  predicate SlashFree(s: string) {
    forall i :: 0 <= i < |s| ==> s[i] != '/'
  }

  lemma {:induction false} JoinSplit(s: string)
    ensures Join(Split(s)) == "/" + s
    ensures forall segment :: segment in Split(s) ==> SlashFree(segment)
  {
    var i := FindChar(s, '/', 0);
    if i < |s| {
      JoinSplit(s[i + 1..]);
      assert "/" + s == "/" + s[..i] + ("/" + s[i + 1..]);
    } else {
      assert Join([s]) == "/" + s + Join([]);
    }
  }

  lemma FindCharIs(s: string, c: char, from: nat, r: nat)
    requires from <= r <= |s|
    requires forall i :: from <= i < r ==> s[i] != c
    requires r < |s| ==> s[r] == c
    ensures FindChar(s, c, from) == r
  {
  }

  /** Every non-empty list of slash-free segments is the split of exactly its join. */
  lemma {:induction false} SplitJoin(segments: Key)
    requires segments != []
    requires forall segment :: segment in segments ==> SlashFree(segment)
    ensures Join(segments) != "" && Join(segments)[0] == '/' && Split(Join(segments)[1..]) == segments
  {
    var first, more := segments[0], segments[1..];
    assert segments == [first] + more && first in segments;
    assert Join(segments) == "/" + (first + Join(more));
    if more == [] {
      assert first + Join(more) == first;
      FindCharIs(first, '/', 0, |first|);
    } else {
      assert forall segment :: segment in more ==> segment in segments;
      SplitJoin(more);
      SplitAfterSegment(first, Join(more));
    }
  }

  lemma SplitAfterSegment(first: string, more: string)
    requires SlashFree(first) && more != "" && more[0] == '/'
    ensures Split(first + more) == [first] + Split(more[1..])
  {
    var s := first + more;
    FindCharIs(s, '/', 0, |first|);
    assert s[..|first|] == first && s[|first| + 1..] == more[1..];
  }

  /** Two accepted paths share a key exactly when they agree from the first slash on,
      apart from "/" itself, whose literal key no split path can produce. */
  lemma SameAddKey(p: string, q: string)
    requires AddKey(p).Some? && AddKey(q).Some?
    ensures AddKey(p) == AddKey(q) <==> Rooted(p) == Rooted(q) && (|p| == 1 <==> |q| == 1)
  {
    SplitPart(p);
    SplitPart(q);
  }

  // A split key joins back to the rooted path; the literal key of "/" is no split key.
  lemma SplitPart(p: string)
    requires AddKey(p).Some?
    ensures |p| == 1 ==> p == "/" && Rooted(p) == "/" && AddKey(p) == Some(["/"])
    ensures |p| != 1 ==> Rooted(p) != "" && Join(AddKey(p).value) == Rooted(p)
    ensures |p| != 1 ==> AddKey(p).value == Split(Rooted(p)[1..]) && AddKey(p) != Some(["/"])
  {
    if |p| == 1 {
      FindCharIs(p, '/', 0, 0);
    } else {
      var slash := FindChar(p, '/', 0);
      JoinSplit(p[slash + 1..]);
      assert Rooted(p) == "/" + p[slash + 1..];
      assert Rooted(p)[1..] == p[slash + 1..];
      assert !SlashFree("/") by { assert "/"[0] == '/'; }
      assert "/" !in AddKey(p).value && "/" in ["/"];
    }
  }

  /** Paths that begin with a slash are told apart by their keys. */
  lemma RootedKeysDistinct(p: string, q: string)
    requires p != "" && q != "" && p[0] == '/' && q[0] == '/'
    ensures AddKey(p).Some? && GetKey(p) == AddKey(p)
    ensures AddKey(p) == AddKey(q) <==> p == q
  {
    FindCharIs(p, '/', 0, 0);
    FindCharIs(q, '/', 0, 0);
    SameAddKey(p, q);
    assert p[0..] == p && q[0..] == q;
  }

  /** `get` and `add` agree on every path except the one-byte paths other than "/":
      those are refused by `add`, but `get` finds the route of the same name under a slash. */
  lemma GetKeyAgrees(path: string)
    ensures GetKey(path) == AddKey(path) <==> |path| != 1 || path == "/"
    ensures |path| == 1 && path != "/" ==> GetKey(path) == AddKey("/" + path) == Some([path])
  {
    if |path| == 1 && path != "/" {
      var slashed := "/" + path;
      FindCharIs(slashed, '/', 0, 0);
      assert slashed[1..] == path;
      FindCharIs(path, '/', 0, 1);
    }
  }

  // ----- which paths are routes, and which lookups a route answers -----

  // A path that a route can be registered under.
  predicate Usable(path: string) {
    path == "/" || (|path| >= 2 && '/' in path)
  }

  /** Registration accepts "/" and every longer path with a slash anywhere; a lookup also accepts every
      path of one byte. */
  lemma AcceptedPaths(path: string)
    ensures AddKey(path).Some? <==> path == "/" || (|path| >= 2 && '/' in path)
    ensures GetKey(path).Some? <==> |path| == 1 || (|path| >= 2 && '/' in path)
  {
    if '/' in path {
      var i :| 0 <= i < |path| && path[i] == '/';
      assert FindChar(path, '/', 0) <= i;
    }
  }

  /** What precedes the first slash does not matter. */
  lemma PrefixIgnored(prefix: string, s: string)
    requires SlashFree(prefix) && |prefix + "/" + s| >= 2
    ensures AddKey(prefix + "/" + s) == Some(Split(s)) && GetKey(prefix + "/" + s) == Some(Split(s))
  {
    var path := prefix + "/" + s;
    assert forall i :: 0 <= i < |prefix| ==> path[i] == prefix[i];
    FindCharIs(path, '/', 0, |prefix|);
    assert path[|prefix| + 1..] == s;
  }

  /** A route registered as p answers a lookup of q exactly when both agree from the first slash on; the literal
      "/" answers only itself, and a lookup of one other byte is answered by the route of that one segment. */
  predicate Serves(p: string, q: string) {
    Usable(p) &&
    if |q| == 1 && q != "/" then |p| >= 2 && Rooted(p) == "/" + q
    else Usable(q) && Rooted(p) == Rooted(q) && (|p| == 1 <==> |q| == 1)
  }

  lemma ServesIff(p: string, q: string)
    ensures Serves(p, q) <==> AddKey(p).Some? && GetKey(q) == AddKey(p)
  {
    AcceptedPaths(p);
    AcceptedPaths(q);
    GetKeyAgrees(q);
    if AddKey(p).Some? {
      if |q| == 1 && q != "/" {
        AcceptedPaths("/" + q);
        SameAddKey(p, "/" + q);
        FindCharIs("/" + q, '/', 0, 0);
      } else if AddKey(q).Some? {
        SameAddKey(p, q);
      }
    }
  }
}
