/** What a routing tree means: its nodes by position, and the meaning of a whole run of registrations.
    Nothing here mentions node objects; RoutingTree.dfy ties the mutable tree to these definitions. */
module RoutingSpec {
  import opened Wrappers
  import opened HttpMethod
  import opened RoutingKeys

  // A position in the tree: the method's own root map, then the segments walked so far.
  datatype Loc = Loc(mtd: Method, key: Key)

  datatype Registration<+H> = Registration(mtd: Method, path: string, handler: Option<H>)

  // The handler slot of every node; a node that exists only as an interior node holds None.
  type Contents<!H> = map<Loc, Option<H>>

  function AddLoc(mtd: Method, path: string): Option<Loc> {
    if mtd.UNKNOWN? || AddKey(path).None? then None else Some(Loc(mtd, AddKey(path).value))
  }

  function GetLoc(mtd: Method, path: string): Option<Loc> {
    if mtd.UNKNOWN? || GetKey(path).None? then None else Some(Loc(mtd, GetKey(path).value))
  }

  ghost function HandlerAt<H>(c: Contents<H>, at: Option<Loc>): Option<H> {
    if at.Some? && at.value in c then c[at.value] else None
  }

  // The node positions on the way to l, l included and the root excluded.
  ghost function Prefixes(l: Loc): set<Loc> {
    set n | 1 <= n <= |l.key| :: Loc(l.mtd, l.key[..n])
  }

  ghost function Insert<H>(c: Contents<H>, l: Loc, handler: Option<H>): Contents<H> {
    map k | k in c.Keys + Prefixes(l) :: if k == l then handler else if k in c then c[k] else None
  }

  ghost predicate Accepts<H>(c: Contents<H>, r: Registration<H>) {
    var at := AddLoc(r.mtd, r.path);
    at.Some? && HandlerAt(c, at).None?
  }

  ghost function Register<H>(c: Contents<H>, r: Registration<H>): Contents<H> {
    if Accepts(c, r) then Insert(c, AddLoc(r.mtd, r.path).value, r.handler) else c
  }

  ghost function Run<H>(rs: seq<Registration<H>>): Contents<H> {
    if rs == [] then map[] else Register(Run(rs[..|rs| - 1]), rs[|rs| - 1])
  }

  // The first non-null handler offered for a position, in order of registration.
  ghost function FirstHandler<H>(rs: seq<Registration<H>>, at: Option<Loc>): Option<H> {
    if rs == [] || at.None? then None
    else if AddLoc(rs[0].mtd, rs[0].path) == at && rs[0].handler.Some? then rs[0].handler
    else FirstHandler(rs[1..], at)
  }

  lemma {:induction false} FirstHandlerSnoc<H>(rs: seq<Registration<H>>, r: Registration<H>, at: Option<Loc>)
    ensures FirstHandler(rs + [r], at) ==
            if FirstHandler(rs, at).Some? then FirstHandler(rs, at)
            else if at.Some? && AddLoc(r.mtd, r.path) == at then r.handler else None
  {
    if rs == [] {
      assert rs + [r] == [r];
      assert FirstHandler([r][1..], at).None?;
    } else {
      assert (rs + [r])[1..] == rs[1..] + [r];
      FirstHandlerSnoc(rs[1..], r, at);
    }
  }

  /** After any run of registrations a position answers with the first non-null handler offered for it. */
  lemma {:induction false} RunIsFirstHandler<H>(rs: seq<Registration<H>>, at: Option<Loc>)
    ensures HandlerAt(Run(rs), at) == FirstHandler(rs, at)
  {
    if rs != [] {
      var before, r := rs[..|rs| - 1], rs[|rs| - 1];
      RunIsFirstHandler(before, at);
      FirstHandlerSnoc(before, r, at);
      assert rs == before + [r];
      if Accepts(Run(before), r) {
        var l := AddLoc(r.mtd, r.path).value;
        assert l in Prefixes(l) by { AddLocNonEmpty(r); assert l.key[..|l.key|] == l.key; }
      }
    }
  }

  lemma AddLocNonEmpty<H>(r: Registration<H>)
    requires AddLoc(r.mtd, r.path).Some?
    ensures AddLoc(r.mtd, r.path).value.key != []
  {
  }

  // Some registration with a valid method and path passes through this position.
  ghost predicate Named<H>(rs: seq<Registration<H>>, l: Loc) {
    exists i :: 0 <= i < |rs| && PassesThrough(rs[i], l)
  }

  ghost predicate PassesThrough<H>(r: Registration<H>, l: Loc) {
    AddLoc(r.mtd, r.path).Some? && l in Prefixes(AddLoc(r.mtd, r.path).value)
  }

  // Some registration that was accepted when it came passes through this position.
  ghost predicate NamedByAccepted<H>(rs: seq<Registration<H>>, l: Loc) {
    exists i :: 0 <= i < |rs| && AcceptedAt(rs, i) && PassesThrough(rs[i], l)
  }

  ghost predicate AcceptedAt<H>(rs: seq<Registration<H>>, i: nat)
    requires i < |rs|
  {
    Accepts(Run(rs[..i]), rs[i])
  }

  lemma NamedSnoc<H>(rs: seq<Registration<H>>, r: Registration<H>, l: Loc)
    ensures Named(rs + [r], l) <==> Named(rs, l) || PassesThrough(r, l)
  {
    var all := rs + [r];
    if i :| 0 <= i < |all| && PassesThrough(all[i], l) {
      if i < |rs| {
        assert PassesThrough(rs[i], l);
      }
    }
    if i :| 0 <= i < |rs| && PassesThrough(rs[i], l) {
      assert PassesThrough(all[i], l);
    }
    if PassesThrough(r, l) {
      assert PassesThrough(all[|rs|], l);
    }
  }

  lemma NamedByAcceptedSnoc<H>(rs: seq<Registration<H>>, r: Registration<H>, l: Loc)
    ensures NamedByAccepted(rs + [r], l) <==> NamedByAccepted(rs, l) || (Accepts(Run(rs), r) && PassesThrough(r, l))
  {
    var all := rs + [r];
    assert all[..|rs|] == rs;
    if i :| 0 <= i < |all| && AcceptedAt(all, i) && PassesThrough(all[i], l) {
      if i < |rs| {
        assert all[..i] == rs[..i];
        assert AcceptedAt(rs, i);
      }
    }
    if i :| 0 <= i < |rs| && AcceptedAt(rs, i) && PassesThrough(rs[i], l) {
      assert all[..i] == rs[..i];
      assert AcceptedAt(all, i);
    }
    if Accepts(Run(rs), r) && PassesThrough(r, l) {
      assert AcceptedAt(all, |rs|);
    }
  }

  lemma RegisterShape<H>(c: Contents<H>, r: Registration<H>, l: Loc)
    ensures l in Register(c, r) <==> l in c || (Accepts(c, r) && PassesThrough(r, l))
  {
  }

  /** The nodes of the tree are exactly the non-empty prefixes of the keys offered. */
  lemma {:induction false} RunShape<H>(rs: seq<Registration<H>>, l: Loc)
    ensures l in Run(rs) <==> Named(rs, l)
  {
    if rs != [] {
      var before, r := rs[..|rs| - 1], rs[|rs| - 1];
      assert rs == before + [r];
      RunShape(before, l);
      NamedSnoc(before, r, l);
      RegisterShape(Run(before), r, l);
      if !Accepts(Run(before), r) && PassesThrough(r, l) {
        OccupiedPrefixes(before, r, l);
      }
    }
  }

  /** A registration that is refused for its slot adds none of them. */
  lemma {:induction false} RefusedAddNothing<H>(rs: seq<Registration<H>>, l: Loc)
    ensures l in Run(rs) <==> NamedByAccepted(rs, l)
  {
    if rs != [] {
      var before, r := rs[..|rs| - 1], rs[|rs| - 1];
      assert rs == before + [r];
      RefusedAddNothing(before, l);
      NamedByAcceptedSnoc(before, r, l);
      RegisterShape(Run(before), r, l);
    }
  }

  // A slot can only be occupied when every node on the way to it exists already.
  lemma {:induction false} OccupiedPrefixes<H>(rs: seq<Registration<H>>, r: Registration<H>, l: Loc)
    requires !Accepts(Run(rs), r) && PassesThrough(r, l)
    ensures l in Run(rs)
  {
    var at := AddLoc(r.mtd, r.path).value;
    if rs != [] {
      var before, last := rs[..|rs| - 1], rs[|rs| - 1];
      if !Accepts(Run(before), r) {
        OccupiedPrefixes(before, r, l);
      } else {
        assert at in Run(rs) && AddLoc(last.mtd, last.path) == Some(at);
      }
    }
  }

  // Valid registrations whose positions are pairwise different.
  ghost predicate DistinctKeys<H>(rs: seq<Registration<H>>) {
    forall i, j :: 0 <= i < j < |rs| && AddLoc(rs[i].mtd, rs[i].path).Some?
      ==> AddLoc(rs[i].mtd, rs[i].path) != AddLoc(rs[j].mtd, rs[j].path)
  }

  lemma {:induction false} FirstHandlerIsOnly<H>(rs: seq<Registration<H>>, i: nat)
    requires i < |rs| && DistinctKeys(rs) && AddLoc(rs[i].mtd, rs[i].path).Some?
    ensures FirstHandler(rs, AddLoc(rs[i].mtd, rs[i].path)) == rs[i].handler
  {
    var at := AddLoc(rs[i].mtd, rs[i].path);
    if i == 0 {
      if rs[0].handler.None? {
        NoOffer(rs[1..], at);
      }
    } else {
      assert AddLoc(rs[0].mtd, rs[0].path).Some? ==> AddLoc(rs[0].mtd, rs[0].path) != at;
      FirstHandlerIsOnly(rs[1..], i - 1);
    }
  }

  lemma {:induction false} NoOffer<H>(rs: seq<Registration<H>>, at: Option<Loc>)
    requires forall i :: 0 <= i < |rs| ==> AddLoc(rs[i].mtd, rs[i].path) != at
    ensures FirstHandler(rs, at).None?
  {
    if rs != [] {
      NoOffer(rs[1..], at);
    }
  }

  ghost predicate Within<H>(rs: seq<Registration<H>>, qs: seq<Registration<H>>) {
    forall i :: 0 <= i < |rs| ==> rs[i] in qs
  }

  lemma SameMultisetWithin<H>(rs: seq<Registration<H>>, qs: seq<Registration<H>>)
    requires multiset(rs) == multiset(qs)
    ensures Within(rs, qs)
  {
    forall i | 0 <= i < |rs| ensures rs[i] in qs {
      assert rs[i] in multiset(rs);
      assert rs[i] in multiset(qs);
    }
  }

  lemma NamedWithin<H>(rs: seq<Registration<H>>, qs: seq<Registration<H>>, l: Loc)
    requires Within(rs, qs) && Named(rs, l)
    ensures Named(qs, l)
  {
    var i :| 0 <= i < |rs| && PassesThrough(rs[i], l);
    assert rs[i] in qs;
    var j :| 0 <= j < |qs| && qs[j] == rs[i];
    assert PassesThrough(qs[j], l);
  }

  lemma SameFirstHandler<H>(rs: seq<Registration<H>>, qs: seq<Registration<H>>, at: Option<Loc>)
    requires Within(rs, qs) && Within(qs, rs) && DistinctKeys(rs) && DistinctKeys(qs) && at.Some?
    ensures FirstHandler(rs, at) == FirstHandler(qs, at)
  {
    if i :| 0 <= i < |rs| && AddLoc(rs[i].mtd, rs[i].path) == at {
      assert rs[i] in qs;
      var j :| 0 <= j < |qs| && qs[j] == rs[i];
      FirstHandlerIsOnly(rs, i);
      FirstHandlerIsOnly(qs, j);
    } else {
      assert forall j :: 0 <= j < |qs| ==> qs[j] in rs;
      NoOffer(rs, at);
      NoOffer(qs, at);
    }
  }

  // Repeating an element raises its multiplicity.
  lemma TwiceIn<T>(s: seq<T>, i: nat, j: nat)
    requires i < j < |s| && s[i] == s[j]
    ensures multiset(s)[s[i]] >= 2
  {
    assert s == s[..j] + s[j..];
    assert s[..j][i] in s[..j] && s[j..][0] in s[j..];
  }

  lemma {:induction false} TwicePlaced<T>(s: seq<T>, x: T) returns (i: nat, j: nat)
    requires multiset(s)[x] >= 2
    ensures i < j < |s| && s[i] == x && s[j] == x
  {
    var before, last := s[..|s| - 1], s[|s| - 1];
    assert s == before + [last];
    if last == x {
      assert x in multiset(before);
      i :| 0 <= i < |before| && before[i] == x;
      j := |s| - 1;
    } else {
      i, j := TwicePlaced(before, x);
    }
  }

  lemma DistinctKeysOfPermutation<H>(rs: seq<Registration<H>>, qs: seq<Registration<H>>)
    requires multiset(rs) == multiset(qs) && DistinctKeys(rs)
    ensures DistinctKeys(qs)
  {
    SameMultisetWithin(qs, rs);
    forall i, j | 0 <= i < j < |qs| && AddLoc(qs[i].mtd, qs[i].path).Some?
      ensures AddLoc(qs[i].mtd, qs[i].path) != AddLoc(qs[j].mtd, qs[j].path)
    {
      DistinctPair(rs, qs, i, j);
    }
  }

  lemma DistinctPair<H>(rs: seq<Registration<H>>, qs: seq<Registration<H>>, i: nat, j: nat)
    requires multiset(rs) == multiset(qs) && DistinctKeys(rs) && Within(qs, rs)
    requires i < j < |qs| && AddLoc(qs[i].mtd, qs[i].path).Some?
    ensures AddLoc(qs[i].mtd, qs[i].path) != AddLoc(qs[j].mtd, qs[j].path)
  {
    var a, b: nat;
    if qs[i] == qs[j] {
      TwiceIn(qs, i, j);
      a, b := TwicePlaced(rs, qs[i]);
    } else {
      assert qs[i] in rs && qs[j] in rs;
      a :| 0 <= a < |rs| && rs[a] == qs[i];
      b :| 0 <= b < |rs| && rs[b] == qs[j];
    }
    assert a != b;
    var lo, hi := if a < b then a else b, if a < b then b else a;
    assert AddLoc(rs[lo].mtd, rs[lo].path).Some? ==> AddLoc(rs[lo].mtd, rs[lo].path) != AddLoc(rs[hi].mtd, rs[hi].path);
  }

  /** Registering routes with pairwise different keys gives the same tree in every order. */
  lemma OrderIrrelevant<H>(rs: seq<Registration<H>>, qs: seq<Registration<H>>)
    requires multiset(rs) == multiset(qs) && DistinctKeys(rs)
    ensures Run(rs) == Run(qs)
  {
    DistinctKeysOfPermutation(rs, qs);
    SameMultisetWithin(rs, qs);
    SameMultisetWithin(qs, rs);
    forall l ensures l in Run(rs) <==> l in Run(qs) {
      RunShape(rs, l);
      RunShape(qs, l);
      if Named(rs, l) { NamedWithin(rs, qs, l); }
      if Named(qs, l) { NamedWithin(qs, rs, l); }
    }
    forall l | l in Run(rs) ensures Run(rs)[l] == Run(qs)[l] {
      RunIsFirstHandler(rs, Some(l));
      RunIsFirstHandler(qs, Some(l));
      SameFirstHandler(rs, qs, Some(l));
    }
  }

  // ----- what a lookup finds, without keys -----

  // Registration i offers a handler that answers lookups of this method and path.
  ghost predicate Offers<H>(rs: seq<Registration<H>>, i: nat, mtd: Method, path: string)
    requires i < |rs|
  {
    mtd != UNKNOWN && rs[i].mtd == mtd && rs[i].handler.Some? && Serves(rs[i].path, path)
  }

  ghost predicate Matches<H>(r: Registration<H>, at: Option<Loc>) {
    at.Some? && AddLoc(r.mtd, r.path) == at && r.handler.Some?
  }

  lemma {:induction false} FirstHandlerAt<H>(rs: seq<Registration<H>>, at: Option<Loc>, i: nat)
    requires i <= |rs| && forall j :: 0 <= j < i ==> !Matches(rs[j], at)
    ensures i < |rs| && Matches(rs[i], at) ==> FirstHandler(rs, at) == rs[i].handler
    ensures i == |rs| ==> FirstHandler(rs, at) == None
  {
    if i > 0 {
      assert !Matches(rs[0], at);
      FirstHandlerAt(rs[1..], at, i - 1);
    }
  }

  lemma OffersIff<H>(rs: seq<Registration<H>>, i: nat, mtd: Method, path: string)
    requires i < |rs|
    ensures Offers(rs, i, mtd, path) <==> Matches(rs[i], GetLoc(mtd, path))
  {
    ServesIff(rs[i].path, path);
  }

  /** After any run of registrations a lookup finds the handler of the first registration that offers one for
      the same method and for a path it serves, and nothing when there is none. */
  lemma LookupFindsFirst<H>(rs: seq<Registration<H>>, mtd: Method, path: string, i: nat)
    requires i <= |rs| && forall j :: 0 <= j < i ==> !Offers(rs, j, mtd, path)
    ensures i < |rs| && Offers(rs, i, mtd, path) ==> HandlerAt(Run(rs), GetLoc(mtd, path)) == rs[i].handler
    ensures i == |rs| ==> HandlerAt(Run(rs), GetLoc(mtd, path)) == None
  {
    RunIsFirstHandler(rs, GetLoc(mtd, path));
    forall j | 0 <= j < |rs| ensures Offers(rs, j, mtd, path) <==> Matches(rs[j], GetLoc(mtd, path)) {
      OffersIff(rs, j, mtd, path);
    }
    FirstHandlerAt(rs, GetLoc(mtd, path), i);
  }

  /** In particular a route registered under a path with anything before its first slash is the same route as
      the one without, for registrations and for lookups alike. */
  lemma PrefixedRoute<H>(rs: seq<Registration<H>>, mtd: Method, prefix: string, s: string, handler: Option<H>)
    requires SlashFree(prefix) && s != ""
    ensures Run(rs + [Registration(mtd, prefix + "/" + s, handler)]) == Run(rs + [Registration(mtd, "/" + s, handler)])
    ensures HandlerAt(Run(rs), GetLoc(mtd, prefix + "/" + s)) == HandlerAt(Run(rs), GetLoc(mtd, "/" + s))
    ensures mtd != UNKNOWN && handler.Some? && HandlerAt(Run(rs), GetLoc(mtd, "/" + s)).None? ==>
              HandlerAt(Run(rs + [Registration(mtd, prefix + "/" + s, handler)]), GetLoc(mtd, "/" + s)) == handler
  {
    var r, q := Registration(mtd, prefix + "/" + s, handler), Registration(mtd, "/" + s, handler);
    PrefixIgnored(prefix, s);
    PrefixIgnored("", s);
    assert "" + "/" + s == "/" + s;
    assert AddLoc(mtd, prefix + "/" + s) == AddLoc(mtd, "/" + s) == GetLoc(mtd, "/" + s);
    assert (rs + [r])[..|rs|] == rs && (rs + [q])[..|rs|] == rs;
    RunIsFirstHandler(rs, GetLoc(mtd, "/" + s));
    RunIsFirstHandler(rs + [r], GetLoc(mtd, "/" + s));
    FirstHandlerSnoc(rs, r, GetLoc(mtd, "/" + s));
  }

  // ----- the flat METHOD+path registry of the README -----

  ghost function FlatAdd<H>(registry: map<string, H>, r: Registration<H>): map<string, H> {
    var name := MethodName(r.mtd) + r.path;
    if name in registry || r.handler.None? then registry else registry[name := r.handler.value]
  }

  ghost function FlatRun<H>(rs: seq<Registration<H>>): map<string, H> {
    if rs == [] then map[] else FlatAdd(FlatRun(rs[..|rs| - 1]), rs[|rs| - 1])
  }

  ghost predicate Plain(mtd: Method, path: string) {
    mtd != UNKNOWN && path != "" && path[0] == '/'
  }

  lemma NameEnds(m: Method, p: string)
    requires Plain(m, p)
    ensures FindChar(MethodName(m) + p, '/', 0) == |MethodName(m)|
  {
    FindCharIs(MethodName(m) + p, '/', 0, |MethodName(m)|);
  }

  lemma NameDetermines(m: Method, n: Method)
    requires MethodName(m) == MethodName(n)
    ensures m == n
  {
    MethodRoundTrip(MethodName(m), m);
    MethodRoundTrip(MethodName(n), n);
  }

  // No separator is needed between method and path: no method name holds a slash.
  lemma FlatNameInjective(m: Method, p: string, n: Method, q: string)
    requires Plain(m, p) && Plain(n, q)
    ensures MethodName(m) + p == MethodName(n) + q <==> m == n && p == q
  {
    if MethodName(m) + p == MethodName(n) + q {
      NameEnds(m, p);
      NameEnds(n, q);
      SameParts(MethodName(m), p, MethodName(n), q);
      NameDetermines(m, n);
    }
  }

  lemma SameParts(a: string, p: string, b: string, q: string)
    requires a + p == b + q && |a| == |b|
    ensures a == b && p == q
  {
    assert (a + p)[..|a|] == a && (b + q)[..|b|] == b;
    assert (a + p)[|a|..] == p && (b + q)[|b|..] == q;
  }

  /** On paths that begin with a slash the tree answers as the flat registry does. */
  lemma {:induction false} FlatAgreement<H>(rs: seq<Registration<H>>, mtd: Method, path: string)
    requires forall i :: 0 <= i < |rs| ==> Plain(rs[i].mtd, rs[i].path)
    requires Plain(mtd, path)
    ensures HandlerAt(Run(rs), GetLoc(mtd, path)) ==
            var name := MethodName(mtd) + path;
            if name in FlatRun(rs) then Some(FlatRun(rs)[name]) else None
  {
    var at := GetLoc(mtd, path);
    RunIsFirstHandler(rs, at);
    if rs != [] {
      var before, r := rs[..|rs| - 1], rs[|rs| - 1];
      assert rs == before + [r];
      FlatAgreement(before, mtd, path);
      RunIsFirstHandler(before, at);
      FirstHandlerSnoc(before, r, at);
      FlatNameInjective(mtd, path, r.mtd, r.path);
      RootedKeysDistinct(path, r.path);
    }
  }
}
