/** Requests, responses and the case-insensitive header map (http_message.h, http_message.cc). */
module HttpMessage {
  import opened Wrappers
  import opened HttpMethod

  datatype Field = Field(name: string, value: string)

  // The header map: one field per lower-cased name.
  type Headers = map<string, Field>

  // headers[name] = value: a name already present keeps its first spelling.
  function Put(h: Headers, f: Field): Headers {
    var key := Lower(f.name);
    h[key := Field(if key in h then h[key].name else f.name, f.value)]
  }

  function PutAll(h: Headers, fs: seq<Field>): Headers {
    if fs == [] then h else Put(PutAll(h, fs[..|fs| - 1]), fs[|fs| - 1])
  }

  function LastValue(fs: seq<Field>, key: string): Option<string> {
    if fs == [] then None
    else if Lower(fs[|fs| - 1].name) == key then Some(fs[|fs| - 1].value)
    else LastValue(fs[..|fs| - 1], key)
  }

  function FirstName(fs: seq<Field>, key: string): Option<string> {
    if fs == [] then None
    else if Lower(fs[0].name) == key then Some(fs[0].name)
    else FirstName(fs[1..], key)
  }

  lemma {:induction false} FirstNameSnoc(fs: seq<Field>, f: Field, key: string)
    ensures FirstName(fs + [f], key) ==
            if FirstName(fs, key).Some? then FirstName(fs, key)
            else if Lower(f.name) == key then Some(f.name) else None
  {
    if fs != [] {
      assert (fs + [f])[1..] == fs[1..] + [f];
      FirstNameSnoc(fs[1..], f, key);
    }
  }

  /** After any insertions a name has the value written last and the spelling written first. */
  lemma {:induction false} PutAllMeaning(fs: seq<Field>, key: string)
    ensures key in PutAll(map[], fs) <==> LastValue(fs, key).Some?
    ensures key in PutAll(map[], fs) <==> FirstName(fs, key).Some?
    ensures key in PutAll(map[], fs) ==>
              PutAll(map[], fs)[key] == Field(FirstName(fs, key).value, LastValue(fs, key).value)
  {
    if fs != [] {
      var before, f := fs[..|fs| - 1], fs[|fs| - 1];
      PutAllMeaning(before, key);
      FirstNameSnoc(before, f, key);
      assert fs == before + [f];
    }
  }

  // ----- the functors of the unordered_map, and the bucketed table they drive -----

  // CaseInsensitiveEqual
  predicate EqualNames(a: string, b: string) {
    |a| == |b| && forall i :: 0 <= i < |a| ==> ToLower(a[i]) == ToLower(b[i])
  }

  // CaseInsensitiveHash over an arbitrary hash of byte strings
  function HashName(hash: string -> nat, s: string): nat {
    hash(Lower(s))
  }

  lemma EqualNamesIsLowerEquality(a: string, b: string)
    ensures EqualNames(a, b) <==> Lower(a) == Lower(b)
  {
    if Lower(a) == Lower(b) {
      assert |a| == |Lower(a)| == |b|;
      forall i | 0 <= i < |a| ensures ToLower(a[i]) == ToLower(b[i]) {
        assert Lower(a)[i] == Lower(b)[i];
      }
    }
  }

  datatype Table = Table(hash: string -> nat, buckets: seq<seq<Field>>)

  function BucketOf(t: Table, name: string): nat
    requires |t.buckets| > 0
  {
    HashName(t.hash, name) % |t.buckets|
  }

  function Search(bucket: seq<Field>, name: string): (i: Option<nat>)
    ensures i.Some? ==> i.value < |bucket| && EqualNames(bucket[i.value].name, name)
    ensures i.None? ==> forall f :: f in bucket ==> !EqualNames(f.name, name)
  {
    if bucket == [] then None
    else if EqualNames(bucket[|bucket| - 1].name, name) then Some(|bucket| - 1)
    else Search(bucket[..|bucket| - 1], name)
  }

  function TableGet(t: Table, name: string): Option<Field>
    requires |t.buckets| > 0
  {
    var bucket := t.buckets[BucketOf(t, name)];
    match Search(bucket, name)
    case None => None
    case Some(i) => Some(bucket[i])
  }

  // The entry of that name is overwritten where it is, or a new one is added.
  function BucketPut(bucket: seq<Field>, f: Field): seq<Field> {
    match Search(bucket, f.name)
    case None => bucket + [f]
    case Some(i) => bucket[i := Field(bucket[i].name, f.value)]
  }

  function TablePut(t: Table, f: Field): Table
    requires |t.buckets| > 0
  {
    var b := BucketOf(t, f.name);
    t.(buckets := t.buckets[b := BucketPut(t.buckets[b], f)])
  }

  // Every entry is the entry of its name in its bucket: no two names of a bucket are equal.
  ghost predicate Distinct(bucket: seq<Field>) {
    forall i, j :: 0 <= i < j < |bucket| ==> !EqualNames(bucket[i].name, bucket[j].name)
  }

  // Every entry is in the bucket that its hash names.
  ghost predicate Placed(t: Table) {
    && |t.buckets| > 0
    && (forall b :: 0 <= b < |t.buckets| ==> Distinct(t.buckets[b]))
    && (forall b, i :: 0 <= b < |t.buckets| && 0 <= i < |t.buckets[b]| ==> BucketOf(t, t.buckets[b][i].name) == b)
  }

  ghost predicate Represents(t: Table, h: Headers) {
    Placed(t) && forall name: string :: TableGet(t, name) == if Lower(name) in h then Some(h[Lower(name)]) else None
  }

  lemma SearchUnique(bucket: seq<Field>, name: string, i: nat)
    requires Distinct(bucket) && i < |bucket| && EqualNames(bucket[i].name, name)
    ensures Search(bucket, name) == Some(i)
  {
    var found := Search(bucket, name);
    assert bucket[i] in bucket;
    EqualNamesIsLowerEquality(bucket[i].name, name);
    EqualNamesIsLowerEquality(bucket[found.value].name, name);
    EqualNamesIsLowerEquality(bucket[i].name, bucket[found.value].name);
    EqualNamesIsLowerEquality(bucket[found.value].name, bucket[i].name);
  }

  lemma SearchAfterPut(bucket: seq<Field>, f: Field, name: string)
    requires Distinct(bucket)
    ensures var at := Search(bucket, f.name);
            var after := BucketPut(bucket, f);
            Distinct(after) &&
            if EqualNames(name, f.name) then
              Search(after, name).Some? && after[Search(after, name).value] ==
                Field(if at.None? then f.name else bucket[at.value].name, f.value)
            else
              Search(after, name).Some? == Search(bucket, name).Some? &&
              (Search(bucket, name).Some? ==>
                after[Search(after, name).value] == bucket[Search(bucket, name).value])
  {
    forall a: string, b: string { EqualNamesIsLowerEquality(a, b); }
    var at := Search(bucket, f.name);
    var after := BucketPut(bucket, f);
    assert forall g :: g in bucket ==> exists i :: 0 <= i < |bucket| && bucket[i] == g;
    assert Distinct(after);
    var slot := if at.None? then |bucket| else at.value;
    if EqualNames(name, f.name) {
      SearchUnique(after, name, slot);
    } else if Search(bucket, name).Some? {
      SearchUnique(after, name, Search(bucket, name).value);
    }
  }

  lemma PutRepresents(t: Table, h: Headers, f: Field)
    requires Represents(t, h)
    ensures Represents(TablePut(t, f), Put(h, f))
  {
    PutPlaced(t, f);
    forall name: string
      ensures TableGet(TablePut(t, f), name) == if Lower(name) in Put(h, f) then Some(Put(h, f)[Lower(name)]) else None
    {
      if Lower(name) == Lower(f.name) {
        PutFound(t, h, f, name);
      } else {
        PutElsewhere(t, f, name);
        assert TableGet(t, name).Some? <==> Lower(name) in h;
      }
    }
  }

  lemma PutPlaced(t: Table, f: Field)
    requires Placed(t)
    ensures Placed(TablePut(t, f))
  {
    var b := BucketOf(t, f.name);
    SearchAfterPut(t.buckets[b], f, f.name);
    forall i | 0 <= i < |BucketPut(t.buckets[b], f)| ensures BucketOf(t, BucketPut(t.buckets[b], f)[i].name) == b {
      NamesAfterPut(t.buckets[b], f, i);
    }
    BucketReplaced(t, b, BucketPut(t.buckets[b], f));
  }

  lemma NamesAfterPut(bucket: seq<Field>, f: Field, i: nat)
    requires i < |BucketPut(bucket, f)|
    ensures BucketPut(bucket, f)[i].name == if i < |bucket| then bucket[i].name else f.name
  {
  }

  lemma BucketReplaced(t: Table, b: nat, after: seq<Field>)
    requires Placed(t) && b < |t.buckets| && Distinct(after)
    requires forall i :: 0 <= i < |after| ==> BucketOf(t, after[i].name) == b
    ensures Placed(t.(buckets := t.buckets[b := after]))
  {
    var u := t.(buckets := t.buckets[b := after]);
    forall c, i | 0 <= c < |u.buckets| && 0 <= i < |u.buckets[c]| ensures BucketOf(u, u.buckets[c][i].name) == c {
      assert BucketOf(u, u.buckets[c][i].name) == BucketOf(t, u.buckets[c][i].name);
    }
  }

  lemma PutFound(t: Table, h: Headers, f: Field, name: string)
    requires Represents(t, h) && Lower(name) == Lower(f.name)
    ensures TableGet(TablePut(t, f), name) == Some(Put(h, f)[Lower(name)])
  {
    assert Distinct(t.buckets[BucketOf(t, f.name)]);
    EqualNamesIsLowerEquality(name, f.name);
    SearchAfterPut(t.buckets[BucketOf(t, f.name)], f, name);
    assert TableGet(t, f.name) == if Lower(f.name) in h then Some(h[Lower(f.name)]) else None;
  }

  lemma PutElsewhere(t: Table, f: Field, name: string)
    requires |t.buckets| > 0 && Distinct(t.buckets[BucketOf(t, f.name)]) && Lower(name) != Lower(f.name)
    ensures TableGet(TablePut(t, f), name) == TableGet(t, name)
  {
    EqualNamesIsLowerEquality(name, f.name);
    SearchAfterPut(t.buckets[BucketOf(t, f.name)], f, name);
  }

  // ----- growth -----

  ghost predicate Holds(t: Table, f: Field) {
    exists b, i :: 0 <= b < |t.buckets| && 0 <= i < |t.buckets[b]| && t.buckets[b][i] == f
  }

  // The same entries, dealt out to any number of buckets, in any order within each.
  ghost predicate Rehashed(t: Table, u: Table) {
    u.hash == t.hash && Placed(u) && forall f :: Holds(u, f) <==> Holds(t, f)
  }

  lemma HeldIsFound(t: Table, f: Field, name: string)
    requires Placed(t) && Holds(t, f) && EqualNames(f.name, name)
    ensures TableGet(t, name) == Some(f)
  {
    var b, i :| 0 <= b < |t.buckets| && 0 <= i < |t.buckets[b]| && t.buckets[b][i] == f;
    EqualNamesIsLowerEquality(f.name, name);
    assert BucketOf(t, t.buckets[b][i].name) == b;
    SearchUnique(t.buckets[b], name, i);
  }

  lemma FoundIsHeld(t: Table, name: string)
    requires Placed(t) && TableGet(t, name).Some?
    ensures Holds(t, TableGet(t, name).value) && EqualNames(TableGet(t, name).value.name, name)
  {
    var b := BucketOf(t, name);
    var i := Search(t.buckets[b], name).value;
    assert t.buckets[b][i] == TableGet(t, name).value;
  }

  /** Rehashing changes no answer. */
  lemma RehashRepresents(t: Table, u: Table, h: Headers)
    requires Represents(t, h) && Rehashed(t, u)
    ensures Represents(u, h)
  {
    forall name: string ensures TableGet(u, name) == TableGet(t, name) {
      if TableGet(t, name).Some? {
        FoundIsHeld(t, name);
        HeldIsFound(u, TableGet(t, name).value, name);
      }
      if TableGet(u, name).Some? {
        FoundIsHeld(u, name);
        HeldIsFound(t, TableGet(u, name).value, name);
      }
    }
  }

  datatype TableOp = Insert(f: Field) | Rehash

  ghost predicate TableStep(t: Table, op: TableOp, u: Table) {
    match op
    case Insert(f) => |t.buckets| > 0 && u == TablePut(t, f)
    case Rehash => Rehashed(t, u)
  }

  // The states of a table under a list of operations.
  ghost predicate TableRun(ts: seq<Table>, ops: seq<TableOp>) {
    |ts| == |ops| + 1 && forall i :: 0 <= i < |ops| ==> TableStep(ts[i], ops[i], ts[i + 1])
  }

  function InsertedFields(ops: seq<TableOp>): seq<Field> {
    if ops == [] then []
    else InsertedFields(ops[..|ops| - 1]) + match ops[|ops| - 1] case Insert(f) => [f] case Rehash => []
  }

  /** The hashed container, filled in any way and growing at any time, answers every lookup in any spelling
      as the map of lower-cased names does: the hash never separates two names that compare equal. */
  lemma {:induction false} TableRefinesHeaders(ts: seq<Table>, ops: seq<TableOp>)
    requires TableRun(ts, ops) && |ts[0].buckets| > 0
    requires forall b :: 0 <= b < |ts[0].buckets| ==> ts[0].buckets[b] == []
    ensures Represents(ts[|ops|], PutAll(map[], InsertedFields(ops)))
    decreases |ops|
  {
    if ops != [] {
      var n := |ops| - 1;
      TableRefinesHeaders(ts[..n + 1], ops[..n]);
      assert TableStep(ts[n], ops[n], ts[n + 1]);
      TableStepRepresents(ts[n], ops[n], ts[n + 1], InsertedFields(ops[..n]));
    }
  }

  lemma TableStepRepresents(t: Table, op: TableOp, u: Table, fs: seq<Field>)
    requires Represents(t, PutAll(map[], fs)) && TableStep(t, op, u)
    ensures Represents(u, PutAll(map[], fs + match op case Insert(f) => [f] case Rehash => []))
  {
    match op {
      case Insert(f) =>
        PutRepresents(t, PutAll(map[], fs), f);
        assert (fs + [f])[..|fs|] == fs;
      case Rehash =>
        RehashRepresents(t, u, PutAll(map[], fs));
        assert fs + [] == fs;
    }
  }

  // ----- requests and responses -----

  // JSON values, as far as the server builds them itself; Other stands for values it only passes on.
  datatype Json =
    | Null
    | Number(n: int)
    | Text(s: string)
    | Object(members: seq<(string, Json)>)
    | Other(text: string)

  datatype Request = Request(
    id: string, mtd: Method, path: string, version: string, headers: Headers, body: Json)

  datatype Response = Response(status: nat, headers: Headers, body: Json)

  datatype RetCode = InvalidJsonOrParams | NotFound | RequestBufferOverflow | InternalError

  function CodeOf(c: RetCode): nat {
    match c
    case InvalidJsonOrParams => 40000
    case NotFound => 40400
    case RequestBufferOverflow => 41300
    case InternalError => 50000
  }

  function MessageOf(c: RetCode): string {
    match c
    case InvalidJsonOrParams => "Invalid JSON or parameters"
    case NotFound => "Resource not found"
    case RequestBufferOverflow => "Request exceeded receive buffer size"
    case InternalError => "Internal error"
  }

  // makeResp with the default empty result; the id and the clock reading are supplied.
  function MakeResp(c: RetCode, id: string, now: int): Response {
    Response(CodeOf(c) / 100, Put(map[], Field("X-Request-Id", id)),
             Object([("retCode", Number(CodeOf(c))), ("retMesg", Text(MessageOf(c))),
                     ("time", Number(now)), ("result", Object([]))]))
  }
}
