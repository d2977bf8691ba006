/** The routing tree of routing_tree.h: one mutable segment trie per method.

    A HashMap of child nodes is a map field that its node reassigns; the root map of a method is
    the child map of a node whose own handler slot is never used. */
module RoutingTree {
  import opened Wrappers
  import opened HttpMethod
  import opened RoutingKeys
  import opened RoutingSpec

  const NUM_HTTP_METHODS := 5

  class Node<H> {
    ghost const at: Loc
    var handler: Option<H>
    var children: map<string, Node<H>>

    constructor (ghost at: Loc, handler: Option<H>)
      ensures this.at == at && this.handler == handler && children == map[]
    {
      this.at, this.handler, children := at, handler, map[];
    }
  }

  // static_cast<size_t>(mtd)
  function Index(mtd: Method): nat {
    match mtd
    case GET => 0
    case POST => 1
    case PUT => 2
    case DELETE => 3
    case PATCH => 4
    case UNKNOWN => 5
  }

  ghost function Child(l: Loc, segment: string): Loc {
    Loc(l.mtd, l.key + [segment])
  }

  ghost function Parent(l: Loc): Loc
    requires l.key != []
  {
    Loc(l.mtd, l.key[..|l.key| - 1])
  }

  lemma ChildDetermines(at: Loc, elem: string)
    ensures forall l, s {:trigger Child(l, s)} :: Child(l, s) == Child(at, elem) <==> l == at && s == elem
  {
    forall l, s | Child(l, s) == Child(at, elem) ensures l == at && s == elem {
      assert l.key == Child(l, s).key[..|l.key|] == Child(at, elem).key[..|at.key|] == at.key;
      assert s == Child(l, s).key[|l.key|] == elem;
    }
  }

  // c with interior nodes added so that l and every position above it exists.
  ghost function Grow<H>(c: Contents<H>, l: Loc): Contents<H> {
    map k | k in c.Keys + Prefixes(l) :: if k in c then c[k] else None
  }

  // A key that can be registered under: its slot holds no handler yet.
  ghost predicate Free<H>(c: Contents<H>, mtd: Method, key: Option<Key>) {
    key.Some? && HandlerAt(c, Some(Loc(mtd, key.value))).None?
  }

  ghost function Placed<H>(c: Contents<H>, mtd: Method, key: Option<Key>, handler: Option<H>): Contents<H> {
    if Free(c, mtd, key) then Insert(c, Loc(mtd, key.value), handler) else c
  }

  lemma RegisterPlaces<H>(c: Contents<H>, mtd: Method, path: string, handler: Option<H>)
    ensures var r := Registration(mtd, path, handler);
            if mtd.UNKNOWN? then !Accepts(c, r) && Register(c, r) == c
            else (Accepts(c, r) <==> Free(c, mtd, AddKey(path))) &&
                 Register(c, r) == Placed(c, mtd, AddKey(path), handler)
  {
  }

  lemma PrefixesOfChild(l: Loc, segment: string)
    ensures Prefixes(Child(l, segment)) == Prefixes(l) + {Child(l, segment)}
    ensures Child(l, segment) !in Prefixes(l)
  {
    var k := l.key + [segment];
    assert k[..|k|] == k;
    assert forall n :: 0 <= n <= |l.key| ==> k[..n] == l.key[..n];
    forall p ensures p in Prefixes(Child(l, segment)) <==> p in Prefixes(l) + {Child(l, segment)} {
      if p in Prefixes(l) {
        var n :| 1 <= n <= |l.key| && p == Loc(l.mtd, l.key[..n]);
        assert p == Loc(l.mtd, k[..n]);
      }
    }
  }

  const METHODS := [GET, POST, PUT, DELETE, PATCH]

  // make_root: one empty map per method.
  method MakeRoot<H>() returns (root: seq<Node<H>>, ghost nodes: map<Loc, Node<H>>, ghost repr: set<Node<H>>)
    ensures |root| == NUM_HTTP_METHODS && fresh(repr)
    ensures forall m: Method :: m != UNKNOWN ==> Loc(m, []) in nodes && nodes[Loc(m, [])] == root[Index(m)]
    ensures forall l :: l in nodes ==>
              nodes[l] in repr && nodes[l].at == l && l.mtd != UNKNOWN && l.key == [] && nodes[l].children == map[]
  {
    root, nodes, repr := [], map[], {};
    for i := 0 to NUM_HTTP_METHODS
      invariant |root| == i && fresh(repr)
      invariant forall m: Method :: Index(m) < i ==> Loc(m, []) in nodes && nodes[Loc(m, [])] == root[Index(m)]
      invariant forall l :: l in nodes ==>
                  nodes[l] in repr && nodes[l].at == l && l.mtd != UNKNOWN && l.key == [] && nodes[l].children == map[]
    {
      var node := new Node<H>(Loc(METHODS[i], []), None);
      root, nodes, repr := root + [node], nodes[Loc(METHODS[i], []) := node], repr + {node};
    }
  }

  class Tree<H> {
    const root: seq<Node<H>>
    ghost var nodes: map<Loc, Node<H>>  // every node object, by position
    ghost var repr: set<Node<H>>        // those objects

    // The objects form a tree: each position has its own node, and children fields link the positions.
    ghost predicate Linked()
      reads this, repr
    {
      && |root| == NUM_HTTP_METHODS
      && (forall m: Method :: m != UNKNOWN ==> Loc(m, []) in nodes && nodes[Loc(m, [])] == root[Index(m)])
      && (forall l :: l in nodes ==> nodes[l] in repr && nodes[l].at == l && l.mtd != UNKNOWN)
      && (forall l, s {:trigger Child(l, s)} ::
            Child(l, s) in nodes <==> l in nodes && s in nodes[l].children)
      && (forall l, s {:trigger Child(l, s)} ::
            Child(l, s) in nodes ==> nodes[Child(l, s)] == nodes[l].children[s])
    }

    ghost function Slots(): Contents<H>
      requires Linked()
      reads this, repr
    {
      map l | l in nodes && l.key != [] :: nodes[l].handler
    }

    constructor ()
      ensures Linked() && fresh(repr) && Slots() == map[]
    {
      var roots, placed, owned := MakeRoot<H>();
      root, nodes, repr := roots, placed, owned;
      new;
      assert forall l, s {:trigger Child(l, s)} :: Child(l, s).key != [];
    }

    lemma {:induction false} AncestorsExist(l: Loc, n: nat)
      requires Linked() && l in nodes && n <= |l.key|
      ensures Loc(l.mtd, l.key[..n]) in nodes
      decreases |l.key|
    {
      if n == |l.key| {
        assert l.key[..n] == l.key;
      } else {
        assert l == Child(Parent(l), l.key[|l.key| - 1]);
        AncestorsExist(Parent(l), n);
        assert Parent(l).key[..n] == l.key[..n];
      }
    }

    // try_emplace of a segment that is not there yet.
    method Emplace(target: Node<H>, ghost at: Loc, elem: string, handler: Option<H>) returns (child: Node<H>)
      requires Linked() && at in nodes && nodes[at] == target && elem !in target.children
      modifies this`nodes, this`repr, target`children
      ensures Linked() && fresh(child)
      ensures nodes == old(nodes)[Child(at, elem) := child] && repr == old(repr) + {child}
      ensures Slots() == old(Slots())[Child(at, elem) := handler]
    {
      child := new Node<H>(Child(at, elem), handler);
      target.children := target.children[elem := child];
      nodes, repr := nodes[Child(at, elem) := child], repr + {child};
      ChildDetermines(at, elem);
    }

    // One step of the descent of `add`: the child of that name, created when missing.
    method FindOrEmplace(target: Node<H>, ghost at: Loc, elem: string, ghost before: Contents<H>)
      returns (child: Node<H>)
      requires Linked() && at in nodes && nodes[at] == target && Slots() == Grow(before, at)
      modifies this`nodes, this`repr, target`children
      ensures Linked() && fresh(repr - old(repr))
      ensures Child(at, elem) in nodes && nodes[Child(at, elem)] == child
      ensures Slots() == Grow(before, Child(at, elem))
    {
      assert elem in target.children <==> Child(at, elem) in nodes;
      GrowStep(before, at, elem);
      if elem in target.children {
        child := target.children[elem];
      } else {
        child := Emplace(target, at, elem, None);
      }
    }

    // set_elem: false, and nothing changed, exactly when the slot holds a handler already.
    method SetElem(target: Node<H>, ghost at: Loc, elem: string, handler: Option<H>) returns (ok: bool)
      requires Linked() && at in nodes && nodes[at] == target
      modifies this`nodes, this`repr, repr
      ensures Linked() && fresh(repr - old(repr))
      ensures ok == HandlerAt(old(Slots()), Some(Child(at, elem))).None?
      ensures Slots() == if ok then old(Slots())[Child(at, elem) := handler] else old(Slots())
    {
      if elem in target.children {
        var node := target.children[elem];
        assert node == nodes[Child(at, elem)];
        if node.handler.Some? {
          return false;
        }
        node.handler := handler;
        return true;
      }
      var _ := Emplace(target, at, elem, handler);
      return true;
    }

    lemma NothingBelow(p: Loc, l: Loc)
      requires Linked() && p !in nodes && p.mtd == l.mtd && p.key <= l.key
      ensures l !in nodes
    {
      assert p.key == l.key[..|p.key|];
      if l in nodes {
        AncestorsExist(l, |p.key|);
      }
    }

    // The next segment leads to the next node; without it nothing further down exists either.
    lemma StepOrNothing(target: Node<H>, at: Loc, path: string, slashBeg: nat, slashEnd: nat, whole: Key)
      requires Linked() && at in nodes && nodes[at] == target
      requires slashBeg < slashEnd < |path| && slashEnd == FindChar(path, '/', slashBeg + 1)
      requires Ahead(path, slashBeg, at, whole)
      ensures var child := Child(at, path[slashBeg + 1..slashEnd]);
              Ahead(path, slashEnd, child, whole) &&
              if path[slashBeg + 1..slashEnd] in target.children
              then child in nodes && nodes[child] == target.children[path[slashBeg + 1..slashEnd]]
              else Loc(at.mtd, whole) !in nodes
    {
      var elem := path[slashBeg + 1..slashEnd];
      SplitStep(path, slashBeg, slashEnd, at, whole);
      assert elem in target.children <==> Child(at, elem) in nodes;
      if elem !in target.children {
        NothingBelow(Child(at, elem), Loc(at.mtd, whole));
      }
    }

    lemma SlotsClosed()
      requires Linked()
      ensures PrefixClosed(Slots())
    {
      forall l, p | l in Slots() && p in Prefixes(l) ensures p in Slots() {
        var n :| 1 <= n <= |l.key| && p == Loc(l.mtd, l.key[..n]);
        AncestorsExist(l, n);
      }
    }

    /** RoutingTree::add. */
    method Add(mtd: Method, path: string, handler: Option<H>) returns (ok: bool)
      requires Linked()
      modifies this, repr
      ensures Linked() && fresh(repr - old(repr))
      ensures ok == Accepts(old(Slots()), Registration(mtd, path, handler))
      ensures Slots() == Register(old(Slots()), Registration(mtd, path, handler))
    {
      RegisterPlaces(Slots(), mtd, path, handler);
      var idx := Index(mtd);
      if idx >= |root| {
        return false;
      }
      ok := AddUnder(root[idx], Loc(mtd, []), path, handler);
    }

    // The switch on the length of the path.
    method AddUnder(top: Node<H>, ghost from: Loc, path: string, handler: Option<H>) returns (ok: bool)
      requires Linked() && from in nodes && nodes[from] == top && from.key == []
      modifies this, repr
      ensures Linked() && fresh(repr - old(repr))
      ensures ok == Free(old(Slots()), from.mtd, AddKey(path))
      ensures Slots() == Placed(old(Slots()), from.mtd, AddKey(path), handler)
    {
      if |path| == 0 {
        return false;
      }
      if |path| == 1 {
        if path[0] != '/' {
          return false;
        }
        ok := AddSlash(top, from, handler);
      } else {
        var slashBeg: nat := FindChar(path, '/', 0);
        if slashBeg == |path| {
          return false;
        }
        ok := AddBelow(top, from, path, slashBeg, handler);
      }
    }

    // The one-byte path "/": its literal text is the key.
    method AddSlash(top: Node<H>, ghost from: Loc, handler: Option<H>) returns (ok: bool)
      requires Linked() && from in nodes && nodes[from] == top && from.key == []
      modifies this, repr
      ensures Linked() && fresh(repr - old(repr))
      ensures ok == Free(old(Slots()), from.mtd, Some(["/"]))
      ensures Slots() == Placed(old(Slots()), from.mtd, Some(["/"]), handler)
    {
      assert [] + ["/"] == ["/"];
      InsertAtRoot(Slots(), from, "/", handler);
      ok := SetElem(top, from, "/", handler);
    }

    // The default case of RoutingTree::add once the first slash is found.
    method AddBelow(top: Node<H>, ghost from: Loc, path: string, firstSlash: nat, handler: Option<H>)
      returns (ok: bool)
      requires Linked() && from in nodes && nodes[from] == top && from.key == [] && firstSlash < |path|
      modifies this, repr
      ensures Linked() && fresh(repr - old(repr))
      ensures ok == Free(old(Slots()), from.mtd, Some(Split(path[firstSlash + 1..])))
      ensures Slots() == Placed(old(Slots()), from.mtd, Some(Split(path[firstSlash + 1..])), handler)
    {
      SlotsClosed();
      ghost var before := Slots();
      var target, elem;
      ghost var at;
      target, at, elem := Descend(top, from, path, firstSlash);
      ok := SetLeaf(target, at, elem, handler, before);
    }

    // One turn of that loop.
    method NextBelow(target: Node<H>, ghost at: Loc, path: string, slashBeg: nat, slashEnd: nat,
                     ghost before: Contents<H>, ghost whole: Key)
      returns (child: Node<H>, ghost below: Loc)
      requires Linked() && at in nodes && nodes[at] == target && Slots() == Grow(before, at)
      requires slashBeg < slashEnd < |path| && slashEnd == FindChar(path, '/', slashBeg + 1)
      requires Ahead(path, slashBeg, at, whole)
      modifies this`nodes, this`repr, target`children
      ensures Linked() && fresh(repr - old(repr)) && Slots() == Grow(before, below)
      ensures below in nodes && nodes[below] == child && below.mtd == at.mtd && Ahead(path, slashEnd, below, whole)
    {
      var elem := path[slashBeg + 1..slashEnd];
      SplitStep(path, slashBeg, slashEnd, at, whole);
      child := FindOrEmplace(target, at, elem, before);
      below := Child(at, elem);
    }

    // The loop of the descent: every missing interior node is created on the way to the last map.
    method Descend(top: Node<H>, ghost from: Loc, path: string, firstSlash: nat)
      returns (target: Node<H>, ghost at: Loc, elem: string)
      requires Linked() && from in nodes && nodes[from] == top && from.key == [] && firstSlash < |path|
      modifies this`nodes, this`repr, repr
      ensures Linked() && fresh(repr - old(repr))
      ensures at in nodes && nodes[at] == target && Slots() == Grow(old(Slots()), at)
      ensures Child(at, elem) == Loc(from.mtd, Split(path[firstSlash + 1..]))
    {
      ghost var before, whole := Slots(), Split(path[firstSlash + 1..]);
      target, at := top, from;
      NothingGrown(before, from);
      var slashBeg, slashEnd := firstSlash, FindChar(path, '/', firstSlash + 1);
      while slashEnd != |path|
        invariant 0 <= slashBeg < slashEnd <= |path| && slashEnd == FindChar(path, '/', slashBeg + 1)
        invariant at.mtd == from.mtd && Ahead(path, slashBeg, at, whole)
        invariant Linked() && at in nodes && nodes[at] == target
        invariant Slots() == Grow(before, at)
        invariant fresh(repr - old(repr))
        decreases |path| - slashEnd
      {
        target, at := NextBelow(target, at, path, slashBeg, slashEnd, before, whole);
        slashBeg, slashEnd := slashEnd, FindChar(path, '/', slashEnd + 1);
      }
      elem := path[slashBeg + 1..slashEnd];
      SplitStep(path, slashBeg, slashEnd, at, whole);
    }

    // The end of the descent: set_elem on the last map.
    method SetLeaf(target: Node<H>, ghost at: Loc, elem: string, handler: Option<H>, ghost before: Contents<H>)
      returns (ok: bool)
      requires Linked() && at in nodes && nodes[at] == target && PrefixClosed(before) && Slots() == Grow(before, at)
      modifies this`nodes, this`repr, repr
      ensures Linked() && fresh(repr - old(repr))
      ensures ok == HandlerAt(before, Some(Child(at, elem))).None?
      ensures Slots() == if ok then Insert(before, Child(at, elem), handler) else before
    {
      InsertAfterGrow(before, at, elem, handler);
      ok := SetElem(target, at, elem, handler);
    }

    // The end of a lookup: the handler of the child found, if any.
    method Slot(target: Node<H>, ghost at: Loc, elem: string) returns (handler: Option<H>)
      requires Linked() && at in nodes && nodes[at] == target
      ensures handler == HandlerAt(Slots(), Some(Child(at, elem)))
    {
      assert elem in target.children <==> Child(at, elem) in nodes;
      if elem !in target.children {
        return None;
      }
      return target.children[elem].handler;
    }

    /** RoutingTree::get. */
    method Get(mtd: Method, path: string) returns (handler: Option<H>)
      requires Linked()
      ensures handler == HandlerAt(Slots(), GetLoc(mtd, path))
    {
      var idx := Index(mtd);
      if idx >= |root| {
        return None;
      }
      var target := root[idx];
      ghost var at := Loc(mtd, []);

      if |path| == 0 {
        return None;
      }
      if |path| == 1 {
        assert Child(at, path) == Loc(mtd, [path]);
        handler := Slot(target, at, path);
        return;
      }
      var slashBeg: nat := FindChar(path, '/', 0);
      if slashBeg == |path| {
        return None;
      }
      handler := GetBelow(target, at, path, slashBeg);
    }

    // The default case of RoutingTree::get once the first slash is found.
    method GetBelow(top: Node<H>, ghost from: Loc, path: string, firstSlash: nat) returns (handler: Option<H>)
      requires Linked() && from in nodes && nodes[from] == top && from.key == [] && firstSlash < |path|
      ensures handler == HandlerAt(Slots(), Some(Loc(from.mtd, Split(path[firstSlash + 1..]))))
    {
      ghost var whole := Split(path[firstSlash + 1..]);
      var target := top;
      ghost var at := from;
      var slashBeg, slashEnd := firstSlash, FindChar(path, '/', firstSlash + 1);
      while slashEnd != |path|
        invariant 0 <= slashBeg < slashEnd <= |path| && slashEnd == FindChar(path, '/', slashBeg + 1)
        invariant at.mtd == from.mtd && Ahead(path, slashBeg, at, whole)
        invariant at in nodes && nodes[at] == target
        decreases |path| - slashEnd
      {
        var elem := path[slashBeg + 1..slashEnd];
        StepOrNothing(target, at, path, slashBeg, slashEnd, whole);
        if elem !in target.children {
          return None;
        }
        target := target.children[elem];
        at := Child(at, elem);
        slashBeg, slashEnd := slashEnd, FindChar(path, '/', slashEnd + 1);
      }
      var elem := path[slashBeg + 1..slashEnd];
      SplitStep(path, slashBeg, slashEnd, at, whole);
      handler := Slot(target, at, elem);
    }
  }

  ghost predicate PrefixClosed<H>(c: Contents<H>) {
    forall l :: l in c ==> Prefixes(l) <= c.Keys
  }

  // Having walked to `at` with slashBeg the last slash seen, the whole key is still the goal.
  ghost predicate Ahead(path: string, slashBeg: nat, at: Loc, whole: Key)
    requires slashBeg < |path|
  {
    whole == at.key + Split(path[slashBeg + 1..])
  }

  // The scan for the next slash takes exactly the next segment off the split.
  lemma SplitStep(path: string, slashBeg: nat, slashEnd: nat, at: Loc, whole: Key)
    requires slashBeg < |path| && slashEnd == FindChar(path, '/', slashBeg + 1) && Ahead(path, slashBeg, at, whole)
    ensures var child := Child(at, path[slashBeg + 1..slashEnd]);
            if slashEnd < |path| then Ahead(path, slashEnd, child, whole) && child.key <= whole else child.key == whole
  {
    var elem := path[slashBeg + 1..slashEnd];
    SplitPath(path, slashBeg, slashEnd);
    if slashEnd < |path| {
      assert at.key + ([elem] + Split(path[slashEnd + 1..])) == at.key + [elem] + Split(path[slashEnd + 1..]);
    }
  }

  lemma SplitPath(path: string, slashBeg: nat, slashEnd: nat)
    requires slashBeg < |path| && slashEnd == FindChar(path, '/', slashBeg + 1)
    ensures Split(path[slashBeg + 1..]) ==
            [path[slashBeg + 1..slashEnd]] + if slashEnd < |path| then Split(path[slashEnd + 1..]) else []
  {
    var n := slashEnd - (slashBeg + 1);
    var rest := path[slashBeg + 1..];
    assert rest[..n] == path[slashBeg + 1..slashEnd];
    SplitHead(rest, n);
    if slashEnd < |path| {
      assert rest[n + 1..] == path[slashEnd + 1..];
    }
  }

  lemma SplitHead(s: string, n: nat)
    requires n <= |s| && SlashFree(s[..n]) && (n < |s| ==> s[n] == '/')
    ensures Split(s) == [s[..n]] + if n < |s| then Split(s[n + 1..]) else []
  {
    forall i | 0 <= i < n ensures s[i] != '/' { assert s[i] == s[..n][i]; }
    FindCharIs(s, '/', 0, n);
    assert n == |s| ==> s[..n] == s;
  }

  lemma NothingGrown<H>(c: Contents<H>, at: Loc)
    requires at.key == []
    ensures Grow(c, at) == c
  {
  }

  lemma GrowStep<H>(c: Contents<H>, at: Loc, elem: string)
    ensures Grow(c, Child(at, elem)) ==
            if Child(at, elem) in Grow(c, at) then Grow(c, at) else Grow(c, at)[Child(at, elem) := None]
  {
    PrefixesOfChild(at, elem);
  }

  lemma InsertAtRoot<H>(c: Contents<H>, at: Loc, elem: string, handler: Option<H>)
    requires at.key == []
    ensures c[Child(at, elem) := handler] == Insert(c, Child(at, elem), handler)
  {
    PrefixesOfChild(at, elem);
  }

  /** Growing towards a slot and then setting it is one insertion; and growing towards
      a slot that turns out to be occupied has added nothing at all. */
  lemma InsertAfterGrow<H>(c: Contents<H>, at: Loc, elem: string, handler: Option<H>)
    requires PrefixClosed(c)
    ensures Grow(c, at)[Child(at, elem) := handler] == Insert(c, Child(at, elem), handler)
    ensures HandlerAt(Grow(c, at), Some(Child(at, elem))) == HandlerAt(c, Some(Child(at, elem)))
    ensures HandlerAt(c, Some(Child(at, elem))).Some? ==> Grow(c, at) == c
  {
    PrefixesOfChild(at, elem);
  }
}
