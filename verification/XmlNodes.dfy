/** The child list of TiXmlNode: a doubly linked list whose ends hang off the parent. */
module XmlNodes {

  datatype NodeType = Document | Element | Comment | Unknown | Text | Declaration

  // ----- lists of children -----

  function Inserted<T>(s: seq<T>, i: nat, x: T): (r: seq<T>)
    requires i <= |s|
    ensures |r| == |s| + 1
  {
    s[..i] + [x] + s[i..]
  }

  function Removed<T>(s: seq<T>, i: nat): (r: seq<T>)
    requires i < |s|
    ensures |r| == |s| - 1
  {
    s[..i] + s[i + 1..]
  }

  ghost predicate Distinct<T>(s: seq<T>) {
    forall i, j | 0 <= i < j < |s| :: s[i] != s[j]
  }

  // ----- subtrees -----

  datatype Shape = Shape(kind: NodeType, value: string, kids: seq<Shape>)

  /** The nodes below a node, and the same for each of its children. */
  datatype Region = Region(under: set<Node>, kids: seq<Region>)

  /** The children and all that is below them lie inside the region. */
  ghost predicate Encloses(g: Region, ks: seq<Node>) {
    |ks| == |g.kids| && (forall k | k in ks :: k in g.under) && forall h | h in g.kids :: h.under <= g.under
  }

  ghost function Below(gs: seq<Region>): set<Node> {
    set g, n | g in gs && n in g.under :: n
  }

  /** Trees that have no node in common. */
  ghost predicate Forest(ks: seq<Node>, ss: seq<Shape>, gs: seq<Region>)
    requires |ks| == |ss| == |gs|
    reads ks`value, ks`kids, ks`firstChild, ks`lastChild, Below(gs)
  {
    && (forall i | 0 <= i < |ks| :: Grows(ks[i], ss[i], gs[i]))
    && (forall i, j | 0 <= i < j < |ks| :: Apart(ks[i], gs[i], ks[j], gs[j]))
  }

  ghost predicate Grows(k: Node, s: Shape, g: Region)
    reads k`value, k`kids, k`firstChild, k`lastChild, g.under
    decreases s, 1
  {
    k.kind != Document && k.Tree(s, g)
  }

  ghost predicate Apart(a: Node, ga: Region, b: Node, gb: Region) {
    ({a} + ga.under) !! ({b} + gb.under)
  }

  // ----- trees next to each other -----

  lemma NotBelow(ks: seq<Node>, ss: seq<Shape>, g: Region)
    requires |ks| == |ss| && Encloses(g, ks) && Forest(ks, ss, g.kids)
    ensures Below(g.kids) <= g.under && forall k | k in ks :: k !in Below(g.kids)
  {
    var gs := g.kids;
    forall i, j | 0 <= i < |ks| && 0 <= j < |gs|
      ensures ks[i] !in gs[j].under
    {
      assert Grows(ks[i], ss[i], gs[i]) && ks[i].Tree(ss[i], gs[i]);
      assert i < j ==> Apart(ks[i], gs[i], ks[j], gs[j]);
      assert j < i ==> Apart(ks[j], gs[j], ks[i], gs[i]);
    }
  }

  ghost predicate ApartFrom(k: Node, g: Region, ks: seq<Node>, gs: seq<Region>)
    requires |ks| == |gs|
  {
    forall j | 0 <= j < |ks| :: Apart(ks[j], gs[j], k, g)
  }

  lemma ForestInserted(ks: seq<Node>, ss: seq<Shape>, gs: seq<Region>, i: nat, k: Node, s: Shape, g: Region)
    requires |ks| == |ss| == |gs| && i <= |ks| && Forest(ks, ss, gs) && Grows(k, s, g) && ApartFrom(k, g, ks, gs)
    ensures Forest(Inserted(ks, i, k), Inserted(ss, i, s), Inserted(gs, i, g))
  {
    var kt, st, gt := Inserted(ks, i, k), Inserted(ss, i, s), Inserted(gs, i, g);
    forall a | 0 <= a < |kt|
      ensures Grows(kt[a], st[a], gt[a])
    {
      var x := if a < i then a else a - 1;
      assert a != i ==> Grows(ks[x], ss[x], gs[x]);
    }
    forall a, b | 0 <= a < b < |kt|
      ensures Apart(kt[a], gt[a], kt[b], gt[b])
    {
      InsertedApart(ks, gs, i, k, g, a, b);
    }
  }

  lemma InsertedApart(ks: seq<Node>, gs: seq<Region>, i: nat, k: Node, g: Region, a: nat, b: nat)
    requires |ks| == |gs| && i <= |ks| && a < b <= |ks| && ApartFrom(k, g, ks, gs)
    requires forall a, b | 0 <= a < b < |ks| :: Apart(ks[a], gs[a], ks[b], gs[b])
    ensures Apart(Inserted(ks, i, k)[a], Inserted(gs, i, g)[a], Inserted(ks, i, k)[b], Inserted(gs, i, g)[b])
  {
    if a == i {
      assert Apart(ks[b - 1], gs[b - 1], k, g);
    } else if b == i {
      assert Apart(ks[a], gs[a], k, g);
    } else {
      var x, y := if a < i then a else a - 1, if b < i then b else b - 1;
      assert Apart(ks[x], gs[x], ks[y], gs[y]);
    }
  }

  lemma ForestRemoved(ks: seq<Node>, ss: seq<Shape>, gs: seq<Region>, i: nat)
    requires |ks| == |ss| == |gs| && i < |ks| && Forest(ks, ss, gs)
    ensures Forest(Removed(ks, i), Removed(ss, i), Removed(gs, i))
    ensures ApartFrom(ks[i], gs[i], Removed(ks, i), Removed(gs, i))
  {
    var kt, st, gt := Removed(ks, i), Removed(ss, i), Removed(gs, i);
    forall a | 0 <= a < |kt|
      ensures Grows(kt[a], st[a], gt[a]) && Apart(kt[a], gt[a], ks[i], gs[i])
    {
      var x := if a < i then a else a + 1;
      assert Grows(ks[x], ss[x], gs[x]);
      assert x < i ==> Apart(ks[x], gs[x], ks[i], gs[i]);
      assert i < x ==> Apart(ks[i], gs[i], ks[x], gs[x]);
    }
    forall a, b | 0 <= a < b < |kt|
      ensures Apart(kt[a], gt[a], kt[b], gt[b])
    {
      var x, y := if a < i then a else a + 1, if b < i then b else b + 1;
      assert Apart(ks[x], gs[x], ks[y], gs[y]);
    }
  }

  // ----- the same edits of shapes and regions -----

  function WithKid(t: Shape, i: nat, s: Shape): Shape
    requires i <= |t.kids|
  {
    t.(kids := Inserted(t.kids, i, s))
  }

  function WithoutKid(t: Shape, i: nat): Shape
    requires i < |t.kids|
  {
    t.(kids := Removed(t.kids, i))
  }

  lemma InsteadOf<T>(s: seq<T>, i: nat, x: T)
    requires i < |s|
    ensures Inserted(Removed(s, i), i, x) == s[i := x]
  {
  }

  /** The shape with the first n children only. */
  function First(t: Shape, n: nat): Shape
    requires n <= |t.kids|
  {
    t.(kids := t.kids[..n])
  }

  lemma FirstEnds(t: Shape)
    ensures First(t, 0).kids == [] && First(t, |t.kids|) == t
  {
  }

  lemma FirstMore(t: Shape, n: nat)
    requires n < |t.kids|
    ensures WithKid(First(t, n), n, t.kids[n]) == First(t, n + 1)
  {
  }

  lemma LastInside(r: Node, s: Shape, g: Region)
    requires r.Tree(s, g)
    ensures r.lastChild != null ==> r.lastChild in g.under
  {
    assert r.lastChild != null ==> r.lastChild in r.kids;
  }

  ghost function WithTree(g: Region, i: nat, k: Node, h: Region): Region
    requires i <= |g.kids|
  {
    Region(g.under + {k} + h.under, Inserted(g.kids, i, h))
  }

  ghost function WithoutTree(g: Region, i: nat, k: Node): Region
    requires i < |g.kids|
  {
    Region(g.under - {k} - g.kids[i].under, Removed(g.kids, i))
  }

  // Frames: the nodes whose links an operation may change.

  ghost function Only(n: Node?): set<Node> {
    if n == null then {} else {n}
  }

  ghost function Before(n: Node?): set<Node>
    reads n
  {
    if n == null then {} else Only(n.prev)
  }

  ghost function After(n: Node?): set<Node>
    reads n
  {
    if n == null then {} else Only(n.next)
  }

  class Node {
    const kind: NodeType
    var value: string
    var parent: Node?
    var firstChild: Node?
    var lastChild: Node?
    var prev: Node?
    var next: Node?
    ghost var kids: seq<Node>

    constructor (kind: NodeType, value: string)
      ensures this.kind == kind && this.value == value && kids == [] && Valid()
      ensures parent == null && prev == null && next == null
    {
      this.kind, this.value := kind, value;
      parent, firstChild, lastChild, prev, next := null, null, null, null, null;
      kids := [];
    }

    ghost function At(i: int): Node?
      reads this`kids
    {
      if 0 <= i < |kids| then kids[i] else null
    }

    /** The links are those of the list `kids`: prev and next inverse to each other, the ends at firstChild and
        lastChild, every child pointing to this parent, no child twice. */
    ghost predicate Valid()
      reads this`kids, this`firstChild, this`lastChild, kids`parent, kids`prev, kids`next
    {
      && this !in kids && Distinct(kids)
      && firstChild == At(0) && lastChild == At(|kids| - 1)
      && forall i | 0 <= i < |kids| :: Linked(i)
    }

    ghost predicate Linked(i: int)
      requires 0 <= i < |kids|
      reads this`kids, kids`parent, kids`prev, kids`next
    {
      kids[i].parent == this && kids[i].prev == At(i - 1) && kids[i].next == At(i + 1)
    }

    /** A node that has this parent is in its list, and then i is where. */
    ghost predicate Child(n: Node?, i: nat)
      reads this`kids, Only(n)`parent
    {
      && (n != null && n.parent == this ==> n in kids)
      && (n in kids ==> At(i) == n)
    }

    /** The node and all below it are a tree of this shape: no node twice, all lists in order. */
    ghost predicate Tree(s: Shape, g: Region)
      reads this`value, this`kids, this`firstChild, this`lastChild, g.under
      decreases s, 0
    {
      && kind == s.kind && value == s.value && |kids| == |s.kids|
      && this !in g.under && Encloses(g, kids) && Valid()
      && (forall i | 0 <= i < |kids| :: g.kids[i].under <= g.under && Grows(kids[i], s.kids[i], g.kids[i]))
      && (forall i, j | 0 <= i < j < |kids| :: Apart(kids[i], g.kids[i], kids[j], g.kids[j]))
    }

    /** The same with ks for the children, but for the links of the list. */
    ghost predicate Bears(s: Shape, g: Region, ks: seq<Node>)
      reads this`value, ks`value, ks`kids, ks`firstChild, ks`lastChild, Below(g.kids)
    {
      && kind == s.kind && value == s.value && |ks| == |s.kids|
      && this !in g.under && Encloses(g, ks) && Forest(ks, s.kids, g.kids)
    }

    lemma BearsInserted(t: Shape, gt: Region, ks: seq<Node>, i: nat, r: Node, s: Shape, h: Region)
      requires Bears(t, gt, ks) && i <= |ks| && Grows(r, s, h) && ({r} + h.under) !! ({this} + gt.under)
      ensures Bears(WithKid(t, i, s), WithTree(gt, i, r, h), Inserted(ks, i, r))
    {
      forall j | 0 <= j < |ks|
        ensures Apart(ks[j], gt.kids[j], r, h)
      {
        assert ks[j] in gt.under && gt.kids[j] in gt.kids;
      }
      ForestInserted(ks, t.kids, gt.kids, i, r, s, h);
    }

    lemma TreeInserted(t: Shape, gt: Region, ks: seq<Node>, i: nat, r: Node, s: Shape, h: Region)
      requires Bears(t, gt, ks) && i <= |ks| && kids == Inserted(ks, i, r) && Valid()
      requires Grows(r, s, h) && ({r} + h.under) !! ({this} + gt.under)
      ensures Tree(WithKid(t, i, s), WithTree(gt, i, r, h))
    {
      BearsInserted(t, gt, ks, i, r, s, h);
    }

    lemma BearsRemoved(t: Shape, gt: Region, ks: seq<Node>, i: nat)
      requires Bears(t, gt, ks) && i < |ks|
      ensures Bears(WithoutKid(t, i), WithoutTree(gt, i, ks[i]), Removed(ks, i))
    {
      var kt, g := Removed(ks, i), WithoutTree(gt, i, ks[i]);
      ForestRemoved(ks, t.kids, gt.kids, i);
      forall a | 0 <= a < |kt| ensures kt[a] in g.under && g.kids[a].under <= g.under {
        assert Apart(kt[a], g.kids[a], ks[i], gt.kids[i]);
        assert kt[a] in ks && g.kids[a] in gt.kids;
      }
    }

    lemma TreeReplaced(t: Shape, gt: Region, ks: seq<Node>, i: nat, r: Node, s: Shape, h: Region)
      requires Bears(t, gt, ks) && i < |ks| && kids == ks[i := r] && Valid()
      requires Grows(r, s, h) && ({r} + h.under) !! ({this} + gt.under)
      ensures Tree(t.(kids := t.kids[i := s]), WithTree(WithoutTree(gt, i, ks[i]), i, r, h))
    {
      BearsRemoved(t, gt, ks, i);
      InsteadOf(ks, i, r);
      InsteadOf(t.kids, i, s);
      TreeInserted(WithoutKid(t, i), WithoutTree(gt, i, ks[i]), Removed(ks, i), i, r, s, h);
    }

    /** A tree with no node of this one, nor of its list. */
    ghost predicate Strange(n: Node, h: Region, gt: Region)
      reads this`kids
    {
      ({n} + h.under) !! ({this} + gt.under) && forall k | k in kids :: k != n && k !in h.under
    }

    /** What an edit of the list leaves alone. */
    lemma Ready(t: Shape, gt: Region)
      requires Tree(t, gt)
      ensures Bears(t, gt, kids) && Below(gt.kids) <= gt.under && forall k | k in kids :: k !in Below(gt.kids)
    {
      NotBelow(kids, t.kids, gt);
    }

    /** A new tree of the same shape that does not yet belong to any list. */
    method Clone(ghost s: Shape, ghost g: Region) returns (r: Node, ghost h: Region)
      requires Tree(s, g)
      ensures fresh(r) && fresh(h.under) && r.Tree(s, h)
      decreases s, 1
    {
      r := new Node(kind, value);
      h := Region({}, []);
      FirstEnds(s);
      assert r.Tree(First(s, 0), h);
      var child := firstChild;
      ghost var i := 0;
      while child != null
        invariant 0 <= i <= |kids| && child == At(i)
        invariant fresh(r) && fresh(h.under) && r.Tree(First(s, i), h)
        decreases |kids| - i
      {
        LastInside(r, First(s, i), h);
        ghost var c, hc;
        child, c, hc := CloneChild(r, child, i, s, g, h);
        h := WithTree(h, i, c, hc);
        i := i + 1;
      }
    }

    /** One turn of the loop over the children. */
    method CloneChild(r: Node, child: Node, ghost i: nat, ghost s: Shape, ghost g: Region, ghost h0: Region)
      returns (next: Node?, ghost c: Node, ghost h: Region)
      requires Tree(s, g) && i < |kids| && child == kids[i]
      requires r.Tree(First(s, i), h0) && ({r} + h0.under) !! ({this} + g.under)
      modifies r`firstChild, r`lastChild, r`kids, Only(r.lastChild)`next
      ensures next == At(i + 1)
      ensures fresh(c) && fresh(h.under) && r.Tree(First(s, i + 1), WithTree(h0, i, c, h))
      decreases s, 0
    {
      assert Grows(child, s.kids[i], g.kids[i]) && Linked(i);
      LastInside(r, First(s, i), h0);
      c, h := r.CopyEnd(child, s.kids[i], g.kids[i], First(s, i), h0);
      FirstMore(s, i);
      next := child.next;
    }

    /** A copy of the given node becomes the last child. */
    method CopyEnd(addThis: Node, ghost s: Shape, ghost g: Region, ghost t: Shape, ghost gt: Region)
      returns (r: Node, ghost h: Region)
      requires Valid() && addThis.Tree(s, g) && addThis.kind != Document
      modifies this`firstChild, this`lastChild, this`kids, Only(lastChild)`next
      ensures Valid() && fresh(r) && fresh(h.under) && kids == old(kids) + [r] && r.Tree(s, h)
      ensures old(Tree(t, gt)) ==> Tree(WithKid(t, |t.kids|, s), WithTree(gt, |t.kids|, r, h))
      decreases s, 2
    {
      r, h := addThis.Clone(s, g);
      Adopt(r, s, h, t, gt);
    }

    /** LinkEndChild on a tree and on a subtree that has no node in common with it. */
    method Adopt(c: Node, ghost s: Shape, ghost h: Region, ghost t: Shape, ghost gt: Region)
      requires Valid() && c.Tree(s, h) && c.kind != Document && Strange(c, h, gt)
      modifies this`firstChild, this`lastChild, this`kids, c`parent, c`prev, c`next, Only(lastChild)`next
      ensures Valid() && kids == old(kids) + [c] && c.Tree(s, h)
      ensures old(Tree(t, gt)) ==> Tree(WithKid(t, |t.kids|, s), WithTree(gt, |t.kids|, c, h))
    {
      ghost var ks, tree := kids, Tree(t, gt);
      assert lastChild != null ==> lastChild in ks;
      if tree {
        Ready(t, gt);
      }
      var _ := LinkEndChild(c);
      ghost var still, kept := c.Tree(s, h), tree ==> Bears(t, gt, ks);
      assert still && kept;
      if tree {
        assert kids == Inserted(ks, |ks|, c);
        TreeInserted(t, gt, ks, |ks|, c, s, h);
      }
    }

    // ----- editing -----

    method LinkEndChild(node: Node) returns (r: Node?)
      requires Valid() && node != this && node !in kids
      modifies this`firstChild, this`lastChild, this`kids, node`parent, node`prev, node`next, Only(lastChild)`next
      ensures Valid()
      ensures node.kind == Document ==> r == null && kids == old(kids)
      ensures node.kind != Document ==> r == node && kids == old(kids) + [node]
    {
      if node.kind == Document {
        return null;
      }
      node.parent := this;
      node.prev, node.next := lastChild, null;
      if lastChild != null {
        assert lastChild == kids[|kids| - 1];
        lastChild.next := node;
      } else {
        firstChild := node;
      }
      lastChild := node;
      kids := kids + [node];
      forall k | 0 <= k < |kids| ensures Linked(k) {
        if k < old(|kids|) {
          assert old(Linked(k));
        }
      }
      r := node;
    }

    /** The given node is a tree of shape s. If this one is a tree, of shape t, it is one of the shape with a child more
        afterwards. */
    method InsertEndChild(addThis: Node, ghost s: Shape, ghost g: Region, ghost t: Shape, ghost gt: Region)
      returns (r: Node?, ghost h: Region)
      requires Valid() && addThis.Tree(s, g)
      modifies this`firstChild, this`lastChild, this`kids, Only(lastChild)`next
      ensures Valid()
      ensures addThis.kind == Document ==> r == null && kids == old(kids)
      ensures addThis.kind != Document ==> r != null && fresh(r) && kids == old(kids) + [r]
      ensures r != null ==> r.Tree(s, h) && fresh(h.under)
      ensures old(Tree(t, gt)) ==>
                if r == null then Tree(t, gt) else Tree(WithKid(t, |t.kids|, s), WithTree(gt, |t.kids|, r, h))
    {
      h := g;
      if addThis.kind == Document {
        return null, h;
      }
      r, h := CopyEnd(addThis, s, g, t, gt);
    }

    method InsertBeforeChild(beforeThis: Node?, addThis: Node, ghost i: nat, ghost s: Shape, ghost g: Region,
                             ghost t: Shape, ghost gt: Region)
      returns (r: Node?, ghost h: Region)
      requires Valid() && Child(beforeThis, i) && addThis.Tree(s, g)
      modifies this`firstChild, this`lastChild, this`kids, Only(beforeThis)`prev, Before(beforeThis)`next
      ensures Valid()
      ensures beforeThis !in old(kids) || addThis.kind == Document ==> r == null && kids == old(kids)
      ensures beforeThis in old(kids) && addThis.kind != Document ==>
                r != null && fresh(r) && kids == Inserted(old(kids), i, r)
      ensures r != null ==> r.Tree(s, h) && fresh(h.under)
      ensures old(Tree(t, gt)) ==>
                if r == null then Tree(t, gt) else Tree(WithKid(t, i, s), WithTree(gt, i, r, h))
    {
      h := g;
      assert beforeThis in kids ==> Linked(i);
      if beforeThis == null || beforeThis.parent != this {
        return null, h;
      }
      if addThis.kind == Document {
        return null, h;
      }
      r, h := CopyBefore(beforeThis, addThis, i, s, g, t, gt);
    }

    method CopyBefore(beforeThis: Node, addThis: Node, ghost i: nat, ghost s: Shape, ghost g: Region, ghost t: Shape,
                      ghost gt: Region)
      returns (r: Node, ghost h: Region)
      requires Valid() && i < |kids| && kids[i] == beforeThis && addThis.Tree(s, g) && addThis.kind != Document
      modifies this`firstChild, this`lastChild, this`kids, beforeThis`prev, Before(beforeThis)`next
      ensures Valid() && fresh(r) && fresh(h.under) && kids == Inserted(old(kids), i, r) && r.Tree(s, h)
      ensures old(Tree(t, gt)) ==> Tree(WithKid(t, i, s), WithTree(gt, i, r, h))
    {
      ghost var ks, tree := kids, Tree(t, gt);
      r, h := addThis.Clone(s, g);
      ghost var still := Tree(t, gt);
      assert tree ==> still;
      AdoptBefore(beforeThis, r, i, s, h, t, gt);
      if tree {
        TreeInserted(t, gt, ks, i, r, s, h);
      }
    }

    method AdoptBefore(beforeThis: Node, node: Node, ghost i: nat, ghost s: Shape, ghost h: Region, ghost t: Shape,
                       ghost gt: Region)
      requires Valid() && i < |kids| && kids[i] == beforeThis
      requires node.Tree(s, h) && node.kind != Document && Strange(node, h, gt)
      modifies this`firstChild, this`lastChild, this`kids, beforeThis`prev, Before(beforeThis)`next
      modifies node`parent, node`prev, node`next
      ensures Valid() && kids == Inserted(old(kids), i, node) && node.Tree(s, h)
      ensures old(Tree(t, gt)) ==> Bears(t, gt, old(kids))
    {
      ghost var ks, tree := kids, Tree(t, gt);
      assert Linked(i);
      assert Before(beforeThis) <= set k | k in ks;
      if tree {
        Ready(t, gt);
      }
      PutBefore(beforeThis, node, i);
      ghost var still, kept := node.Tree(s, h), tree ==> Bears(t, gt, ks);
      assert still && kept;
    }

    method PutBefore(beforeThis: Node, node: Node, ghost i: nat)
      requires Valid() && i < |kids| && kids[i] == beforeThis && node != this && node !in kids
      modifies this`firstChild, this`lastChild, this`kids, beforeThis`prev, Before(beforeThis)`next
      modifies node`parent, node`prev, node`next
      ensures Valid() && kids == Inserted(old(kids), i, node)
    {
      assert Linked(i);
      node.parent := this;
      node.next, node.prev := beforeThis, beforeThis.prev;
      if beforeThis.prev != null {
        assert beforeThis.prev == kids[i - 1];
        beforeThis.prev.next := node;
      } else {
        firstChild := node;
      }
      beforeThis.prev := node;
      kids := Inserted(kids, i, node);
      forall k | 0 <= k < |kids|
        ensures Linked(k)
      {
        if k != i {
          var x := if k < i then k else k - 1;
          assert old(Linked(x)) && kids[k] == old(kids[x]);
        }
      }
    }

    method InsertAfterChild(afterThis: Node?, addThis: Node, ghost i: nat, ghost s: Shape, ghost g: Region,
                            ghost t: Shape, ghost gt: Region)
      returns (r: Node?, ghost h: Region)
      requires Valid() && Child(afterThis, i) && addThis.Tree(s, g)
      modifies this`firstChild, this`lastChild, this`kids, Only(afterThis)`next, After(afterThis)`prev
      ensures Valid()
      ensures afterThis !in old(kids) || addThis.kind == Document ==> r == null && kids == old(kids)
      ensures afterThis in old(kids) && addThis.kind != Document ==>
                r != null && fresh(r) && kids == Inserted(old(kids), i + 1, r)
      ensures r != null ==> r.Tree(s, h) && fresh(h.under)
      ensures old(Tree(t, gt)) ==>
                if r == null then Tree(t, gt) else Tree(WithKid(t, i + 1, s), WithTree(gt, i + 1, r, h))
    {
      h := g;
      assert afterThis in kids ==> Linked(i);
      if afterThis == null || afterThis.parent != this {
        return null, h;
      }
      if addThis.kind == Document {
        return null, h;
      }
      r, h := CopyAfter(afterThis, addThis, i, s, g, t, gt);
    }

    method CopyAfter(afterThis: Node, addThis: Node, ghost i: nat, ghost s: Shape, ghost g: Region, ghost t: Shape,
                     ghost gt: Region)
      returns (r: Node, ghost h: Region)
      requires Valid() && i < |kids| && kids[i] == afterThis && addThis.Tree(s, g) && addThis.kind != Document
      modifies this`firstChild, this`lastChild, this`kids, afterThis`next, After(afterThis)`prev
      ensures Valid() && fresh(r) && fresh(h.under) && kids == Inserted(old(kids), i + 1, r) && r.Tree(s, h)
      ensures old(Tree(t, gt)) ==> Tree(WithKid(t, i + 1, s), WithTree(gt, i + 1, r, h))
    {
      ghost var ks, tree := kids, Tree(t, gt);
      r, h := addThis.Clone(s, g);
      ghost var still := Tree(t, gt);
      assert tree ==> still;
      AdoptAfter(afterThis, r, i, s, h, t, gt);
      if tree {
        TreeInserted(t, gt, ks, i + 1, r, s, h);
      }
    }

    method AdoptAfter(afterThis: Node, node: Node, ghost i: nat, ghost s: Shape, ghost h: Region, ghost t: Shape,
                      ghost gt: Region)
      requires Valid() && i < |kids| && kids[i] == afterThis
      requires node.Tree(s, h) && node.kind != Document && Strange(node, h, gt)
      modifies this`firstChild, this`lastChild, this`kids, afterThis`next, After(afterThis)`prev
      modifies node`parent, node`prev, node`next
      ensures Valid() && kids == Inserted(old(kids), i + 1, node) && node.Tree(s, h)
      ensures old(Tree(t, gt)) ==> Bears(t, gt, old(kids))
    {
      ghost var ks, tree := kids, Tree(t, gt);
      assert Linked(i);
      assert After(afterThis) <= set k | k in ks;
      if tree {
        Ready(t, gt);
      }
      PutAfter(afterThis, node, i);
      ghost var still, kept := node.Tree(s, h), tree ==> Bears(t, gt, ks);
      assert still && kept;
    }

    method PutAfter(afterThis: Node, node: Node, ghost i: nat)
      requires Valid() && i < |kids| && kids[i] == afterThis && node != this && node !in kids
      modifies this`firstChild, this`lastChild, this`kids, afterThis`next, After(afterThis)`prev
      modifies node`parent, node`prev, node`next
      ensures Valid() && kids == Inserted(old(kids), i + 1, node)
    {
      assert Linked(i);
      node.parent := this;
      node.prev, node.next := afterThis, afterThis.next;
      if afterThis.next != null {
        assert afterThis.next == kids[i + 1];
        afterThis.next.prev := node;
      } else {
        lastChild := node;
      }
      afterThis.next := node;
      kids := Inserted(kids, i + 1, node);
      forall k | 0 <= k < |kids|
        ensures Linked(k)
      {
        if k != i + 1 {
          var x := if k <= i then k else k - 1;
          assert old(Linked(x)) && kids[k] == old(kids[x]);
        }
      }
    }

    /** The replaced node is deleted. Unlike the others this one does not refuse a document, and then the result is no
        tree. */
    method ReplaceChild(replaceThis: Node, withThis: Node, ghost i: nat, ghost s: Shape, ghost g: Region,
                        ghost t: Shape, ghost gt: Region)
      returns (r: Node?, ghost h: Region)
      requires Valid() && Child(replaceThis, i) && withThis.Tree(s, g)
      modifies this`firstChild, this`lastChild, this`kids, Before(replaceThis)`next, After(replaceThis)`prev
      ensures Valid()
      ensures replaceThis !in old(kids) ==> r == null && kids == old(kids)
      ensures replaceThis in old(kids) ==> r != null && fresh(r) && kids == old(kids)[i := r]
      ensures r != null ==> r.Tree(s, h) && fresh(h.under)
      ensures old(Tree(t, gt)) && r == null ==> Tree(t, gt)
      ensures old(Tree(t, gt)) && r != null && withThis.kind != Document ==>
                Tree(t.(kids := t.kids[i := s]), WithTree(WithoutTree(gt, i, replaceThis), i, r, h))
      ensures r != null && withThis.kind == Document ==> forall t, g :: !Tree(t, g)
    {
      h := g;
      assert replaceThis in kids ==> Linked(i);
      if replaceThis.parent != this {
        return null, h;
      }
      r, h := CopyInstead(replaceThis, withThis, i, s, g, t, gt);
      assert kids[i] == r;
      forall t, g | Tree(t, g)
        ensures r.kind != Document
      {
        NoDocumentBelow(t, g, r);
      }
    }

    lemma NoDocumentBelow(t: Shape, g: Region, k: Node)
      requires Tree(t, g) && k in kids
      ensures k.kind != Document
    {
      assert forall i | 0 <= i < |kids| :: Grows(kids[i], t.kids[i], g.kids[i]);
    }

    method CopyInstead(replaceThis: Node, withThis: Node, ghost i: nat, ghost s: Shape, ghost g: Region,
                       ghost t: Shape, ghost gt: Region)
      returns (r: Node, ghost h: Region)
      requires Valid() && i < |kids| && kids[i] == replaceThis && withThis.Tree(s, g)
      modifies this`firstChild, this`lastChild, this`kids, Before(replaceThis)`next, After(replaceThis)`prev
      ensures Valid() && fresh(r) && fresh(h.under) && kids == old(kids)[i := r] && r.Tree(s, h)
      ensures old(Tree(t, gt)) && withThis.kind != Document ==>
                Tree(t.(kids := t.kids[i := s]), WithTree(WithoutTree(gt, i, replaceThis), i, r, h))
    {
      ghost var ks, tree := kids, Tree(t, gt) && withThis.kind != Document;
      r, h := withThis.Clone(s, g);
      ghost var still := Tree(t, gt);
      assert tree ==> still;
      AdoptInstead(replaceThis, r, i, s, h, t, gt);
      if tree {
        TreeReplaced(t, gt, ks, i, r, s, h);
      }
    }

    method AdoptInstead(replaceThis: Node, node: Node, ghost i: nat, ghost s: Shape, ghost h: Region, ghost t: Shape,
                        ghost gt: Region)
      requires Valid() && i < |kids| && kids[i] == replaceThis
      requires node.Tree(s, h) && Strange(node, h, gt)
      modifies this`firstChild, this`lastChild, this`kids, Before(replaceThis)`next, After(replaceThis)`prev
      modifies node`parent, node`prev, node`next
      ensures Valid() && kids == old(kids)[i := node] && node.Tree(s, h)
      ensures old(Tree(t, gt)) ==> Bears(t, gt, old(kids))
    {
      ghost var ks, tree := kids, Tree(t, gt);
      assert Linked(i);
      assert Before(replaceThis) + After(replaceThis) <= set k | k in ks;
      if tree {
        Ready(t, gt);
      }
      PutInstead(replaceThis, node, i);
      ghost var still, kept := node.Tree(s, h), tree ==> Bears(t, gt, ks);
      assert still && kept;
    }

    method PutInstead(replaceThis: Node, node: Node, ghost i: nat)
      requires Valid() && i < |kids| && kids[i] == replaceThis && node != this && node !in kids
      modifies this`firstChild, this`lastChild, this`kids, Before(replaceThis)`next, After(replaceThis)`prev
      modifies node`parent, node`prev, node`next
      ensures Valid() && kids == old(kids)[i := node]
    {
      assert Linked(i);
      node.next, node.prev := replaceThis.next, replaceThis.prev;
      if replaceThis.next != null {
        assert replaceThis.next == kids[i + 1];
        replaceThis.next.prev := node;
      } else {
        lastChild := node;
      }
      if replaceThis.prev != null {
        assert replaceThis.prev == kids[i - 1];
        replaceThis.prev.next := node;
      } else {
        firstChild := node;
      }
      node.parent := this;
      kids := kids[i := node];
      forall k | 0 <= k < |kids| ensures Linked(k) {
        assert old(Linked(k));
      }
    }

    /** The removed node is deleted. */
    method RemoveChild(removeThis: Node, ghost i: nat, ghost t: Shape, ghost gt: Region) returns (ok: bool)
      requires Valid() && Child(removeThis, i)
      modifies this`firstChild, this`lastChild, this`kids, Before(removeThis)`next, After(removeThis)`prev
      ensures Valid()
      ensures ok == (removeThis in old(kids))
      ensures kids == if ok then Removed(old(kids), i) else old(kids)
      ensures old(Tree(t, gt)) ==> if ok then Tree(WithoutKid(t, i), WithoutTree(gt, i, removeThis)) else Tree(t, gt)
    {
      assert removeThis in kids ==> Linked(i);
      if removeThis.parent != this {
        return false;
      }
      ghost var ks, tree := kids, Tree(t, gt);
      CutOff(removeThis, i, t, gt);
      if tree {
        BearsRemoved(t, gt, ks, i);
      }
      ok := true;
    }

    method CutOff(removeThis: Node, ghost i: nat, ghost t: Shape, ghost gt: Region)
      requires Valid() && i < |kids| && kids[i] == removeThis
      modifies this`firstChild, this`lastChild, this`kids, Before(removeThis)`next, After(removeThis)`prev
      ensures Valid() && kids == Removed(old(kids), i)
      ensures old(Tree(t, gt)) ==> Bears(t, gt, old(kids))
    {
      ghost var ks, tree := kids, Tree(t, gt);
      assert Linked(i);
      assert Before(removeThis) + After(removeThis) <= set k | k in ks;
      if tree {
        Ready(t, gt);
      }
      TakeOut(removeThis, i);
      ghost var kept := tree ==> Bears(t, gt, ks);
      assert kept;
    }

    method TakeOut(removeThis: Node, ghost i: nat)
      requires Valid() && i < |kids| && kids[i] == removeThis
      modifies this`firstChild, this`lastChild, this`kids, Before(removeThis)`next, After(removeThis)`prev
      ensures Valid() && kids == Removed(old(kids), i)
    {
      assert Linked(i);
      if removeThis.next != null {
        assert removeThis.next == kids[i + 1];
        removeThis.next.prev := removeThis.prev;
      } else {
        lastChild := removeThis.prev;
      }
      if removeThis.prev != null {
        assert removeThis.prev == kids[i - 1];
        removeThis.prev.next := removeThis.next;
      } else {
        firstChild := removeThis.next;
      }
      kids := Removed(kids, i);
      forall k | 0 <= k < |kids| ensures Linked(k) {
        assert old(Linked(if k < i then k else k + 1));
      }
    }

    method Clear(ghost t: Shape, ghost gt: Region)
      requires Valid()
      modifies this`firstChild, this`lastChild, this`kids
      ensures Valid() && kids == []
      ensures old(Tree(t, gt)) ==> Tree(t.(kids := []), Region({}, []))
    {
      firstChild, lastChild := null, null;
      kids := [];
    }

    // ----- walking -----

    /** The first child of that value, found from the front. */
    method FirstChildOf(name: string) returns (r: Node?)
      requires Valid()
      ensures r == null ==> forall k | k in kids :: k.value != name
      ensures r != null ==>
                exists i | 0 <= i < |kids| ::
                  r == kids[i] && r.value == name && forall j | 0 <= j < i :: kids[j].value != name
    {
      r := firstChild;
      ghost var i := 0;
      while r != null
        invariant 0 <= i <= |kids| && r == At(i)
        invariant forall j | 0 <= j < i :: kids[j].value != name
        decreases |kids| - i
      {
        if r.value == name {
          return;
        }
        assert Linked(i);
        r := r.next;
        i := i + 1;
      }
    }

    /** The last child of that value, found from the back. */
    method LastChildOf(name: string) returns (r: Node?)
      requires Valid()
      ensures r == null ==> forall k | k in kids :: k.value != name
      ensures r != null ==>
                exists i | 0 <= i < |kids| ::
                  r == kids[i] && r.value == name && forall j | i < j < |kids| :: kids[j].value != name
    {
      r := lastChild;
      ghost var i := |kids| - 1;
      while r != null
        invariant -1 <= i < |kids| && r == At(i)
        invariant forall j | i < j < |kids| :: kids[j].value != name
        decreases i
      {
        if r.value == name {
          return;
        }
        assert Linked(i);
        r := r.prev;
        i := i - 1;
      }
    }
  }
}
