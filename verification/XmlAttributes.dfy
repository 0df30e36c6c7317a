/** The attributes of an element: a circular doubly linked list through a sentinel, acting as a map in
    insertion order. */
module XmlAttributes {
  import opened CStrings

  datatype Pair = Pair(name: string, value: string)

  // ----- ordered maps -----

  ghost predicate Unique(c: seq<Pair>) {
    forall i, j | 0 <= i < j < |c| :: c[i].name != c[j].name
  }

  /** Where the name stands, or the length. */
  function IndexOf(c: seq<Pair>, name: string): (i: nat)
    ensures i <= |c|
    ensures i < |c| ==> c[i].name == name
    ensures forall k | 0 <= k < i :: c[k].name != name
  {
    if c == [] || c[0].name == name then 0 else 1 + IndexOf(c[1..], name)
  }

  function Lookup(c: seq<Pair>, name: string): Option<string> {
    var i := IndexOf(c, name);
    if i < |c| then Some(c[i].value) else None
  }

  /** SetAttribute: a new value in the old place, or a new pair at the end. */
  function SetIn(c: seq<Pair>, name: string, value: string): seq<Pair> {
    var i := IndexOf(c, name);
    if i < |c| then c[i := Pair(name, value)] else c + [Pair(name, value)]
  }

  function RemoveIn(c: seq<Pair>, name: string): seq<Pair> {
    var i := IndexOf(c, name);
    if i < |c| then c[..i] + c[i + 1..] else c
  }

  lemma IndexIs(c: seq<Pair>, name: string, i: nat)
    requires i <= |c| && (forall k | 0 <= k < i :: c[k].name != name)
    requires i == |c| || c[i].name == name
    ensures IndexOf(c, name) == i
  {
    var j := IndexOf(c, name);
    assert !(j < i) && !(i < j);
  }

  lemma LookupIs(c: seq<Pair>, i: nat)
    requires Unique(c) && i < |c|
    ensures Lookup(c, c[i].name) == Some(c[i].value)
  {
    IndexIs(c, c[i].name, i);
  }

  lemma LookupNone(c: seq<Pair>, name: string)
    requires forall i | 0 <= i < |c| :: c[i].name != name
    ensures Lookup(c, name) == None
  {
  }

  datatype Edit = Set(name: string, value: string) | Remove(name: string)

  function Apply(c: seq<Pair>, e: Edit): seq<Pair> {
    match e
    case Set(n, v) => SetIn(c, n, v)
    case Remove(n) => RemoveIn(c, n)
  }

  /** One edit changes what is found under its own name and nothing else; names stay unique. */
  lemma EditIsMapUpdate(c: seq<Pair>, e: Edit, name: string)
    requires Unique(c)
    ensures Unique(Apply(c, e))
    ensures Lookup(Apply(c, e), name)
         == if name != e.name then Lookup(c, name) else if e.Set? then Some(e.value) else None
  {
    if e.Set? {
      SetIsMapUpdate(c, e.name, e.value, name);
    } else {
      RemoveIsMapUpdate(c, e.name, name);
    }
  }

  lemma SetIsMapUpdate(c: seq<Pair>, changed: string, value: string, name: string)
    requires Unique(c)
    ensures Unique(SetIn(c, changed, value))
    ensures Lookup(SetIn(c, changed, value), name) == if name == changed then Some(value) else Lookup(c, name)
  {
    var d, k, i := SetIn(c, changed, value), IndexOf(c, changed), IndexOf(c, name);
    if name == changed {
      IndexIs(d, name, k);
    } else if i < |c| {
      IndexIs(d, name, i);
    } else {
      LookupNone(d, name);
    }
  }

  lemma RemoveIsMapUpdate(c: seq<Pair>, gone: string, name: string)
    requires Unique(c)
    ensures Unique(RemoveIn(c, gone))
    ensures Lookup(RemoveIn(c, gone), name) == if name == gone then None else Lookup(c, name)
  {
    var d, k, i := RemoveIn(c, gone), IndexOf(c, gone), IndexOf(c, name);
    if k < |c| {
      RemovedUnique(c, k);
      if name == gone || i == |c| {
        LookupNone(d, name);
      } else {
        LookupIs(d, if i < k then i else i - 1);
      }
    }
  }

  lemma RemovedUnique(c: seq<Pair>, k: nat)
    requires Unique(c) && k < |c|
    ensures var d := c[..k] + c[k + 1..];
            Unique(d) && (forall x | 0 <= x < |d| :: d[x] == c[if x < k then x else x + 1])
            && (forall x | 0 <= x < |d| :: d[x].name != c[k].name)
  {
    var d := c[..k] + c[k + 1..];
    assert forall x | 0 <= x < |d| :: d[x] == c[if x < k then x else x + 1];
  }

  /** The names keep their order: an overwriting keeps every place, a removal closes the gap. */
  lemma EditKeepsOrder(c: seq<Pair>, e: Edit)
    requires Unique(c)
    ensures Names(Apply(c, e))
         == if e.Set? then (if e.name in Names(c) then Names(c) else Names(c) + [e.name])
            else Without(Names(c), e.name)
  {
    var i := IndexOf(c, e.name);
    if i < |c| {
      assert Names(c)[i] == e.name;
      if e.Remove? {
        WithoutOne(Names(c), e.name, i);
        assert Names(Apply(c, e)) == Names(c)[..i] + Names(c)[i + 1..];
      } else {
        assert Names(Apply(c, e)) == Names(c);
      }
    } else {
      if e.Remove? {
        WithoutNone(Names(c), e.name);
      } else {
        assert Names(Apply(c, e)) == Names(c) + [e.name];
      }
    }
  }

  function Names(c: seq<Pair>): seq<string> {
    seq(|c|, i requires 0 <= i < |c| => c[i].name)
  }

  function Without(names: seq<string>, name: string): seq<string> {
    if names == [] then []
    else if names[0] == name then Without(names[1..], name)
    else [names[0]] + Without(names[1..], name)
  }

  lemma {:induction false} WithoutNone(names: seq<string>, name: string)
    requires name !in names
    ensures Without(names, name) == names
  {
    if names != [] {
      assert names[0] in names && name !in names[1..];
      WithoutNone(names[1..], name);
      assert names == [names[0]] + names[1..];
    }
  }

  lemma {:induction false} WithoutOne(names: seq<string>, name: string, i: nat)
    requires i < |names| && names[i] == name && (forall k | 0 <= k < |names| && k != i :: names[k] != name)
    ensures Without(names, name) == names[..i] + names[i + 1..]
  {
    if i == 0 {
      WithoutNone(names[1..], name);
    } else {
      WithoutOne(names[1..], name, i - 1);
      assert names[..i] + names[i + 1..] == [names[0]] + (names[1..][..i - 1] + names[1..][i..]);
    }
  }

  function Run(c: seq<Pair>, edits: seq<Edit>): seq<Pair>
    decreases |edits|
  {
    if edits == [] then c else Run(Apply(c, edits[0]), edits[1..])
  }

  /** What the last edit of that name left, if anything. */
  function Latest(edits: seq<Edit>, name: string): Option<string> {
    if edits == [] then None
    else
      var e := edits[|edits| - 1];
      if e.name != name then Latest(edits[..|edits| - 1], name) else if e.Set? then Some(e.value) else None
  }

  lemma {:induction false} RunSnoc(c: seq<Pair>, edits: seq<Edit>, e: Edit)
    ensures Run(c, edits + [e]) == Apply(Run(c, edits), e)
    decreases |edits|
  {
    if edits == [] {
      assert ([] + [e])[1..] == [];
    } else {
      assert (edits + [e])[1..] == edits[1..] + [e];
      RunSnoc(Apply(c, edits[0]), edits[1..], e);
    }
  }

  /** After any run from the empty set, each name is there once and finds the value set last. */
  lemma {:induction false} RunIsAMap(edits: seq<Edit>, name: string)
    ensures Unique(Run([], edits)) && Lookup(Run([], edits), name) == Latest(edits, name)
    decreases |edits|
  {
    if edits != [] {
      var before, e := edits[..|edits| - 1], edits[|edits| - 1];
      assert before + [e] == edits;
      RunIsAMap(before, name);
      RunSnoc([], before, e);
      EditIsMapUpdate(Run([], before), e, name);
    }
  }

  // ----- the list -----

  class Attribute {
    var name: string
    var value: string
    var prev: Attribute?
    var next: Attribute?

    constructor (name: string, value: string)
      ensures this.name == name && this.value == value
    {
      this.name, this.value, prev, next := name, value, null, null;
    }
  }

  class AttributeSet {
    const sentinel: Attribute
    ghost var nodes: seq<Attribute>

    constructor ()
      ensures Valid() && nodes == [] && fresh(sentinel)
    {
      sentinel := new Attribute("", "");
      nodes := [];
      new;
      sentinel.next, sentinel.prev := sentinel, sentinel;
    }

    /** The ring: the sentinel stands before the first and after the last. */
    ghost function At(i: int): Attribute
      reads this
    {
      if 0 <= i < |nodes| then nodes[i] else sentinel
    }

    ghost predicate Linked(i: int)
      reads this, sentinel, nodes
    {
      At(i).next == At(i + 1) && At(i).prev == if i == -1 then At(|nodes| - 1) else At(i - 1)
    }

    ghost predicate Valid()
      reads this, sentinel, nodes
    {
      && sentinel !in nodes && sentinel.name == "" && sentinel.value == ""
      && (forall i, j | 0 <= i < j < |nodes| :: nodes[i] != nodes[j])
      && (forall i | -1 <= i < |nodes| :: Linked(i))
      && Unique(Contents())
    }

    ghost function Contents(): seq<Pair>
      reads this, nodes
    {
      seq(|nodes|, i requires 0 <= i < |nodes| reads this, nodes => Pair(nodes[i].name, nodes[i].value))
    }

    method Find(name: string) returns (r: Attribute?)
      requires Valid()
      ensures r == if IndexOf(Contents(), name) < |nodes| then nodes[IndexOf(Contents(), name)] else null
    {
      assert Linked(-1);
      var node := sentinel.next;
      ghost var i := 0;
      while node != sentinel
        invariant 0 <= i <= |nodes| && node == At(i)
        invariant forall k | 0 <= k < i :: Contents()[k].name != name
        decreases |nodes| - i
      {
        if node.name == name {
          IndexIs(Contents(), name, i);
          return node;
        }
        assert Linked(i);
        node := node.next;
        i := i + 1;
      }
      assert i == |nodes|;
      r := null;
    }

    method Add(addMe: Attribute)
      requires Valid() && addMe != sentinel && addMe !in nodes
      requires IndexOf(Contents(), addMe.name) == |nodes|
      modifies this`nodes, addMe`prev, addMe`next, sentinel`prev, At(|nodes| - 1)`next
      ensures Valid() && nodes == old(nodes) + [addMe]
      ensures Contents() == old(Contents()) + [Pair(addMe.name, addMe.value)]
    {
      assert Linked(-1);
      addMe.next, addMe.prev := sentinel, sentinel.prev;
      sentinel.prev.next := addMe;
      sentinel.prev := addMe;
      nodes := nodes + [addMe];
      forall i | -1 <= i < |nodes| ensures Linked(i) {
        assert i < old(|nodes|) ==> old(Linked(i));
      }
      assert Contents() == old(Contents()) + [Pair(addMe.name, addMe.value)];
    }

    /** It looks for the node before unlinking it. */
    method Remove(removeMe: Attribute)
      requires Valid() && removeMe in nodes
      modifies this`nodes, sentinel`prev, sentinel`next, nodes`prev, nodes`next
      ensures Valid() && removeMe !in nodes
      ensures Contents() == RemoveIn(old(Contents()), old(removeMe.name))
    {
      ghost var i := Seek(removeMe);
      IndexIs(Contents(), removeMe.name, i);
      RemoveIsMapUpdate(Contents(), removeMe.name, "");
      Unlink(removeMe, i);
    }

    method Seek(removeMe: Attribute) returns (ghost i: nat)
      requires Valid() && removeMe in nodes
      ensures i < |nodes| && nodes[i] == removeMe && Contents()[i].name == removeMe.name
      ensures forall k | 0 <= k < i :: Contents()[k].name != removeMe.name
    {
      assert Linked(-1);
      var node := sentinel.next;
      i := 0;
      while node != removeMe
        invariant 0 <= i < |nodes| && node == At(i) && forall k | 0 <= k < i :: nodes[k] != removeMe
        decreases |nodes| - i
      {
        assert Linked(i);
        node := node.next;
        i := i + 1;
      }
      assert Contents()[i].name == removeMe.name;
    }

    method Unlink(node: Attribute, ghost i: nat)
      requires Valid() && i < |nodes| && nodes[i] == node && Unique(Contents()[..i] + Contents()[i + 1..])
      modifies this`nodes, sentinel`prev, sentinel`next, nodes`prev, nodes`next
      ensures Valid() && nodes == old(nodes)[..i] + old(nodes)[i + 1..]
      ensures Contents() == old(Contents())[..i] + old(Contents())[i + 1..]
    {
      assert Linked(i);
      node.prev.next := node.next;
      node.next.prev := node.prev;
      node.next, node.prev := null, null;
      nodes := nodes[..i] + nodes[i + 1..];
      forall k | -1 <= k < |nodes| ensures Linked(k) {
        assert old(Linked(if k < i then k else k + 1));
      }
      assert Contents() == old(Contents())[..i] + old(Contents())[i + 1..];
    }

    /** TiXmlElement::SetAttribute. */
    method SetAttribute(name: string, value: string)
      requires Valid()
      modifies this`nodes, sentinel`prev, At(|nodes| - 1)`next, nodes`value
      ensures Valid() && Contents() == SetIn(old(Contents()), name, value)
    {
      var node := Find(name);
      EditIsMapUpdate(Contents(), Set(name, value), name);
      if node != null {
        Overwrite(node, value, IndexOf(Contents(), name));
        return;
      }
      var attrib := new Attribute(name, value);
      Add(attrib);
    }

    method Overwrite(node: Attribute, value: string, ghost i: nat)
      requires Valid() && i < |nodes| && nodes[i] == node && Unique(Contents()[i := Pair(node.name, value)])
      modifies node`value
      ensures Valid() && Contents() == old(Contents())[i := Pair(node.name, value)]
    {
      node.value := value;
      assert Contents() == old(Contents())[i := Pair(node.name, value)];
      forall k | -1 <= k < |nodes| ensures Linked(k) {
        assert old(Linked(k));
      }
    }

    /** TiXmlElement::RemoveAttribute. */
    method RemoveAttribute(name: string)
      requires Valid()
      modifies this`nodes, sentinel`prev, sentinel`next, nodes`prev, nodes`next
      ensures Valid() && Contents() == RemoveIn(old(Contents()), name)
    {
      var node := Find(name);
      if node != null {
        Remove(node);
      }
    }

    /** TiXmlAttribute::Next: an attribute with an empty name and an empty value passes for the sentinel. */
    method Next(node: Attribute, ghost i: nat) returns (r: Attribute?)
      requires Valid() && i < |nodes| && node == nodes[i]
      ensures r == if Ends(Contents(), i) then null else nodes[i + 1]
      ensures Contents()[i] == Pair(node.name, node.value)
    {
      assert Linked(i);
      r := if node.next.name == "" && node.next.value == "" then null else node.next;
    }

    /** The walk by First and Next that the printer makes. */
    method List() returns (shown: seq<Pair>)
      requires Valid()
      ensures shown == Shown(Contents())
    {
      shown := [];
      var node: Attribute? := First();
      if node == null {
        return;
      }
      ghost var i, c := 0, Contents();
      while node != null
        invariant i <= |c| && (node != null ==> i < |c| && node == nodes[i])
        invariant node != null ==> Shown(c) == shown + From(c, i)
        invariant node == null ==> Shown(c) == shown
        decreases |nodes| - i, node
      {
        StopNext(c, i, shown);
        var next := Next(node, i);
        shown := shown + [Pair(node.name, node.value)];
        node, i := next, i + 1;
      }
    }

    method First() returns (r: Attribute?)
      requires Valid()
      ensures r == if nodes == [] then null else nodes[0]
    {
      assert Linked(-1);
      r := if sentinel.next == sentinel then null else sentinel.next;
    }
  }

  predicate Ends(c: seq<Pair>, i: nat) {
    i + 1 >= |c| || c[i + 1] == Pair("", "")
  }

  /** Where a walk that has reached i stops. */
  function Stop(c: seq<Pair>, i: nat): (n: nat)
    requires i < |c|
    ensures i < n <= |c|
    decreases |c| - i
  {
    if Ends(c, i) then i + 1 else Stop(c, i + 1)
  }

  function Shown(c: seq<Pair>): seq<Pair> {
    if c == [] then [] else From(c, 0)
  }

  function From(c: seq<Pair>, i: nat): seq<Pair>
    requires i < |c|
  {
    c[i..Stop(c, i)]
  }

  lemma StopNext(c: seq<Pair>, i: nat, shown: seq<Pair>)
    requires i < |c|
    ensures shown + From(c, i) == (shown + [c[i]]) + if Ends(c, i) then [] else From(c, i + 1)
  {
    assert From(c, i) == [c[i]] + if Ends(c, i) then [] else From(c, i + 1);
  }

  lemma {:induction false} StopMeans(c: seq<Pair>, i: nat)
    requires i < |c|
    ensures Stop(c, i) == |c| || c[Stop(c, i)] == Pair("", "")
    ensures forall k | i < k < Stop(c, i) :: c[k] != Pair("", "")
    decreases |c| - i
  {
    if !Ends(c, i) {
      StopMeans(c, i + 1);
    }
  }

  /** It sees every attribute exactly when none after the first is empty in both. */
  lemma ShowsAllExactly(c: seq<Pair>)
    ensures Shown(c) == c <==> forall k | 1 <= k < |c| :: c[k] != Pair("", "")
  {
    if c != [] {
      StopMeans(c, 0);
      if Shown(c) == c {
        assert Stop(c, 0) == |c|;
      }
    }
  }
}
