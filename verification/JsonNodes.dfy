/** The linked nodes of cJSON: what the reader builds and the printers walk over. */
module JsonNodes {
  import opened Json

  datatype Kind = KFalse | KTrue | KNull | KNumber | KString | KArray | KObject

  /** A cJSON node. `value` and `under` say what its own subtree (not its siblings) stands for and occupies. */
  class Item {
    var kind: Kind
    var valuestring: string
    var valuedouble: real
    var name: string
    var child: Item?
    var next: Item?
    var prev: Item?
    ghost var value: Json
    ghost var under: set<Item>

    constructor ()
      ensures child == null && next == null && prev == null
    {
      kind, valuestring, valuedouble, name := KFalse, "", 0.0, "";
      child, next, prev := null, null, null;
      value, under := Null, {};
    }

    /** The node and the nodes under it represent `value`. */
    ghost predicate Represents()
      reads this, under
      decreases value, 1
    {
      match value
      case Null => kind == KNull
      case Bool(b) => kind == if b then KTrue else KFalse
      case Number(d) => kind == KNumber && valuedouble == d
      case String(text) => kind == KString && valuestring == text
      case Array(items) => kind == KArray && this !in under && ItemChain(child, null, items, under)
      case Object(members) => kind == KObject && this !in under && MemberChain(child, null, members, under)
    }
  }

  /** A chain of siblings inside s for the elements of an array: each `prev` is the node before, and the last `next`
      is null. */
  ghost predicate ItemChain(c: Item?, prev: Item?, items: Items, s: set<Item>)
    reads s
    decreases items, 2
  {
    if items.NoItems? then c == null
    else
      && c != null && c in s && c.prev == prev && c.value == items.head
      && c !in c.under && c.under <= s && c.Represents()
      && ItemChain(c.next, c, items.next, s - {c} - c.under)
  }

  ghost predicate MemberChain(c: Item?, prev: Item?, ms: Members, s: set<Item>)
    reads s
    decreases ms, 2
  {
    if ms.NoMembers? then c == null
    else
      && c != null && c in s && c.prev == prev && c.name == ms.name && c.value == ms.value
      && c !in c.under && c.under <= s && c.Represents()
      && MemberChain(c.next, c, ms.next, s - {c} - c.under)
  }

  /** A larger set of nodes holds the same chain. */
  lemma {:induction false} ItemChainGrows(c: Item?, prev: Item?, items: Items, s: set<Item>, more: set<Item>)
    requires ItemChain(c, prev, items, s) && s <= more
    ensures ItemChain(c, prev, items, more)
    decreases items
  {
    if items.Item? {
      ItemChainGrows(c.next, c, items.next, s - {c} - c.under, more - {c} - c.under);
    }
  }

  lemma {:induction false} MemberChainGrows(c: Item?, prev: Item?, ms: Members, s: set<Item>, more: set<Item>)
    requires MemberChain(c, prev, ms, s) && s <= more
    ensures MemberChain(c, prev, ms, more)
    decreases ms
  {
    if ms.Member? {
      MemberChainGrows(c.next, c, ms.next, s - {c} - c.under, more - {c} - c.under);
    }
  }
}
