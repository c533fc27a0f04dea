/** The intrusive circular list of `list.c`, and `iobuf_find` over it. A list has a
    sentinel; the nodes hang between the sentinel's `next` and `prev`. */
module HostList {
  import Slots
  import opened Words

  const PAGE_SHIFT: nat := 12
  const GPU_PAGE_SHIFT: nat := 16

  /** What `iobuf_find` looks at in the structure a node is embedded in: the owner of its
      mapping, and the address it starts at. */
  datatype IoBuf = IoBuf(owner: nat, virtAddr: nat)

  /** Where a node is in its list. */
  ghost function IndexOf(nodes: seq<ListNode>, e: ListNode): (k: nat)
    requires e in nodes
    ensures k < |nodes| && nodes[k] == e
  {
    if nodes[0] == e then 0 else 1 + IndexOf(nodes[1..], e)
  }

  ghost function Without(nodes: seq<ListNode>, k: nat): (s: seq<ListNode>)
    requires k < |nodes|
    ensures |s| == |nodes| - 1
  {
    nodes[..k] + nodes[k + 1..]
  }

  lemma WithoutAt(nodes: seq<ListNode>, k: nat)
    requires k < |nodes|
    requires forall i, j | 0 <= i < j < |nodes| :: nodes[i] != nodes[j]
    ensures forall i | 0 <= i < |nodes| - 1 :: Without(nodes, k)[i] == if i < k then nodes[i] else nodes[i + 1]
    ensures nodes[k] !in Without(nodes, k)
  {
    var s := Without(nodes, k);
    forall i | 0 <= i < |s| ensures s[i] == if i < k then nodes[i] else nodes[i + 1] {
    }
  }

  class ListNode {
    var list: List?
    var next: ListNode?
    var prev: ListNode?
    const io: IoBuf

    /** `list_node_init` */
    constructor (io: IoBuf)
      ensures list == null && next == null && prev == null && this.io == io
    {
      this.io := io;
      list, next, prev := null, null, null;
    }
  }

  class List {
    const head: ListNode
    ghost var Nodes: seq<ListNode>

    /** `list_init` */
    constructor ()
      ensures Valid() && Nodes == [] && fresh(head)
    {
      head := new ListNode(IoBuf(0, 0));
      Nodes := [];
      new;
      head.list := this;
      head.prev := head;
      head.next := head;
    }

    ghost predicate Valid()
      reads this, head, Nodes
    {
      Represents(Nodes)
    }

    /** The circle runs from the sentinel through the given nodes and back, both ways. */
    ghost predicate Represents(nodes: seq<ListNode>)
      reads head, nodes
    {
      && (forall i, j | 0 <= i < j < |nodes| :: nodes[i] != nodes[j])
      && (forall i | 0 <= i < |nodes| :: nodes[i] != head && nodes[i].list == this)
      && head.list == this
      && head.next == (if nodes == [] then head else nodes[0])
      && head.prev == (if nodes == [] then head else nodes[|nodes| - 1])
      && (nodes != [] ==> nodes[0].prev == head && nodes[|nodes| - 1].next == head)
      && (forall i {:trigger nodes[i].prev} | 1 <= i < |nodes| :: nodes[i].prev == nodes[i - 1])
      && (forall i {:trigger nodes[i].next} | 0 <= i < |nodes| - 1 :: nodes[i].next == nodes[i + 1])
    }

    /** What comes after and before node k, the sentinel at the ends. */
    ghost function After(nodes: seq<ListNode>, k: nat): ListNode
      requires k < |nodes|
    {
      if k + 1 < |nodes| then nodes[k + 1] else head
    }

    ghost function Before(nodes: seq<ListNode>, k: nat): ListNode
      requires k < |nodes|
    {
      if k > 0 then nodes[k - 1] else head
    }

    /** The circle as it is when node k has been bypassed. */
    ghost predicate Bypasses(nodes: seq<ListNode>, k: nat)
      requires k < |nodes|
      reads head, nodes
    {
      && (forall i, j | 0 <= i < j < |nodes| :: nodes[i] != nodes[j])
      && (forall i | 0 <= i < |nodes| && i != k :: nodes[i] != head && nodes[i].list == this)
      && head.list == this
      && head.next == (if k == 0 then After(nodes, 0) else nodes[0])
      && head.prev == (if k + 1 == |nodes| then Before(nodes, k) else nodes[|nodes| - 1])
      && (forall i {:trigger nodes[i].prev} | 0 <= i < |nodes| && i != k ::
            nodes[i].prev == if i == k + 1 then Before(nodes, k) else Before(nodes, i))
      && (forall i {:trigger nodes[i].next} | 0 <= i < |nodes| && i != k ::
            nodes[i].next == if i + 1 == k then After(nodes, k) else After(nodes, i))
    }

    lemma BypassedLinks(nodes: seq<ListNode>, k: nat)
      requires k < |nodes| && Bypasses(nodes, k)
      ensures var s := Without(nodes, k);
              && (forall i | 0 <= i < |s| :: s[i] != head && s[i].list == this)
              && (forall i {:trigger s[i].prev} | 0 <= i < |s| :: s[i].prev == Before(s, i))
              && (forall i {:trigger s[i].next} | 0 <= i < |s| :: s[i].next == After(s, i))
    {
      var s := Without(nodes, k);
      WithoutAt(nodes, k);
      forall i | 0 <= i < |s|
        ensures s[i] != head && s[i].list == this && s[i].prev == Before(s, i) && s[i].next == After(s, i)
      {
        assert s[i] == nodes[if i < k then i else i + 1];
      }
    }

    lemma WithoutDistinct(nodes: seq<ListNode>, k: nat)
      requires k < |nodes| && forall i, j | 0 <= i < j < |nodes| :: nodes[i] != nodes[j]
      ensures var s := Without(nodes, k);
              forall i, j | 0 <= i < j < |s| :: s[i] != s[j]
    {
      WithoutAt(nodes, k);
    }

    lemma BypassedRepresents(nodes: seq<ListNode>, k: nat)
      requires k < |nodes| && Bypasses(nodes, k)
      ensures Represents(Without(nodes, k))
    {
      WithoutAt(nodes, k);
      WithoutDistinct(nodes, k);
      BypassedLinks(nodes, k);
    }

    /** `list_insert`: despite its comment, at the tail. */
    method Insert(e: ListNode)
      requires Valid() && e !in Nodes && e != head
      modifies this`Nodes, head, Nodes, e
      ensures Valid() && Nodes == old(Nodes) + [e]
    {
      var last := head.prev;
      last.next := e;
      e.list := this;
      e.prev := last;
      e.next := head;
      head.prev := e;
      Nodes := Nodes + [e];
    }

    /** The pointer writes of `list_remove`, for a node that is in a list. */
    method Bypass(e: ListNode, ghost k: nat)
      requires Valid() && k < |Nodes| && Nodes[k] == e
      modifies head, Nodes
      ensures Bypasses(Nodes, k) && e.list == null && e.next == null && e.prev == null
    {
      assert e.prev == Before(Nodes, k) && e.next == After(Nodes, k);
      e.prev.next := e.next;
      e.next.prev := e.prev;
      e.list := null;
      e.next := null;
      e.prev := null;
    }

    method Unlink(e: ListNode)
      requires Valid() && e in Nodes
      modifies this`Nodes, head, Nodes
      ensures Valid() && Nodes == Without(old(Nodes), IndexOf(old(Nodes), e))
      ensures e !in Nodes && e.list == null && e.next == null && e.prev == null
    {
      ghost var k := IndexOf(Nodes, e);
      Bypass(e, k);
      BypassedRepresents(Nodes, k);
      WithoutAt(Nodes, k);
      Nodes := Without(Nodes, k);
    }
  }

  /** `list_next`: from the sentinel the first node, from a node the one after it, and
      null at the end. */
  method ListNext(e: ListNode) returns (r: ListNode?)
    requires e.list != null && e.list.Valid() && (e == e.list.head || e in e.list.Nodes)
    ensures var nodes := e.list.Nodes;
            && (e == e.list.head ==> r == if nodes == [] then null else nodes[0])
            && (e in nodes ==>
                  var k := IndexOf(nodes, e);
                  r == if k + 1 == |nodes| then null else nodes[k + 1])
  {
    ghost var l := e.list;
    assert e in l.Nodes ==> e.next == l.After(l.Nodes, IndexOf(l.Nodes, e));
    if e.next != e.list.head {
      return e.next;
    } else {
      return null;
    }
  }

  /** A node that is in no list, or in a valid one, possibly as its sentinel. */
  ghost predicate Removable(e: ListNode?)
    reads if e == null then {} else {e}
    reads if e == null || e.list == null then {} else {e.list, e.list.head} + (set n | n in e.list.Nodes)
  {
    e != null && e.list != null ==> e.list.Valid() && (e in e.list.Nodes || e == e.list.head)
  }

  /** `list_remove`: takes exactly e out of its list, keeps the order of the others, and
      leaves e in no list. On null, on a sentinel, and on a node that is in no list, so in
      particular the second time, it does nothing. */
  method ListRemove(e: ListNode?)
    requires Removable(e)
    modifies if e != null && e.list != null then {e.list, e.list.head} + (set n | n in e.list.Nodes) else {}
    ensures old(e != null && e.list != null && e != e.list.head) ==>
              var l := old(e.list);
              && l.Valid() && l.Nodes == Without(old(l.Nodes), IndexOf(old(l.Nodes), e))
              && e !in l.Nodes && e.list == null && e.next == null && e.prev == null
    ensures e != null && old(e.list == null || e == e.list.head) ==>
              && e.list == old(e.list) && e.next == old(e.next) && e.prev == old(e.prev)
              && (e.list != null ==> e.list.Valid() && e.list.Nodes == old(e.list.Nodes))
  {
    if e != null && e.list != null && e != e.list.head {
      e.list.Unlink(e);
    }
  }

  /** Removing twice is removing once. */
  method RemoveTwice(e: ListNode)
    requires Removable(e) && e.list != null && e != e.list.head
    modifies {e.list, e.list.head} + (set n | n in e.list.Nodes)
    ensures old(e.list).Valid() && old(e.list).Nodes == Without(old(e.list.Nodes), IndexOf(old(e.list.Nodes), e))
  {
    ListRemove(e);
    ListRemove(e);
  }

  // ---------- the search ----------

  /** `vaddr & ~((1 << shift) - 1)` on words of the given width. */
  function MaskBelow(vaddr: nat, shift: nat, width: nat): nat
    requires shift <= width
  {
    And(vaddr, Shl(Pow2(width - shift) - 1, shift))
  }

  /** The mask is all ones but for the low bits, and masking rounds down to a multiple. */
  lemma MaskRoundsDown(vaddr: nat, shift: nat, width: nat)
    requires shift <= width && vaddr < Pow2(width)
    ensures Shl(Pow2(width - shift) - 1, shift) == Pow2(width) - Pow2(shift)
    ensures MaskBelow(vaddr, shift, width) == vaddr - vaddr % Pow2(shift)
  {
    var high := width - shift;
    var v := Shr(vaddr, shift);
    MaskIsShifted(high, shift);
    AndShl(vaddr, Pow2(high) - 1, shift);
    AndMask(v, high);
    ShrBound(vaddr, shift, high);
    Slots.DivModUnique(v, Pow2(high), 0, v);
    ShiftBack(vaddr, shift);
  }

  lemma ShiftBack(v: nat, n: nat)
    ensures Shl(Shr(v, n), n) == v - v % Pow2(n)
  {
    ShlIsMul(Shr(v, n), n);
    ShrIsDiv(v, n);
  }

  lemma {:induction false} ShrBound(v: nat, n: nat, m: nat)
    requires v < Pow2(n + m)
    ensures Shr(v, n) < Pow2(m)
  {
    if n > 0 {
      ShrBound(v / 2, n - 1, m);
    }
  }

  /** Is this the buffer of the caller that starts at the 4K or the 64K page of vaddr? */
  predicate Wanted(io: IoBuf, current: nat, vaddr: nat) {
    && io.owner == current
    && (io.virtAddr == MaskBelow(vaddr, PAGE_SHIFT, 64) || io.virtAddr == MaskBelow(vaddr, GPU_PAGE_SHIFT, 64))
  }

  /** The masks round to 4096 and to 65536 bytes. */
  lemma WantedIs(io: IoBuf, current: nat, vaddr: u64)
    ensures Wanted(io, current, vaddr)
            <==> io.owner == current && (io.virtAddr == vaddr - vaddr % 0x1000 || io.virtAddr == vaddr - vaddr % 0x1_0000)
  {
    Pow2Values();
    assert Pow2(12) == 0x1000 && Pow2(64) == 0x1_0000_0000_0000_0000 by {
      assert Pow2(40) == 0x100_0000_0000 && Pow2(48) == 0x1_0000_0000_0000;
      assert Pow2(56) == 0x100_0000_0000_0000;
    }
    MaskRoundsDown(vaddr, 12, 64);
    MaskRoundsDown(vaddr, 16, 64);
  }

  /** `iobuf_find`: visits the nodes once each, in order, and returns the first that the
      caller owns and that starts at the 4K or the 64K page of the address, or null when
      there is none. */
  method IobufFind(l: List, current: nat, vaddr: u64) returns (r: ListNode?)
    requires l.Valid()
    ensures r == null <==>
              forall i | 0 <= i < |l.Nodes| ::
                !(var io := l.Nodes[i].io;
                  io.owner == current && (io.virtAddr == vaddr - vaddr % 0x1000 || io.virtAddr == vaddr - vaddr % 0x1_0000))
    ensures r != null ==>
              && r in l.Nodes
              && r.io.owner == current
              && (r.io.virtAddr == vaddr - vaddr % 0x1000 || r.io.virtAddr == vaddr - vaddr % 0x1_0000)
              && forall i | 0 <= i < IndexOf(l.Nodes, r) ::
                   !(var io := l.Nodes[i].io;
                     io.owner == current && (io.virtAddr == vaddr - vaddr % 0x1000 || io.virtAddr == vaddr - vaddr % 0x1_0000))
  {
    var e := ListNext(l.head);
    ghost var k := 0;
    while e != null
      invariant 0 <= k <= |l.Nodes|
      invariant e == if k < |l.Nodes| then l.Nodes[k] else null
      invariant forall i | 0 <= i < k ::
                  !(var io := l.Nodes[i].io;
                    io.owner == current && (io.virtAddr == vaddr - vaddr % 0x1000 || io.virtAddr == vaddr - vaddr % 0x1_0000))
      decreases |l.Nodes| - k
    {
      WantedIs(e.io, current, vaddr);
      if Wanted(e.io, current, vaddr) {
        assert IndexOf(l.Nodes, e) == k;
        return e;
      }
      assert IndexOf(l.Nodes, e) == k;
      e := ListNext(e);
      k := k + 1;
    }
    return null;
  }
}
