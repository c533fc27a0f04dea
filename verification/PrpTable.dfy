/** The PRP table that `create_host_io_buf` builds from the bus addresses of a mapping: one
    page of 512 words for each entry, the first page of the entry in the last word and the
    others from word 0 on. */
module PrpTable {
  import opened Slots
  import opened PageMap

  const WORDS: nat := 512

  /** The word of the table that page j of entry i goes to. */
  function WordOf(i: nat, j: nat): nat {
    i * WORDS + if j == 0 then WORDS - 1 else j - 1
  }

  /** The index in the address array of page j of entry i. */
  function PageOf(i: nat, j: nat, ppe: nat): nat {
    i * ppe + j
  }

  lemma {:induction false} PageInBounds(i: nat, j: nat, ppe: nat, n: nat)
    requires i < n && j < ppe
    ensures PageOf(i, j, ppe) < n * ppe
  {
    MulBounds(n - 1 - i, ppe);
    assert (n - 1 - i) * ppe + i * ppe == (n - 1) * ppe;
    assert (n - 1) * ppe + ppe == n * ppe;
    if n - 1 - i == 0 {
      assert i * ppe == (n - 1) * ppe;
    }
  }

  const TWO64: nat := 0x1_0000_0000_0000_0000

  /** The number of pages that `create_host_io_buf` asks for, in 64-bit arithmetic. */
  function PagesAsked(pageSize: nat, ppe: nat, n: nat): (p: nat)
    ensures p * 0x1000 <= pageSize * ppe * n % 0x1_0000_0000_0000_0000 < (p + 1) * 0x1000
  {
    pageSize * ppe * n % TWO64 / PAGE_SIZE
  }

  /** The mapping has room for every page that the loops read, exactly when the device's
      pages are no smaller than the kernel's, as long as the product does not wrap. */
  lemma EnoughPagesIff(pageSize: nat, ppe: nat, n: nat)
    requires ppe >= 1 && n >= 1 && pageSize * ppe * n < TWO64
    ensures n * ppe <= PagesAsked(pageSize, ppe, n) <==> pageSize >= PAGE_SIZE
  {
    var m := n * ppe;
    MulBounds(n, ppe);
    DivModUnique(pageSize * ppe * n, TWO64, 0, pageSize * ppe * n);
    assert pageSize * ppe * n == pageSize * m;
    if pageSize >= PAGE_SIZE {
      MulBounds(pageSize - PAGE_SIZE, m);
      assert pageSize * m == (pageSize - PAGE_SIZE) * m + PAGE_SIZE * m;
      assert (pageSize - PAGE_SIZE) * m >= 0;
    } else {
      MulBounds(PAGE_SIZE - pageSize, m);
      assert pageSize * m + (PAGE_SIZE - pageSize) * m == PAGE_SIZE * m;
    }
  }

  /** When it does wrap, too few pages may be asked for: 16M pages, 512 an entry, and
      2^31 + 1 entries. */
  lemma WrappedAsksTooFew()
    ensures PagesAsked(0x100_0000, WORDS, 0x8000_0001) == 0x20_0000 < 0x8000_0001 * WORDS
  {
    assert 0x100_0000 * WORDS * 0x8000_0001 == TWO64 + 0x2_0000_0000;
  }

  lemma NoPages(pageSize: nat, ppe: nat, n: nat)
    requires ppe == 0 || n == 0
    ensures PagesAsked(pageSize, ppe, n) == 0
  {
    if ppe == 0 {
      assert pageSize * ppe == 0 && 0 * n == 0;
    }
  }

  /** All words are inside the table, and no two pages share one. */
  ghost predicate Separate(ppe: nat, n: nat) {
    && (forall i: nat, j: nat | i < n && j < ppe :: WordOf(i, j) < n * WORDS)
    && (forall i: nat, j: nat, i': nat, j': nat | i < n && j < ppe && i' < n && j' < ppe && WordOf(i, j) == WordOf(i', j') ::
          i == i' && j == j')
  }

  /** The layout works for up to 512 pages an entry, and no more: page 512 of an entry
      goes to the word of its first page. */
  lemma SeparateIff(ppe: nat, n: nat)
    requires n >= 1
    ensures Separate(ppe, n) <==> ppe <= WORDS
  {
    if ppe > WORDS {
      assert WordOf(0, 0) == WordOf(0, WORDS);
    }
  }

  /** The writes stay inside the table for one page more than that. */
  lemma InBoundsIff(ppe: nat, n: nat)
    requires n >= 1
    ensures (forall i: nat, j: nat | i < n && j < ppe :: WordOf(i, j) < n * WORDS) <==> ppe <= WORDS + 1
  {
    if ppe > WORDS + 1 {
      assert !(WordOf(n - 1, WORDS + 1) < n * WORDS);
    }
  }

  /** The page of an entry that is found where page j was put: page j, but for page 0 of
      an entry of 513 pages, which page 512 has overwritten. */
  function Kept(j: nat, ppe: nat): nat {
    if j == 0 && ppe == WORDS + 1 then WORDS else j
  }

  /** Reading the first e entries back, the first page of each from its last word and page
      j from word j - 1, gives the addresses of the pages kept there. */
  ghost predicate Encodes(table: seq<nat>, addrs: seq<nat>, ppe: nat, e: nat) {
    forall i: nat, j: nat | i < e && j < ppe ::
      && WordOf(i, j) < |table| && PageOf(i, Kept(j, ppe), ppe) < |addrs|
      && table[WordOf(i, j)] == addrs[PageOf(i, Kept(j, ppe), ppe)]
  }

  /** The inner loop: one entry of the table, and no word outside it. */
  method FillEntry(table: array<nat>, addrs: seq<nat>, ppe: nat, i: nat, n: nat)
    requires 1 <= ppe <= WORDS + 1 && i < n && table.Length == n * WORDS && n * ppe <= |addrs|
    modifies table
    ensures forall j: nat | j < ppe ::
              PageOf(i, Kept(j, ppe), ppe) < |addrs| && table[WordOf(i, j)] == addrs[PageOf(i, Kept(j, ppe), ppe)]
    ensures forall w | 0 <= w < table.Length && !(i * WORDS <= w < (i + 1) * WORDS) :: table[w] == old(table[w])
  {
    forall j: nat | j < ppe ensures PageOf(i, j, ppe) < |addrs| {
      PageInBounds(i, j, ppe, n);
    }
    var entry := i * WORDS;
    var first := PageOf(i, 0, ppe);
    table[entry + (WORDS - 1)] := addrs[first];
    var j := 1;
    while j < ppe
      invariant 1 <= j <= ppe && entry == i * WORDS && first == PageOf(i, 0, ppe)
      invariant forall p: nat | p < j :: table[WordOf(i, p)] == addrs[PageOf(i, Kept(p, j), ppe)]
      invariant forall w | 0 <= w < table.Length && !(entry <= w < entry + WORDS) :: table[w] == old(table[w])
    {
      assert PageOf(i, j, ppe) == first + j;
      table[entry + (j - 1)] := addrs[first + j];
      j := j + 1;
    }
  }

  /** A table of n entries, word by word: word w is word w % 512 of entry w / 512. The first
      words of an entry hold its pages from page 1 on, the last one its page 0, unless a
      513th page has taken that place. */
  ghost predicate LaidOut(table: seq<nat>, addrs: seq<nat>, ppe: nat, n: nat) {
    && |table| == n * 512
    && (forall w | 0 <= w < |table| && w % 512 + 1 < ppe ::
          w / 512 * ppe + w % 512 + 1 < |addrs| && table[w] == addrs[w / 512 * ppe + w % 512 + 1])
    && (ppe <= 512 ==>
          forall w | 0 <= w < |table| && w % 512 == 511 ::
            w / 512 * ppe < |addrs| && table[w] == addrs[w / 512 * ppe])
  }

  lemma EncodedIsLaidOut(table: seq<nat>, addrs: seq<nat>, ppe: nat, n: nat)
    requires Encodes(table, addrs, ppe, n) && 1 <= ppe <= 513 && |table| == n * 512
    ensures LaidOut(table, addrs, ppe, n)
  {
    forall w | 0 <= w < |table| && w % 512 + 1 < ppe
      ensures w / 512 * ppe + w % 512 + 1 < |addrs| && table[w] == addrs[w / 512 * ppe + w % 512 + 1]
    {
      var i, j := w / 512, w % 512 + 1;
      assert WordOf(i, j) == w && PageOf(i, Kept(j, ppe), ppe) == i * ppe + j;
    }
    forall w | 0 <= w < |table| && w % 512 == 511 && ppe <= 512
      ensures w / 512 * ppe < |addrs| && table[w] == addrs[w / 512 * ppe]
    {
      assert WordOf(w / 512, 0) == w && PageOf(w / 512, Kept(0, ppe), ppe) == w / 512 * ppe;
    }
  }

  /** The same entry by entry and page by page. */
  lemma LaidOutAt(table: seq<nat>, addrs: seq<nat>, ppe: nat, n: nat, i: nat, j: nat)
    requires LaidOut(table, addrs, ppe, n) && i < n && j < ppe <= 512
    ensures var w := i * 512 + if j == 0 then 511 else j - 1;
            w < |table| && i * ppe + j < |addrs| && table[w] == addrs[i * ppe + j]
  {
    var w := i * 512 + if j == 0 then 511 else j - 1;
    assert w / 512 == i;
  }

  /** Both loops of `create_host_io_buf`. */
  method FillTable(addrs: seq<nat>, ppe: nat, n: nat) returns (table: array<nat>)
    requires 1 <= ppe <= 513 && n * ppe <= |addrs|
    ensures fresh(table) && LaidOut(table[..], addrs, ppe, n)
    ensures Encodes(table[..], addrs, ppe, n)
  {
    table := new nat[n * WORDS](_ => 0);
    var i := 0;
    while i < n
      invariant 0 <= i <= n
      invariant Encodes(table[..], addrs, ppe, i)
    {
      ghost var was := table[..];
      FillEntry(table, addrs, ppe, i, n);
      EntryAdded(was, table[..], addrs, ppe, i);
      i := i + 1;
    }
    EncodedIsLaidOut(table[..], addrs, ppe, n);
  }

  lemma EntryAdded(was: seq<nat>, now: seq<nat>, addrs: seq<nat>, ppe: nat, e: nat)
    requires ppe <= WORDS + 1 && |was| == |now| && (e + 1) * WORDS <= |now| && Encodes(was, addrs, ppe, e)
    requires forall j: nat | j < ppe ::
               PageOf(e, Kept(j, ppe), ppe) < |addrs| && now[WordOf(e, j)] == addrs[PageOf(e, Kept(j, ppe), ppe)]
    requires forall w | 0 <= w < |now| && !(e * WORDS <= w < (e + 1) * WORDS) :: now[w] == was[w]
    ensures Encodes(now, addrs, ppe, e + 1)
  {
    forall i: nat, j: nat | i < e + 1 && j < ppe
      ensures WordOf(i, j) < |now| && PageOf(i, Kept(j, ppe), ppe) < |addrs|
      ensures now[WordOf(i, j)] == addrs[PageOf(i, Kept(j, ppe), ppe)]
    {
      if i < e {
        assert was[WordOf(i, j)] == addrs[PageOf(i, Kept(j, ppe), ppe)];
        assert WordOf(i, j) < e * WORDS;
      }
    }
  }

  /** When the addresses differ, every page of every entry reads back as its own if and only
      if an entry has at most 512 pages. */
  lemma ReadsBackIff(table: seq<nat>, addrs: seq<nat>, ppe: nat, n: nat)
    requires n >= 1 && 1 <= ppe <= WORDS + 1 && Encodes(table, addrs, ppe, n)
    requires forall a, b | 0 <= a < b < |addrs| :: addrs[a] != addrs[b]
    ensures (forall i: nat, j: nat | i < n && j < ppe ::
               && WordOf(i, j) < |table| && PageOf(i, j, ppe) < |addrs|
               && table[WordOf(i, j)] == addrs[PageOf(i, j, ppe)])
            <==> ppe <= WORDS
  {
    if ppe > WORDS {
      assert table[WordOf(0, 0)] == addrs[PageOf(0, Kept(0, ppe), ppe)];
      assert PageOf(0, Kept(0, ppe), ppe) == WORDS && PageOf(0, 0, ppe) == 0;
    }
  }

  /** What the loops ask of their caller when the mapping has been made: room in the table
      and in the address array, and no more entries than a 32-bit counter can count. */
  predicate LoopsInBounds(pageSize: nat, ppe: nat, n: nat) {
    ppe <= 513 && n < 0x1_0000_0000 && n * ppe <= PagesAsked(pageSize, ppe, n)
  }

  /** `create_host_io_buf` up to the list insertion: from the pages the kernel pins to the
      table. The map returned holds the bus address of each page pinned, and 0 for those
      that were not; the table has those addresses in their words. */
  method CreateHostIoBuf(k: Kernel, vaddr: nat, pageSize: nat, ppe: nat, n: nat, a: Answers)
    returns (r: Outcome<array<nat>>, m: Map?)
    requires ValidAnswers(a, PagesAsked(pageSize, ppe, n))
    requires Succeeds(PagesAsked(pageSize, ppe, n), a) ==> LoopsInBounds(pageSize, ppe, n)
    modifies k
    ensures r.Ok? <==> Succeeds(PagesAsked(pageSize, ppe, n), a)
    ensures ppe == 0 || n == 0 ==> r == Err(-22)
    ensures r.Err? ==>
              && m == null && k.pins == old(k.pins)
              && r.code == if PagesAsked(pageSize, ppe, n) == 0 then -22 else ErrorAfter(a)
    ensures r.Ok? ==>
              && m != null && fresh(m) && k.pins == old(k.pins) + multiset(m.Pinned())
              && m.vaddr == vaddr - vaddr % 0x1000 && m.pageSize == 0x1000
              && Holds(m, PagesAsked(pageSize, ppe, n), a) && LaidOut(r.value[..], m.addrs[..], ppe, n)
  {
    var nPages := PagesAsked(pageSize, ppe, n);
    if ppe == 0 || n == 0 {
      NoPages(pageSize, ppe, n);
    }
    var o := MapUserspace(k, vaddr, nPages, a);
    if o.Err? {
      return Err(o.code), null;
    }
    m := o.value;
    var table := FillTable(m.addrs[..], ppe, n);
    r := Ok(table);
  }
}
