/** `map.c`: pinning the pages behind a user address range and mapping them for DMA, and
    undoing both. What the kernel answers is a parameter: how many pages it pins, which
    ones, and what each DMA mapping comes to. */
module PageMap {

  const EINVAL := 22
  const ENOMEM := 12
  const PAGE_SIZE: nat := 4096

  datatype Outcome<+T> = Ok(value: T) | Err(code: int)

  /** The result of one `dma_map_page` and `dma_mapping_error`. */
  datatype DmaResult = Mapped(addr: nat) | MapError(code: int)

  /** What the environment will answer to one call: whether there is memory for the
      descriptor and for the page array, the return value of `get_user_pages`, the pages it
      pins when that is positive, and the DMA results by index. */
  datatype Answers = Answers(descriptor: bool, pageArray: bool, got: int, pages: seq<nat>, dma: seq<DmaResult>)

  predicate ValidAnswers(a: Answers, n: nat) {
    && a.got <= n
    && (a.got > 0 ==> |a.pages| == a.got && |a.dma| == a.got)
    && (forall i | 0 <= i < |a.dma| :: a.dma[i].MapError? ==> a.dma[i].code != 0)
  }

  /** The call gets as far as having pages pinned. */
  predicate Pins(a: Answers) {
    a.descriptor && a.pageArray && a.got > 0
  }

  /** The first DMA mapping that fails, or the number of pages. */
  function FirstError(dma: seq<DmaResult>, i: nat): (e: nat)
    requires i <= |dma|
    ensures i <= e <= |dma|
    ensures forall j | i <= j < e :: dma[j].Mapped?
    ensures e < |dma| ==> dma[e].MapError?
    decreases |dma| - i
  {
    if i == |dma| || dma[i].MapError? then i else FirstError(dma, i + 1)
  }

  function Addr(d: DmaResult): nat {
    if d.Mapped? then d.addr else 0
  }

  /** Page pins, and the log of DMA mappings made and undone. */
  class Kernel {
    var pins: multiset<nat>
    var mapped: seq<nat>
    var unmapped: seq<nat>

    constructor ()
      ensures pins == multiset{} && mapped == [] && unmapped == []
    {
      pins, mapped, unmapped := multiset{}, [], [];
    }

    method PinPages(pages: seq<nat>)
      modifies this`pins
      ensures pins == old(pins) + multiset(pages)
    {
      pins := pins + multiset(pages);
    }

    /** A page may only be put while it is pinned. */
    method PutPage(p: nat)
      requires p in pins
      modifies this`pins
      ensures pins == old(pins) - multiset{p}
    {
      pins := pins - multiset{p};
    }

    method DmaMap(addr: nat)
      modifies this`mapped
      ensures mapped == old(mapped) + [addr]
    {
      mapped := mapped + [addr];
    }

    method DmaUnmap(addr: nat)
      modifies this`unmapped
      ensures unmapped == old(unmapped) + [addr]
    {
      unmapped := unmapped + [addr];
    }
  }

  /** `struct map`; `data` is the page array, `hasRelease` whether the release callback is set. */
  class Map {
    const vaddr: nat
    var pageSize: nat
    var hasRelease: bool
    var nAddrs: nat
    var data: seq<nat>
    var hasData: bool
    const addrs: array<nat>

    /** `create_descriptor` */
    constructor (vaddr: nat, n: nat)
      ensures this.vaddr == vaddr && nAddrs == n && !hasRelease && !hasData && pageSize == 0
      ensures fresh(addrs) && addrs.Length == n && forall i | 0 <= i < n :: addrs[i] == 0
    {
      this.vaddr := vaddr;
      nAddrs, hasRelease, hasData, pageSize, data := n, false, false, 0, [];
      addrs := new nat[n];
      new;
      for i := 0 to n
        modifies addrs
        invariant forall j | 0 <= j < i :: addrs[j] == 0
      {
        addrs[i] := 0;
      }
    }

    ghost predicate Valid()
      reads this
    {
      && nAddrs <= addrs.Length
      && (hasData ==> hasRelease && |data| == nAddrs)
    }

    /** A map as `map_userspace` returns it. */
    ghost predicate HandedOut(v: nat, n: nat, a: Answers)
      reads this, addrs
    {
      && Valid() && vaddr == v - v % 0x1000 && pageSize == 0x1000 && Pinned() == PinnedAfter(a)
      && nAddrs == (if Pins(a) then a.got else n) && hasData == hasRelease == Pins(a)
      && |MappedBy(a)| <= n && addrs[..] == MappedBy(a) + Zeros(n - |MappedBy(a)|)
    }

    /** The pages this map keeps pinned. */
    function Pinned(): seq<nat>
      reads this
    {
      if hasData && hasRelease then data else []
    }

    /** The addresses a release unmaps. */
    function ToUnmap(): seq<nat>
      requires Valid()
      reads this, addrs
    {
      if hasData && hasRelease then addrs[..nAddrs] else []
    }

    /** The two loops of `release_user_pages`. */
    method UnmapAll(k: Kernel)
      requires nAddrs <= addrs.Length
      modifies k`unmapped
      ensures k.unmapped == old(k.unmapped) + addrs[..nAddrs]
    {
      var i := 0;
      while i < nAddrs
        invariant 0 <= i <= nAddrs && k.unmapped == old(k.unmapped) + addrs[..i]
      {
        k.DmaUnmap(addrs[i]);
        i := i + 1;
      }
    }

    method PutAll(k: Kernel)
      requires |data| == nAddrs && multiset(data) <= k.pins
      modifies k`pins
      ensures k.pins == old(k.pins) - multiset(data)
    {
      var i := 0;
      assert data[..0] == [];
      while i < nAddrs
        invariant 0 <= i <= nAddrs && k.pins == old(k.pins) - multiset(data[..i])
      {
        PutNext(data, i, old(k.pins));
        k.PutPage(data[i]);
        i := i + 1;
      }
      assert data[..nAddrs] == data;
    }

    /** `release_user_pages` */
    method ReleaseUserPages(k: Kernel)
      requires Valid() && hasData && multiset(data) <= k.pins
      modifies this`hasData, k`pins, k`unmapped
      ensures !hasData
      ensures k.pins == old(k.pins) - multiset(data)
      ensures k.unmapped == old(k.unmapped) + addrs[..nAddrs]
    {
      UnmapAll(k);
      PutAll(k);
      hasData := false;
    }

    /** `unmap_and_release_map` */
    method UnmapAndRelease(k: Kernel)
      requires Valid() && multiset(Pinned()) <= k.pins
      modifies this`hasData, k`pins, k`unmapped
      ensures k.pins == old(k.pins) - multiset(old(Pinned()))
      ensures k.unmapped == old(k.unmapped) + old(ToUnmap())
    {
      if hasRelease && hasData {
        ReleaseUserPages(k);
      }
    }

    /** The mapping loop of `map_user_pages`. */
    method MapAll(k: Kernel, dma: seq<DmaResult>) returns (err: int)
      requires |dma| == nAddrs <= addrs.Length && addrs[..] == Zeros(addrs.Length)
      modifies addrs, k`mapped
      ensures var e := FirstError(dma, 0);
              && err == (if e < |dma| then dma[e].code else 0)
              && k.mapped == old(k.mapped) + Addresses(dma, e)
              && addrs[..] == Addresses(dma, e) + Zeros(addrs.Length - e)
    {
      var i := 0;
      while i < nAddrs
        invariant 0 <= i <= nAddrs
        invariant FirstError(dma, 0) == FirstError(dma, i)
        invariant k.mapped == old(k.mapped) + Addresses(dma, i)
        invariant addrs[..] == Addresses(dma, i) + Zeros(addrs.Length - i)
      {
        match dma[i] {
          case Mapped(addr) =>
            addrs[i] := addr;
            k.DmaMap(addr);
          case MapError(code) =>
            addrs[i] := 0;
            return code;
        }
        i := i + 1;
      }
      return 0;
    }

    /** `map_user_pages` */
    method MapUserPages(k: Kernel, a: Answers) returns (err: int)
      requires Valid() && !hasData && !hasRelease && addrs.Length == nAddrs
      requires a.descriptor && ValidAnswers(a, nAddrs)
      requires addrs[..] == Zeros(nAddrs)
      modifies this, addrs, k`pins, k`mapped
      ensures Valid() && Pinned() == PinnedAfter(a)
      ensures hasData == hasRelease == Pins(a) && nAddrs == if Pins(a) then a.got else old(nAddrs)
      ensures err == ErrorAfter(a) && pageSize == if Pins(a) then 0x1000 else old(pageSize)
      ensures k.pins == old(k.pins) + multiset(PinnedAfter(a)) && k.mapped == old(k.mapped) + MappedBy(a)
      ensures addrs[..] == MappedBy(a) + Zeros(addrs.Length - |MappedBy(a)|)
    {
      if !a.pageArray {
        return -ENOMEM;
      }
      if a.got <= 0 {
        return a.got;
      }
      k.PinPages(a.pages);
      nAddrs := a.got;
      pageSize := PAGE_SIZE;
      data, hasData := a.pages, true;
      hasRelease := true;
      err := MapAll(k, a.dma);
    }
  }

  lemma PutNext(data: seq<nat>, i: nat, pins: multiset<nat>)
    requires i < |data| && multiset(data) <= pins
    ensures data[i] in pins - multiset(data[..i])
    ensures pins - multiset(data[..i]) - multiset{data[i]} == pins - multiset(data[..i + 1])
  {
    assert data[..i + 1] == data[..i] + [data[i]];
    assert data == data[..i + 1] + data[i + 1..];
  }

  /** The bus addresses of the first e pages. */
  function Addresses(dma: seq<DmaResult>, e: nat): (s: seq<nat>)
    requires e <= |dma|
    ensures |s| == e && forall i | 0 <= i < e :: s[i] == Addr(dma[i])
  {
    if e == 0 then [] else Addresses(dma, e - 1) + [Addr(dma[e - 1])]
  }

  function Zeros(n: nat): (s: seq<nat>)
    ensures |s| == n && forall i | 0 <= i < n :: s[i] == 0
  {
    seq(n, _ => 0)
  }

  // ---------- what the answers come to ----------

  function PinnedAfter(a: Answers): seq<nat> {
    if Pins(a) then a.pages else []
  }

  /** The DMA mappings made: those before the first that fails. */
  function MappedBy(a: Answers): seq<nat> {
    if Pins(a) then Addresses(a.dma, FirstError(a.dma, 0)) else []
  }

  function ErrorAfter(a: Answers): int {
    if !a.descriptor || !a.pageArray then -ENOMEM
    else if a.got <= 0 then a.got
    else
      var e := FirstError(a.dma, 0);
      if e < |a.dma| then a.dma[e].code else 0
  }

  /** When `map_userspace` hands out a map: when every page pinned could be mapped, or when
      none was pinned but `get_user_pages` did not fail either. */
  predicate Succeeds(n: nat, a: Answers) {
    && n >= 1 && a.descriptor && a.pageArray && a.got >= 0
    && (a.got > 0 ==> forall i | 0 <= i < |a.dma| :: a.dma[i].Mapped?)
  }

  lemma SucceedsIff(n: nat, a: Answers)
    requires ValidAnswers(a, n)
    ensures Succeeds(n, a) <==> n >= 1 && ErrorAfter(a) == 0
    ensures Succeeds(n, a) && Pins(a) ==> FirstError(a.dma, 0) == a.got
  {
  }

  lemma PutBack(pins: multiset<nat>, pages: seq<nat>)
    ensures multiset(pages) <= pins + multiset(pages)
    ensures pins + multiset(pages) - multiset(pages) == pins
  {
  }

  /** The first half of `map_userspace`: a descriptor, and the attempt to map its pages. */
  method CreateAndMap(k: Kernel, vaddr: nat, n: nat, a: Answers) returns (m: Map, err: int)
    requires ValidAnswers(a, n) && n >= 1 && a.descriptor
    modifies k`pins, k`mapped
    ensures fresh(m) && fresh(m.addrs) && m.HandedOut(vaddr, n, a) && err == ErrorAfter(a)
    ensures k.pins == old(k.pins) + multiset(m.Pinned()) && k.mapped == old(k.mapped) + MappedBy(a)
  {
    m := new Map(vaddr - vaddr % PAGE_SIZE, n);
    assert m.addrs[..] == Zeros(n);
    m.pageSize := PAGE_SIZE;
    err := m.MapUserPages(k, a);
  }

  /** What a release unmaps: one address for each page pinned, those beyond the first
      failure being 0. */
  function UnmappedBy(a: Answers): (s: seq<nat>)
    requires Pins(a) ==> |a.dma| == a.got
    ensures |s| == if Pins(a) then a.got else 0
    ensures forall i | 0 <= i < |s| :: s[i] == if i < |MappedBy(a)| then MappedBy(a)[i] else 0
  {
    if Pins(a) then MappedBy(a) + Zeros(a.got - |MappedBy(a)|) else []
  }

  /** What a release of the map would unmap, and which page each address is of. Every page
      asked for has its bus address in the map exactly when all were pinned; and a map
      without a page, which is handed out when `get_user_pages` returns 0, still counts as
      many addresses as were asked for. */
  lemma HandedOutHolds(m: Map, vaddr: nat, n: nat, a: Answers)
    requires ValidAnswers(a, n) && n >= 1 && m.HandedOut(vaddr, n, a)
    ensures m.ToUnmap() == UnmappedBy(a)
    ensures Succeeds(n, a) ==> Holds(m, n, a)
  {
    SucceedsIff(n, a);
    forall i | 0 <= i < m.addrs.Length ensures m.addrs[i] == (MappedBy(a) + Zeros(n - |MappedBy(a)|))[i] {
      assert m.addrs[i] == m.addrs[..][i];
    }
  }

  ghost predicate Holds(m: Map, n: nat, a: Answers)
    requires a.got > 0 ==> |a.dma| == a.got
    reads m, m.addrs
  {
    && m.addrs.Length == n
    && (forall i | 0 <= i < n :: m.addrs[i] == if i < a.got && a.dma[i].Mapped? then a.dma[i].addr else 0)
    && m.Pinned() == (if a.got > 0 then a.pages else [])
    && (|m.Pinned()| == n <==> a.got == n)
    && (|m.Pinned()| == m.nAddrs <==> a.got > 0)
  }

  /** Release of a map that has been handed out, or given up. */
  method Release(k: Kernel, m: Map, vaddr: nat, n: nat, a: Answers, ghost before: multiset<nat>)
    requires ValidAnswers(a, n) && n >= 1 && m.HandedOut(vaddr, n, a)
    requires k.pins == before + multiset(PinnedAfter(a))
    modifies m`hasData, k`pins, k`unmapped
    ensures k.pins == before
    ensures k.unmapped == old(k.unmapped) + UnmappedBy(a)
  {
    HandedOutHolds(m, vaddr, n, a);
    PutBack(before, PinnedAfter(a));
    m.UnmapAndRelease(k);
  }

  /** `map_userspace`: on every error path each page pinned has been put again; a map that
      is handed out keeps its pages pinned. */
  method MapUserspace(k: Kernel, vaddr: nat, n: nat, a: Answers) returns (r: Outcome<Map>)
    requires ValidAnswers(a, n)
    modifies k
    ensures r.Ok? <==> Succeeds(n, a)
    ensures r.Err? ==> r.code == if n < 1 then -22 else ErrorAfter(a)
    ensures r.Ok? ==>
              var m := r.value;
              fresh(m) && fresh(m.addrs) && m.HandedOut(vaddr, n, a) && Holds(m, n, a)
    ensures k.pins == if r.Ok? then old(k.pins) + multiset(PinnedAfter(a)) else old(k.pins)
    ensures k.mapped == old(k.mapped) + MappedBy(a)
    ensures k.unmapped == if r.Err? then old(k.unmapped) + UnmappedBy(a) else old(k.unmapped)
  {
    if n < 1 {
      return Err(-EINVAL);
    }
    if !a.descriptor {
      return Err(-ENOMEM);
    }
    var m, err := CreateAndMap(k, vaddr, n, a);
    SucceedsIff(n, a);
    if err != 0 {
      Release(k, m, vaddr, n, a, old(k.pins));
      return Err(err);
    }
    HandedOutHolds(m, vaddr, n, a);
    return Ok(m);
  }

  /** The error codes of `map_userspace`, for at least one page. */
  lemma ErrorCodes(n: nat, a: Answers)
    requires ValidAnswers(a, n)
    ensures !a.descriptor || !a.pageArray ==> ErrorAfter(a) == -12
    ensures a.descriptor && a.pageArray && a.got <= 0 ==> ErrorAfter(a) == a.got
    ensures Pins(a) && (forall i | 0 <= i < |a.dma| :: a.dma[i].Mapped?) ==> ErrorAfter(a) == 0
    ensures Pins(a) ==>
              forall e | 0 <= e < |a.dma| && a.dma[e].MapError? && (forall i | 0 <= i < e :: a.dma[i].Mapped?) ::
                ErrorAfter(a) == a.dma[e].code != 0
  {
  }

  /** The mappings made are the successful ones before the first failure. */
  lemma Balance(n: nat, a: Answers)
    requires ValidAnswers(a, n)
    ensures |MappedBy(a)| <= |UnmappedBy(a)| == |PinnedAfter(a)|
    ensures UnmappedBy(a) == MappedBy(a) + Zeros(|UnmappedBy(a)| - |MappedBy(a)|)
    ensures MappedBy(a) == UnmappedBy(a) <==> (Pins(a) ==> forall i | 0 <= i < |a.dma| :: a.dma[i].Mapped?)
    ensures PinnedAfter(a) == if Pins(a) then a.pages else []
    ensures Made(a, MappedBy(a))
  {
  }

  ghost predicate Made(a: Answers, made: seq<nat>) {
    if a.descriptor && a.pageArray && a.got > 0 then
      && |made| <= |a.dma|
      && (forall i | 0 <= i < |made| :: a.dma[i] == Mapped(made[i]))
      && (|made| < |a.dma| ==> a.dma[|made|].MapError?)
    else made == []
  }

  method MapAndRelease(k: Kernel, vaddr: nat, n: nat, a: Answers)
    requires ValidAnswers(a, n)
    modifies k
    ensures k.pins == old(k.pins)
    ensures k.mapped == old(k.mapped) + MappedBy(a) && k.unmapped == old(k.unmapped) + UnmappedBy(a)
  {
    var r := MapUserspace(k, vaddr, n, a);
    if r.Ok? {
      Release(k, r.value, vaddr, n, a, old(k.pins));
    }
  }

  /** Conservation. Whatever the kernel answers, mapping and later releasing leaves every
      pin count as it was. It undoes just the DMA mappings it made, on whichever path,
      unless pages were pinned and one could not be mapped: the error path then unmaps
      address 0 for each page from the first failure on. */
  method MapThenRelease(k: Kernel, vaddr: nat, n: nat, a: Answers) returns (ghost made: seq<nat>, ghost undone: seq<nat>)
    requires ValidAnswers(a, n)
    modifies k
    ensures k.pins == old(k.pins)
    ensures k.mapped == old(k.mapped) + made && k.unmapped == old(k.unmapped) + undone
    ensures Made(a, made) && |made| <= |undone| == |PinnedAfter(a)|
    ensures undone[..|made|] == made && forall i | |made| <= i < |undone| :: undone[i] == 0
    ensures made == undone <==> (Pins(a) ==> forall i | 0 <= i < |a.dma| :: a.dma[i].Mapped?)
  {
    made, undone := MappedBy(a), UnmappedBy(a);
    Balance(n, a);
    MapAndRelease(k, vaddr, n, a);
  }
}
