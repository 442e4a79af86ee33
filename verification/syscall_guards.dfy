/** The guard arithmetic every VM syscall runs before it touches memory:
    compute-unit charging, the cost of a memory operation, translation of a
    virtual address range to a host address with its error order, slice
    translation, the copy-overlap test and the pairwise-disjoint
    translation of several mutable ranges (`translate_mut!` in Agave).

    `fd_vm_mem_haddr`, whose body lives outside this model, is a parameter:
    a `MemMap` gives, for a virtual address and a size, the host address (0
    when unmapped) and whether the range spans several regions. */
module SyscallGuards {
  import opened Bytes
  import opened Wrappers

  /** The FD_VM_SYSCALL_ERR_* codes a syscall guard or CPI check returns. */
  datatype SyscallErr =
    | ComputeBudgetExceeded
    | Segfault
    | InvalidLength
    | CopyOverlapping
    | MaxInstructionDataLenExceeded
    | MaxInstructionAccountsExceeded
    | InstructionTooLarge

  /** Why a translation failed; the load and store guards log this and
      return SEGFAULT whatever it is. */
  datatype Cause = LengthOverLongMax | Unmapped | Misaligned | Overlap

  /** FD_VM_MEM_OP_BASE_COST: the least charge of a memory operation. */
  const MemOpBaseCost: nat := 10
  /** FD_VM_CPI_BYTES_PER_UNIT: bytes bought by one compute unit. */
  const CpiBytesPerUnit: nat := 250

  // ---------------------------------------------------------------------
  // Compute units
  // ---------------------------------------------------------------------

  /** The meter after a charge: the units left, and whether the charge
      failed with COMPUTE_BUDGET_EXCEEDED. */
  datatype Metered = Metered(cu: nat, exceeded: bool)

  /** `FD_VM_CU_UPDATE`: charge `cost` units against `cu`.  Charging
      exactly the units left succeeds and leaves the meter at 0; charging
      more zeroes the meter and fails. */
  function CuUpdate(cu: nat, cost: nat): (r: Metered)
    requires cu <= UlongMax && cost <= UlongMax
    ensures r.exceeded <==> cost > cu
    ensures r.exceeded ==> r.cu == 0
    ensures !r.exceeded ==> r.cu + cost == cu
  {
    if cost > cu then Metered(0, true) else Metered(cu - cost, false)
  }

  /** Two charges in a row, the second skipped when the first fails (the
      guard returns from the syscall). */
  function ChargeTwice(cu: nat, a: nat, b: nat): Metered
    requires cu <= UlongMax && a <= UlongMax && b <= UlongMax
  {
    var first := CuUpdate(cu, a);
    if first.exceeded then first else CuUpdate(first.cu, b)
  }

  /** Charging `a` then `b` is charging `a + b` at once: the same units
      left, and the same verdict. */
  lemma ChargeAdditive(cu: nat, a: nat, b: nat)
    requires cu <= UlongMax && a <= UlongMax && b <= UlongMax && a + b <= UlongMax
    ensures ChargeTwice(cu, a, b) == CuUpdate(cu, a + b)
  {
  }

  /** `FD_VM_CU_MEM_OP_UPDATE`'s charge for `sz` bytes: one unit per
      CpiBytesPerUnit whole bytes, but never less than the base cost. */
  function MemOpCost(sz: nat): (r: nat)
    ensures r >= MemOpBaseCost
    ensures r * CpiBytesPerUnit <= sz || r == MemOpBaseCost
    ensures sz < (r + 1) * CpiBytesPerUnit
  {
    if MemOpBaseCost >= sz / CpiBytesPerUnit then MemOpBaseCost else sz / CpiBytesPerUnit
  }

  /** A larger operation never costs less. */
  lemma MemOpCostMonotone(sz0: nat, sz1: nat)
    requires sz0 <= sz1
    ensures MemOpCost(sz0) <= MemOpCost(sz1)
  {
  }

  /** Below eleven units' worth of bytes the charge is the flat base cost. */
  lemma MemOpCostFlat(sz: nat)
    ensures MemOpCost(sz) == MemOpBaseCost <==> sz < (MemOpBaseCost + 1) * CpiBytesPerUnit
  {
  }

  /** `FD_VM_CU_MEM_OP_UPDATE`. */
  function CuMemOpUpdate(cu: nat, sz: nat): (r: Metered)
    requires cu <= UlongMax && sz <= UlongMax
    ensures r.exceeded <==> MemOpCost(sz) > cu
    ensures !r.exceeded ==> r.cu + MemOpCost(sz) == cu && r.cu + MemOpBaseCost <= cu
  {
    CuUpdate(cu, MemOpCost(sz))
  }

  // ---------------------------------------------------------------------
  // Address translation
  // ---------------------------------------------------------------------

  /** What `fd_vm_mem_haddr` reports for one range. */
  datatype Lookup = Lookup(haddr: nat, isMulti: bool)

  /** `fd_vm_mem_haddr` for one region table (the load or the store table),
      as a function of the virtual address and the size. */
  type MemMap = (nat, nat) -> Lookup

  datatype Translation = Mapped(haddr: nat) | Failed(err: SyscallErr, cause: Cause)

  /** The alignments callers pass: powers of two up to 8. */
  predicate AlignOk(align: nat)
  {
    align == 1 || align == 2 || align == 4 || align == 8
  }

  /** The first of the three guards a translation fails, in the order the
      macro tests them, or none. */
  function FirstFault(sz: nat, align: nat, l: Lookup, checkAlign: bool): (c: Option<Cause>)
    requires AlignOk(align)
  {
    if sz > LongMax then Some(LengthOverLongMax)
    else if l.haddr == 0 || l.isMulti then Some(Unmapped)
    else if checkAlign && l.haddr % align != 0 then Some(Misaligned)
    else None
  }

  /** `FD_VM_MEM_HADDR_LD` and `FD_VM_MEM_HADDR_ST_` (they differ only in
      the region table, which is `mem` here): every failure returns
      SEGFAULT, and only a single-region, nonzero and, when alignment is
      checked, aligned host address gets through. */
  function HaddrTranslate(mem: MemMap, vaddr: nat, align: nat, sz: nat, checkAlign: bool): (r: Translation)
    requires AlignOk(align)
    ensures r.Failed? ==> r.err == Segfault
    ensures r.Mapped? <==> sz <= LongMax && mem(vaddr, sz).haddr != 0 && !mem(vaddr, sz).isMulti
                           && (checkAlign ==> mem(vaddr, sz).haddr % align == 0)
    ensures r.Mapped? ==> r.haddr == mem(vaddr, sz).haddr && r.haddr > 0
    ensures r.Failed? ==> FirstFault(sz, align, mem(vaddr, sz), checkAlign) == Some(r.cause)
  {
    var l := mem(vaddr, sz);
    var sigbus := checkAlign && l.haddr % align != 0;
    if sz > LongMax then Failed(Segfault, LengthOverLongMax)
    else if l.haddr == 0 || l.isMulti then Failed(Segfault, Unmapped)
    else if sigbus then Failed(Segfault, Misaligned)
    else Mapped(l.haddr)
  }

  /** `FD_VM_MEM_SLICE_HADDR_LD` / `_ST`: an overlong slice is
      INVALID_LENGTH (not SEGFAULT); an empty slice is not translated at all
      and yields host address 0; anything else is a checked translation. */
  function SliceTranslate(mem: MemMap, vaddr: nat, align: nat, sz: nat, checkAlign: bool): (r: Translation)
    requires AlignOk(align)
    ensures sz > LongMax <==> r == Failed(InvalidLength, LengthOverLongMax)
    ensures sz == 0 ==> r == Mapped(0)
    ensures 0 < sz <= LongMax ==> r == HaddrTranslate(mem, vaddr, align, sz, checkAlign)
  {
    if sz > LongMax then Failed(InvalidLength, LengthOverLongMax)
    else if sz > 0 then HaddrTranslate(mem, vaddr, align, sz, checkAlign)
    else Mapped(0)
  }

  /** The length guard inside the checked translation can never fire for a
      slice: the slice guard has already caught every overlong size. */
  lemma SliceNeverSegfaultsOnLength(mem: MemMap, vaddr: nat, align: nat, sz: nat, checkAlign: bool)
    requires AlignOk(align)
    ensures SliceTranslate(mem, vaddr, align, sz, checkAlign) != Failed(Segfault, LengthOverLongMax)
  {
  }

  /** An empty slice does not depend on the memory map: no table can make
      it fault. */
  lemma EmptySliceIgnoresMap(m0: MemMap, m1: MemMap, vaddr: nat, align: nat, checkAlign: bool)
    requires AlignOk(align)
    ensures SliceTranslate(m0, vaddr, align, 0, checkAlign) == SliceTranslate(m1, vaddr, align, 0, checkAlign)
    ensures SliceTranslate(m0, vaddr, align, 0, checkAlign).Mapped?
  {
  }

  // ---------------------------------------------------------------------
  // Overlap
  // ---------------------------------------------------------------------

  /** The test of `FD_VM_MEM_CHECK_NON_OVERLAPPING`: the range starting
      later begins before the earlier one ends. */
  function Overlapping(addr0: nat, sz0: nat, addr1: nat, sz1: nat): bool
  {
    (addr0 > addr1 && SatSub(addr0, addr1) < sz1) || (addr1 >= addr0 && SatSub(addr1, addr0) < sz0)
  }

  /** `x` lies in the half-open range `[addr, addr + sz)`. */
  predicate InRange(x: nat, addr: nat, sz: nat)
  {
    addr <= x < addr + sz
  }

  /** Ranges that share a byte always overlap. */
  lemma SharedByteOverlaps(addr0: nat, sz0: nat, addr1: nat, sz1: nat, x: nat)
    requires InRange(x, addr0, sz0) && InRange(x, addr1, sz1)
    ensures Overlapping(addr0, sz0, addr1, sz1)
  {
  }

  /** For nonempty ranges the test is exactly "the half-open ranges
      intersect". */
  lemma OverlapIffIntersect(addr0: nat, sz0: nat, addr1: nat, sz1: nat)
    requires sz0 > 0 && sz1 > 0
    ensures Overlapping(addr0, sz0, addr1, sz1) <==> exists x :: InRange(x, addr0, sz0) && InRange(x, addr1, sz1)
  {
    if Overlapping(addr0, sz0, addr1, sz1) {
      var x := if addr0 > addr1 then addr0 else addr1;
      assert InRange(x, addr0, sz0) && InRange(x, addr1, sz1);
    }
    if exists x :: InRange(x, addr0, sz0) && InRange(x, addr1, sz1) {
      var x :| InRange(x, addr0, sz0) && InRange(x, addr1, sz1);
      SharedByteOverlaps(addr0, sz0, addr1, sz1, x);
    }
  }

  /** For nonempty ranges the order of the two arguments does not matter. */
  lemma OverlapSymmetric(addr0: nat, sz0: nat, addr1: nat, sz1: nat)
    requires sz0 > 0 && sz1 > 0
    ensures Overlapping(addr0, sz0, addr1, sz1) == Overlapping(addr1, sz1, addr0, sz0)
  {
  }

  /** An empty range strictly inside another counts as overlapping it
      though the two share no byte; and at a common start address the test
      is not symmetric once a size is 0. */
  lemma EmptyRangeCases()
    ensures Overlapping(5, 0, 4, 2) && !(exists x :: InRange(x, 5, 0))
    ensures Overlapping(4, 2, 4, 0) && !Overlapping(4, 0, 4, 2)
  {
  }

  // ---------------------------------------------------------------------
  // Several mutable ranges at once
  // ---------------------------------------------------------------------

  /** One `fd_vm_haddr_query_t`: the range to translate and whether it is
      a slice. */
  datatype Query = Query(vaddr: nat, align: nat, sz: nat, isSlice: bool)

  predicate QueriesOk(qs: seq<Query>)
  {
    forall i :: 0 <= i < |qs| ==> AlignOk(qs[i].align)
  }

  /** Translate one query with the store table: a slice goes through the
      slice guard, anything else through the checked translation. */
  function TranslateQuery(mem: MemMap, q: Query, checkAlign: bool): (r: Translation)
    requires AlignOk(q.align)
  {
    if q.isSlice then SliceTranslate(mem, q.vaddr, q.align, q.sz, checkAlign)
    else HaddrTranslate(mem, q.vaddr, q.align, q.sz, checkAlign)
  }

  datatype Translated = Translated(haddrs: seq<nat>) | Rejected(err: SyscallErr, cause: Cause)

  /** No host range `hs[i]` (of the size of query `i`) overlaps an earlier
      one, in the argument order the macro uses. */
  predicate Disjoint(qs: seq<Query>, hs: seq<nat>)
    requires |hs| <= |qs|
  {
    forall i, j :: 0 <= j < i < |hs| ==> !Overlapping(hs[i], qs[i].sz, hs[j], qs[j].sz)
  }

  /** The index of the first earlier range that `(h, sz)` overlaps, if any,
      scanning from the oldest as the inner loop does. */
  function FirstClash(h: nat, sz: nat, qs: seq<Query>, hs: seq<nat>, j: nat): (c: Option<nat>)
    requires |hs| <= |qs| && j <= |hs|
    decreases |hs| - j
  {
    if j >= |hs| then None
    else if Overlapping(h, sz, hs[j], qs[j].sz) then Some(j)
    else FirstClash(h, sz, qs, hs, j + 1)
  }

  /** The range `(h, sz)` overlaps none of `hs[j..]`. */
  predicate NoClash(h: nat, sz: nat, qs: seq<Query>, hs: seq<nat>, j: nat)
    requires |hs| <= |qs|
  {
    forall k :: j <= k < |hs| ==> !Overlapping(h, sz, hs[k], qs[k].sz)
  }

  /** `FirstClash` finds nothing from `j` on exactly when no range from
      `j` on overlaps. */
  lemma {:induction false} FirstClashNone(h: nat, sz: nat, qs: seq<Query>, hs: seq<nat>, j: nat)
    requires |hs| <= |qs| && j <= |hs|
    ensures FirstClash(h, sz, qs, hs, j).None? <==> NoClash(h, sz, qs, hs, j)
    decreases |hs| - j
  {
    if j < |hs| {
      FirstClashNone(h, sz, qs, hs, j + 1);
    }
  }

  /** The host address each of the first `n` queries translates to, 0
      where it fails. */
  function MappedAddrs(mem: MemMap, qs: seq<Query>, n: nat, checkAlign: bool): (hs: seq<nat>)
    requires QueriesOk(qs) && n <= |qs|
    ensures |hs| == n
  {
    if n == 0 then [] else MappedAddrs(mem, qs, n - 1, checkAlign) + [AddrOf(mem, qs[n - 1], checkAlign)]
  }

  /** The host address a query translates to, 0 when it fails. */
  function AddrOf(mem: MemMap, q: Query, checkAlign: bool): nat
    requires AlignOk(q.align)
  {
    var t := TranslateQuery(mem, q, checkAlign);
    if t.Mapped? then t.haddr else 0
  }

  /** One more query on top of the host ranges `hs` of the first `n`: its
      translation error, an overlap with an earlier range, or `hs` grown by
      its host address. */
  function Extend(mem: MemMap, qs: seq<Query>, n: nat, hs: seq<nat>, checkAlign: bool): Translated
    requires QueriesOk(qs) && n < |qs| && |hs| <= |qs|
  {
    match TranslateQuery(mem, qs[n], checkAlign)
    case Failed(e, c) => Rejected(e, c)
    case Mapped(h) =>
      if FirstClash(h, qs[n].sz, qs, hs, 0).Some? then Rejected(CopyOverlapping, Overlap)
      else Translated(hs + [h])
  }

  /** Reference definition of `FD_VM_TRANSLATE_MUT` over the first `n`
      queries: the first failure wins, and on success the host addresses
      are those of the individual translations. */
  function TranslateMutSpec(mem: MemMap, qs: seq<Query>, n: nat, checkAlign: bool): (r: Translated)
    requires QueriesOk(qs) && n <= |qs|
    ensures r.Translated? ==> r.haddrs == MappedAddrs(mem, qs, n, checkAlign)
  {
    if n == 0 then Translated([])
    else
      match TranslateMutSpec(mem, qs, n - 1, checkAlign)
      case Rejected(e, c) => Rejected(e, c)
      case Translated(hs) => Extend(mem, qs, n - 1, hs, checkAlign)
  }

  /** Once a prefix of the queries is rejected, so is every longer one,
      with the same error. */
  lemma {:induction false} RejectedPersists(mem: MemMap, qs: seq<Query>, n: nat, m: nat, checkAlign: bool)
    requires QueriesOk(qs) && n <= m <= |qs|
    requires TranslateMutSpec(mem, qs, n, checkAlign).Rejected?
    ensures TranslateMutSpec(mem, qs, m, checkAlign) == TranslateMutSpec(mem, qs, n, checkAlign)
    decreases m
  {
    if m > n {
      RejectedPersists(mem, qs, n, m - 1, checkAlign);
    }
  }

  /** The inner loop of `FD_VM_TRANSLATE_MUT`: check the new range
      `(h, sz)` against every earlier host range, oldest first. */
  method CheckEarlier(h: nat, sz: nat, qs: seq<Query>, hs: seq<nat>) returns (clash: bool)
    requires |hs| <= |qs|
    ensures clash <==> FirstClash(h, sz, qs, hs, 0).Some?
  {
    var j := 0;
    while j < |hs|
      invariant 0 <= j <= |hs|
      invariant FirstClash(h, sz, qs, hs, 0) == FirstClash(h, sz, qs, hs, j)
    {
      if Overlapping(h, sz, hs[j], qs[j].sz) {
        return true;
      }
      j := j + 1;
    }
    return false;
  }

  /** `FD_VM_TRANSLATE_MUT`: translate the queries in order, checking each
      new host range against every earlier one. */
  method TranslateMut(mem: MemMap, qs: seq<Query>, checkAlign: bool) returns (r: Translated)
    requires QueriesOk(qs)
    ensures r == TranslateMutSpec(mem, qs, |qs|, checkAlign)
  {
    var hs: seq<nat> := [];
    var i := 0;
    while i < |qs|
      invariant 0 <= i <= |qs| && |hs| == i
      invariant TranslateMutSpec(mem, qs, i, checkAlign) == Translated(hs)
    {
      var t := TranslateQuery(mem, qs[i], checkAlign);
      if t.Failed? {
        r := Rejected(t.err, t.cause);
        RejectedPersists(mem, qs, i + 1, |qs|, checkAlign);
        return;
      }
      var h := t.haddr;
      var clash := CheckEarlier(h, qs[i].sz, qs, hs);
      if clash {
        r := Rejected(CopyOverlapping, Overlap);
        RejectedPersists(mem, qs, i + 1, |qs|, checkAlign);
        return;
      }
      hs := hs + [h];
      i := i + 1;
    }
    r := Translated(hs);
  }

  /** Every one of the first `n` queries translates. */
  predicate AllMapped(mem: MemMap, qs: seq<Query>, n: nat, checkAlign: bool)
    requires QueriesOk(qs) && n <= |qs|
  {
    n == 0 || (AllMapped(mem, qs, n - 1, checkAlign) && TranslateQuery(mem, qs[n - 1], checkAlign).Mapped?)
  }

  /** `AllMapped` read as a statement about each query. */
  lemma {:induction false} AllMappedEach(mem: MemMap, qs: seq<Query>, n: nat, checkAlign: bool)
    requires QueriesOk(qs) && n <= |qs|
    ensures AllMapped(mem, qs, n, checkAlign) <==> forall k :: 0 <= k < n ==> TranslateQuery(mem, qs[k], checkAlign).Mapped?
  {
    if n > 0 {
      AllMappedEach(mem, qs, n - 1, checkAlign);
    }
  }

  /** Growing the ranges by one keeps them disjoint exactly when the new
      range overlaps none of the earlier ones. */
  lemma DisjointSnoc(qs: seq<Query>, hs: seq<nat>, h: nat)
    requires |hs| < |qs|
    ensures Disjoint(qs, hs + [h])
            <==> Disjoint(qs, hs) && NoClash(h, qs[|hs|].sz, qs, hs, 0)
  {
    var hs' := hs + [h];
    assert forall k :: 0 <= k < |hs| ==> hs'[k] == hs[k];
  }

  /** The reference definition succeeds exactly when every query translates
      and no translated range overlaps an earlier one. */
  lemma {:induction false} TranslateMutSucceeds(mem: MemMap, qs: seq<Query>, n: nat, checkAlign: bool)
    requires QueriesOk(qs) && n <= |qs|
    ensures TranslateMutSpec(mem, qs, n, checkAlign).Translated?
            <==> AllMapped(mem, qs, n, checkAlign) && Disjoint(qs, MappedAddrs(mem, qs, n, checkAlign))
  {
    if n > 0 {
      TranslateMutSucceeds(mem, qs, n - 1, checkAlign);
      var hs := MappedAddrs(mem, qs, n - 1, checkAlign);
      var h := AddrOf(mem, qs[n - 1], checkAlign);
      var sz := qs[n - 1].sz;
      TranslateMutStep(mem, qs, n, checkAlign);
      FirstClashNone(h, sz, qs, hs, 0);
      MappedAddrsDisjointStep(mem, qs, n, checkAlign);
    }
  }

  /** The n-th query extends a successful translation of the first n-1
      exactly when it is mapped and clashes with none of them. */
  lemma TranslateMutStep(mem: MemMap, qs: seq<Query>, n: nat, checkAlign: bool)
    requires QueriesOk(qs) && 0 < n <= |qs|
    ensures var hs := MappedAddrs(mem, qs, n - 1, checkAlign);
      var h := AddrOf(mem, qs[n - 1], checkAlign);
      TranslateMutSpec(mem, qs, n, checkAlign).Translated?
      <==> && TranslateMutSpec(mem, qs, n - 1, checkAlign).Translated?
           && TranslateQuery(mem, qs[n - 1], checkAlign).Mapped?
           && FirstClash(h, qs[n - 1].sz, qs, hs, 0).None?
  {
  }

  /** The first n addresses are disjoint exactly when the first n-1 are and
      the n-th overlaps none of them. */
  lemma MappedAddrsDisjointStep(mem: MemMap, qs: seq<Query>, n: nat, checkAlign: bool)
    requires QueriesOk(qs) && 0 < n <= |qs|
    ensures var hs := MappedAddrs(mem, qs, n - 1, checkAlign);
      var h := AddrOf(mem, qs[n - 1], checkAlign);
      Disjoint(qs, MappedAddrs(mem, qs, n, checkAlign))
      <==> Disjoint(qs, hs) && NoClash(h, qs[n - 1].sz, qs, hs, 0)
  {
    var hs := MappedAddrs(mem, qs, n - 1, checkAlign);
    var h := AddrOf(mem, qs[n - 1], checkAlign);
    assert MappedAddrs(mem, qs, n, checkAlign) == hs + [h];
    DisjointSnoc(qs, hs, h);
  }

  /** On success every host address is the one its own query translates
      to. */
  lemma {:induction false} TranslatedAddrs(mem: MemMap, qs: seq<Query>, n: nat, checkAlign: bool)
    requires QueriesOk(qs) && n <= |qs|
    requires AllMapped(mem, qs, n, checkAlign)
    ensures forall k :: 0 <= k < n ==> TranslateQuery(mem, qs[k], checkAlign) == Mapped(MappedAddrs(mem, qs, n, checkAlign)[k])
  {
    if n > 0 {
      TranslatedAddrs(mem, qs, n - 1, checkAlign);
      var hs := MappedAddrs(mem, qs, n - 1, checkAlign);
      assert MappedAddrs(mem, qs, n, checkAlign) == hs + [AddrOf(mem, qs[n - 1], checkAlign)];
    }
  }
}
