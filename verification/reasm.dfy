/** The TPU reassembly slot pool: a fixed arena of `depth + burst` slots that
    gathers the fragments of one transaction per slot and hands the finished
    message to a downstream mcache ring of `depth` lines.

    Every slot is FREE, BUSY (gathering) or PUB (owned by an mcache line).
    `pubSlots[l]` names the slot whose payload mcache line `l` currently
    references; FREE and BUSY slots are threaded on the slot queue, head =
    most recently touched, tail = next to be reused. */
module TpuReasm {
  import opened Bytes
  import opened Wrappers
  import opened ReasmQueue

  /** FD_TXN_MTU: the largest transaction the pool gathers. */
  const TxnMtu: nat := 1232
  /** FD_FRAG_META_ORIG_MAX: origin ids occupy the 13 bits above the three
      flag bits of a 16-bit ctl field. */
  const FragMetaOrigMax: nat := 8192
  /** Upper bound on both `depth` and `burst`. */
  const ParamMax: nat := 0x7fff_ffff
  /** FD_CHUNK_ALIGN: alignment of the payload region. */
  const ChunkAlign: nat := 64
  /** The liveness marker written last by `New`.  Its value lives in a header
      outside this model; any nonzero value behaves the same. */
  const Magic: nat := 0xf17eda2ce5a0000

  datatype Code = Success | ErrSz | ErrSkip | ErrState

  /** The pool: header scalars, the slot queue (slot records plus head and
      tail), the line-to-slot map and one payload buffer per slot. */
  datatype Reasm = Reasm(
    magic: nat,
    depth: nat,
    burst: nat,
    slotCnt: nat,
    orig: nat,
    layout: Layout,
    sq: SlotQueue,
    pubSlots: seq<nat>,
    chunks: seq<seq<byte>>)

  // ---------------------------------------------------------------------
  // Parameters and memory layout
  // ---------------------------------------------------------------------

  /** Number of set bits of `x` (`fd_ulong_popcnt`). */
  function Popcnt(x: nat): nat
  {
    if x == 0 then 0 else x % 2 + Popcnt(x / 2)
  }

  function Pow2(k: nat): (p: nat)
    ensures p >= 1
  {
    if k == 0 then 1 else 2 * Pow2(k - 1)
  }

  ghost predicate IsPow2(x: nat)
  {
    exists k: nat :: Pow2(k) == x
  }

  /** The parameter test of `fd_tpu_reasm_footprint`. */
  predicate ParamsOk(depth: nat, burst: nat)
  {
    Popcnt(depth) == 1 && depth <= ParamMax && 2 <= burst <= ParamMax
  }

  /** Sizes and alignments of the header and slot records, and the size of
      one payload buffer; all of them are fixed by headers outside this
      model, so they are parameters here. */
  datatype LayoutParams = LayoutParams(
    hdrAlign: nat, hdrSz: nat, slotAlign: nat, slotSz: nat, chunkMtu: nat)

  predicate LayoutParamsOk(lp: LayoutParams)
  {
    lp.hdrAlign > 0 && lp.slotAlign > 0 && lp.chunkMtu >= TxnMtu
  }

  /** Offsets of the three arrays from the header, and the total size. */
  datatype Layout = Layout(pubSlotsOff: nat, slotsOff: nat, chunksOff: nat, size: nat)

  /** `x` rounded up to a multiple of `a`. */
  function AlignUp(x: nat, a: nat): (r: nat)
    requires a > 0
    ensures x <= r < x + a
    ensures r % a == 0
  {
    if x % a == 0 then x
    else
      RoundUpMod(x, a);
      x + (a - x % a)
  }

  lemma RoundUpMod(x: nat, a: nat)
    requires a > 0
    ensures (x + (a - x % a)) % a == 0
  {
    var q := x / a;
    assert x == q * a + x % a;
    assert x + (a - x % a) == (q + 1) * a;
    MultipleMod(q + 1, a);
  }

  lemma MultipleMod(q: nat, a: nat)
    requires a > 0
    ensures (q * a) % a == 0
  {
    var d := (q * a) / a;
    var m := (q * a) % a;
    assert a * (q - d) == m;
    if q > d {
      MulAtLeast(q - d, a);
    } else if q < d {
      MulAtLeast(d - q, a);
    }
  }

  lemma {:induction false} MulAtLeast(k: nat, a: nat)
    requires k >= 1
    ensures a * k >= a
  {
    if k > 1 {
      MulAtLeast(k - 1, a);
      assert a * k == a * (k - 1) + a;
    }
  }

  /** `n` records of `unit` bytes each, counted out by repeated addition so
      that the layout arithmetic stays linear. */
  function Times(n: nat, unit: nat): (t: nat)
    ensures n > 0 ==> t >= unit
  {
    if n == 0 then 0 else Times(n - 1, unit) + unit
  }

  /** The scratch-allocation sequence of `New`: header, `depth` uint map
      entries, `depth + burst` slot records, `depth + burst` payload buffers,
      each region aligned up to its own requirement, the total aligned up to
      the header's alignment. */
  function LayoutOf(depth: nat, burst: nat, lp: LayoutParams): (l: Layout)
    requires LayoutParamsOk(lp)
    ensures lp.hdrSz <= l.pubSlotsOff
    ensures l.pubSlotsOff + 4 * depth <= l.slotsOff
    ensures l.slotsOff + Times(depth + burst, lp.slotSz) <= l.chunksOff
    ensures l.chunksOff + Times(depth + burst, lp.chunkMtu) <= l.size
    ensures l.pubSlotsOff % 4 == 0 && l.slotsOff % lp.slotAlign == 0
    ensures l.size % lp.hdrAlign == 0 && l.chunksOff % ChunkAlign == 0
    ensures l.pubSlotsOff < lp.hdrSz + 4
    ensures l.slotsOff < l.pubSlotsOff + 4 * depth + lp.slotAlign
    ensures l.chunksOff < l.slotsOff + Times(depth + burst, lp.slotSz) + ChunkAlign
    ensures l.size < l.chunksOff + Times(depth + burst, lp.chunkMtu) + lp.hdrAlign
  {
    var cnt := depth + burst;
    var pubOff := AlignUp(lp.hdrSz, 4);
    var slotsOff := AlignUp(pubOff + 4 * depth, lp.slotAlign);
    var chunksOff := AlignUp(slotsOff + Times(cnt, lp.slotSz), ChunkAlign);
    Layout(pubOff, slotsOff, chunksOff, AlignUp(chunksOff + Times(cnt, lp.chunkMtu), lp.hdrAlign))
  }

  /** Only one multiple of `a` lies in `[x, x + a)`, so an aligned-up
      offset is fixed by its bounds. */
  lemma AlignedBetween(x: nat, a: nat, r: nat)
    requires a > 0 && x <= r < x + a && r % a == 0
    ensures r == AlignUp(x, a)
  {
    var s := AlignUp(x, a);
    MultiplesApart(r / a, s / a, a);
  }

  /** Two different multiples of `a` are at least `a` apart. */
  lemma MultiplesApart(p: nat, q: nat, a: nat)
    requires a > 0
    ensures p < q ==> p * a + a <= q * a
    ensures q < p ==> q * a + a <= p * a
  {
    if p < q {
      MulAtLeast(q - p, a);
      assert q * a - p * a == (q - p) * a;
    } else if q < p {
      MulAtLeast(p - q, a);
      assert p * a - q * a == (p - q) * a;
    }
  }

  /** The bounds in `LayoutOf`'s contract pin every offset: any layout that
      is aligned, follows the previous region and wastes less than one
      alignment unit before each region is the layout `new` carves out. */
  lemma LayoutOfUnique(depth: nat, burst: nat, lp: LayoutParams, l: Layout)
    requires LayoutParamsOk(lp)
    requires lp.hdrSz <= l.pubSlotsOff < lp.hdrSz + 4 && l.pubSlotsOff % 4 == 0
    requires l.pubSlotsOff + 4 * depth <= l.slotsOff < l.pubSlotsOff + 4 * depth + lp.slotAlign
    requires l.slotsOff % lp.slotAlign == 0
    requires l.slotsOff + Times(depth + burst, lp.slotSz) <= l.chunksOff
    requires l.chunksOff < l.slotsOff + Times(depth + burst, lp.slotSz) + ChunkAlign
    requires l.chunksOff % ChunkAlign == 0
    requires l.chunksOff + Times(depth + burst, lp.chunkMtu) <= l.size
    requires l.size < l.chunksOff + Times(depth + burst, lp.chunkMtu) + lp.hdrAlign
    requires l.size % lp.hdrAlign == 0
    ensures l == LayoutOf(depth, burst, lp)
  {
    var cnt := depth + burst;
    AlignedBetween(lp.hdrSz, 4, l.pubSlotsOff);
    AlignedBetween(l.pubSlotsOff + 4 * depth, lp.slotAlign, l.slotsOff);
    AlignedBetween(l.slotsOff + Times(cnt, lp.slotSz), ChunkAlign, l.chunksOff);
    AlignedBetween(l.chunksOff + Times(cnt, lp.chunkMtu), lp.hdrAlign, l.size);
  }

  /** `fd_tpu_reasm_footprint`: the region size, 0 for unusable parameters. */
  function Footprint(depth: nat, burst: nat, lp: LayoutParams): (f: nat)
    requires LayoutParamsOk(lp)
    ensures f == 0 <==> !ParamsOk(depth, burst)
    ensures f > 0 ==> f == LayoutOf(depth, burst, lp).size && f % lp.hdrAlign == 0
  {
    if !ParamsOk(depth, burst) then 0 else LayoutOf(depth, burst, lp).size
  }

  // ---------------------------------------------------------------------
  // Shape and the reset distribution
  // ---------------------------------------------------------------------

  /** Array sizes agree with the header; the queue sentinel is not a slot
      index; every payload buffer holds at least an MTU; sizes fit the
      `ushort` field. */
  predicate Shaped(r: Reasm)
  {
    && 1 <= r.depth && 2 <= r.burst
    && r.slotCnt == r.depth + r.burst
    && r.slotCnt < Nil
    && |r.pubSlots| == r.depth
    && |r.sq.slots| == r.slotCnt
    && |r.chunks| == r.slotCnt
    && (forall i :: 0 <= i < r.slotCnt ==> |r.chunks[i]| >= TxnMtu)
    && (forall i :: 0 <= i < r.slotCnt ==> r.sq.slots[i].sz <= UshortMax)
  }

  /** Two pools have the same header scalars. */
  predicate SameHeader(a: Reasm, b: Reasm)
  {
    && a.magic == b.magic && a.depth == b.depth && a.burst == b.burst
    && a.slotCnt == b.slotCnt && a.orig == b.orig && a.layout == b.layout
  }

  /** Two pools agree on everything except slot states, queue links and the
      line map. */
  predicate SameBodies(a: Reasm, b: Reasm)
  {
    && SameHeader(a, b)
    && a.chunks == b.chunks
    && |a.sq.slots| == |b.sq.slots|
    && (forall i :: 0 <= i < |a.sq.slots| ==>
          a.sq.slots[i].sz == b.sq.slots[i].sz
          && a.sq.slots[i].tsorig == b.sq.slots[i].tsorig
          && a.sq.slots[i].connId == b.sq.slots[i].connId
          && a.sq.slots[i].streamId == b.sq.slots[i].streamId)
  }

  /** The initial slot distribution: the first `depth` slots are PUB and own
      the mcache line of the same number; the other `burst` slots are FREE and
      chained from `slotCnt-1` (head side) down to `depth` (tail side). */
  predicate InitialDistribution(r: Reasm)
  {
    && Shaped(r)
    && (forall j :: 0 <= j < r.depth ==> r.sq.slots[j].state == Pub && r.pubSlots[j] == j)
    && (forall j :: r.depth <= j < r.slotCnt ==> r.sq.slots[j].state == Free)
    && (forall j :: r.depth <= j < r.slotCnt - 1 ==> r.sq.slots[j].prevIdx == j + 1)
    && (forall j :: r.depth < j < r.slotCnt ==> r.sq.slots[j].nextIdx == j - 1)
    && r.sq.slots[r.slotCnt - 1].prevIdx == Nil
    && r.sq.slots[r.depth].nextIdx == Nil
  }

  /** `fd_tpu_reasm_reset` as written: rebuilds states, links and the map but
      leaves the queue's head and tail indices as they were. */
  function ResetAsWritten(r: Reasm): (r': Reasm)
    requires Shaped(r)
    ensures InitialDistribution(r') && SameBodies(r, r')
    ensures r'.sq.head == r.sq.head && r'.sq.tail == r.sq.tail
  {
    r.(sq := r.sq.(slots := InitialSlots(r.sq.slots, r.depth)), pubSlots := seq(r.depth, j => j))
  }

  /** The slot array of the initial distribution built over `slots`: the
      first `d` slots PUB, the rest FREE and chained from the last slot
      down to slot `d`; sizes, timestamps and correlation fields kept. */
  function InitialSlots(slots: seq<Slot>, d: nat): (s': seq<Slot>)
    requires d < |slots|
    ensures |s'| == |slots|
    ensures forall j :: 0 <= j < d ==> s'[j].state == Pub
    ensures forall j :: d <= j < |slots| ==> s'[j].state == Free
    ensures forall j :: d <= j < |slots| - 1 ==> s'[j].prevIdx == j + 1
    ensures forall j :: d < j < |slots| ==> s'[j].nextIdx == j - 1
    ensures s'[|slots| - 1].prevIdx == Nil && s'[d].nextIdx == Nil
    ensures forall j :: 0 <= j < |slots| ==>
              s'[j].sz == slots[j].sz && s'[j].tsorig == slots[j].tsorig
              && s'[j].connId == slots[j].connId && s'[j].streamId == slots[j].streamId
  {
    var cnt := |slots|;
    seq(cnt, j requires 0 <= j < cnt =>
      if j < d then slots[j].(state := Pub)
      else slots[j].(state := Free,
                     prevIdx := if j < cnt - 1 then j + 1 else Nil,
                     nextIdx := if j > d then j - 1 else Nil))
  }

  /** Reset with the queue ends restored as well: the head is the last slot
      and the tail is slot `depth`, which is what the rebuilt chain needs. */
  function Reset(r: Reasm): (r': Reasm)
    requires Shaped(r)
    ensures InitialDistribution(r') && SameBodies(r, r')
    ensures r'.sq.head == r.slotCnt - 1 && r'.sq.tail == r.depth
  {
    var w := ResetAsWritten(r);
    w.(sq := w.sq.(head := r.slotCnt - 1, tail := r.depth))
  }

  // ---------------------------------------------------------------------
  // Life cycle: new, join, leave, delete
  // ---------------------------------------------------------------------

  /** The caller's memory handed to `New`: its address and the prior contents
      of the slot records and payload buffers (the payload region is never
      cleared, and the slot region only partly). */
  datatype Region = Region(addr: nat, slots: seq<Slot>, chunks: seq<seq<byte>>)

  predicate RegionFits(m: Region, cnt: nat)
  {
    && |m.slots| == cnt && |m.chunks| == cnt
    && (forall i :: 0 <= i < cnt ==> |m.chunks[i]| >= TxnMtu)
    && (forall i :: 0 <= i < cnt ==> m.slots[i].sz <= UshortMax)
  }

  const ZeroSlot: Slot := Slot(Free, 0, 0, 0, 0, 0, 0)

  /** The pool `fd_tpu_reasm_new` has built just before it stores the magic
      value: header zeroed and filled in, the first `burst` slot records
      zeroed, head/tail set, then the reset distribution.  `origInclusive`
      selects the origin bound: `orig <= FragMetaOrigMax` as written, or the
      strict bound. */
  function Build(m: Region, depth: nat, burst: nat, orig: nat, lp: LayoutParams): (r: Reasm)
    requires LayoutParamsOk(lp) && ParamsOk(depth, burst) && RegionFits(m, depth + burst)
    ensures InitialDistribution(r) && r.magic == 0
    ensures r.depth == depth && r.burst == burst && r.slotCnt == depth + burst && r.orig == orig
    ensures r.sq.head == depth + burst - 1 && r.sq.tail == depth
    ensures r.layout == LayoutOf(depth, burst, lp) && r.chunks == m.chunks
  {
    var cnt := depth + burst;
    var slots := seq(cnt, j requires 0 <= j < cnt => if j < burst then ZeroSlot else m.slots[j]);
    var r0 := Reasm(0, depth, burst, cnt, orig, LayoutOf(depth, burst, lp),
                    SlotQueue(slots, cnt - 1, depth), seq(depth, j => 0), m.chunks);
    ResetAsWritten(r0)
  }

  /** `fd_tpu_reasm_new` with either origin bound: `origInclusive` admits
      `orig == FragMetaOrigMax`, as the code does. */
  function NewWith(m: Region, depth: nat, burst: nat, orig: nat, lp: LayoutParams,
                   origInclusive: bool): (o: Option<Reasm>)
    requires LayoutParamsOk(lp)
    requires ParamsOk(depth, burst) ==> RegionFits(m, depth + burst)
    ensures o.Some? <==> m.addr != 0 && m.addr % lp.hdrAlign == 0 && ParamsOk(depth, burst)
                         && (orig < FragMetaOrigMax || (origInclusive && orig == FragMetaOrigMax))
    ensures o.Some? ==>
      && InitialDistribution(o.value) && o.value.magic == Magic
      && o.value.depth == depth && o.value.burst == burst
      && o.value.slotCnt == depth + burst && o.value.orig == orig
      && o.value.sq.head == depth + burst - 1 && o.value.sq.tail == depth
      && o.value.layout == LayoutOf(depth, burst, lp) && o.value.chunks == m.chunks
  {
    if m.addr == 0 then None
    else if m.addr % lp.hdrAlign != 0 then None
    else if Footprint(depth, burst, lp) == 0 then None
    else if (if origInclusive then orig > FragMetaOrigMax else orig >= FragMetaOrigMax) then None
    else Some(Build(m, depth, burst, orig, lp).(magic := Magic))
  }

  /** `fd_tpu_reasm_new` as written: the origin bound admits
      `orig == FragMetaOrigMax`. */
  function NewAsWritten(m: Region, depth: nat, burst: nat, orig: nat, lp: LayoutParams): (o: Option<Reasm>)
    requires LayoutParamsOk(lp)
    requires ParamsOk(depth, burst) ==> RegionFits(m, depth + burst)
    ensures o.Some? <==> m.addr != 0 && m.addr % lp.hdrAlign == 0 && ParamsOk(depth, burst)
                         && orig <= FragMetaOrigMax
  {
    NewWith(m, depth, burst, orig, lp, true)
  }

  /** `fd_tpu_reasm_new` with the origin bound the ctl encoding can carry. */
  function New(m: Region, depth: nat, burst: nat, orig: nat, lp: LayoutParams): (o: Option<Reasm>)
    requires LayoutParamsOk(lp)
    requires ParamsOk(depth, burst) ==> RegionFits(m, depth + burst)
    ensures o.Some? <==> m.addr != 0 && m.addr % lp.hdrAlign == 0 && ParamsOk(depth, burst)
                         && orig < FragMetaOrigMax
    ensures o.Some? ==>
      && InitialDistribution(o.value) && o.value.magic == Magic
      && o.value.depth == depth && o.value.burst == burst
      && o.value.slotCnt == depth + burst && o.value.orig == orig
      && o.value.sq.head == depth + burst - 1 && o.value.sq.tail == depth
  {
    NewWith(m, depth, burst, orig, lp, false)
  }

  /** `fd_tpu_reasm_join`: accepted only when the marker is present. */
  function Join(r: Reasm): (o: Option<Reasm>)
    ensures o.Some? <==> r.magic == Magic
    ensures o.Some? ==> o.value == r
  {
    if r.magic != Magic then None else Some(r)
  }

  /** `fd_tpu_reasm_leave`: hands the region back unchanged. */
  function Leave(r: Reasm): (r': Reasm)
    ensures r' == r
    ensures Join(r').Some? <==> Join(r).Some?
  {
    r
  }

  /** `fd_tpu_reasm_delete`: clears the marker of a non-null region. */
  function Delete(o: Option<Reasm>): (o': Option<Reasm>)
    ensures o.None? <==> o'.None?
    ensures o'.Some? ==> o'.value.magic == 0 && o'.value == o.value.(magic := 0)
  {
    match o
    case None => None
    case Some(r) => Some(r.(magic := 0))
  }

  // ---------------------------------------------------------------------
  // Writer operations
  // ---------------------------------------------------------------------

  /** `fd_tpu_reasm_prepare`: reuse the least recently touched queued slot,
      begin it (BUSY, empty) and move it to the head. */
  function Prepare(r: Reasm, tsorig: nat): (res: (Reasm, nat))
    requires Shaped(r) && r.sq.tail < r.slotCnt
    ensures var (r', s) := res;
      && s == r.sq.tail && r'.(sq := r.sq) == r && |r'.sq.slots| == r.slotCnt && Shaped(r')
      && r'.sq.slots[s].state == Busy && r'.sq.slots[s].sz == 0
      && r'.sq.slots[s].tsorig == tsorig % 0x1_0000_0000 && r'.sq.head == s
      && (forall i :: 0 <= i < r.slotCnt && i != s ==> SameBody(r'.sq.slots[i], r.sq.slots[i]))
  {
    var (sq1, s) := PopTail(r.sq);
    var sq2 := sq1.(slots := sq1.slots[s := sq1.slots[s].(state := Busy, sz := 0)]);
    var sq3 := PushHead(sq2, s);
    var sq4 := sq3.(slots := sq3.slots[s := sq3.slots[s].(tsorig := tsorig % 0x1_0000_0000)]);
    (r.(sq := sq4), s)
  }

  /** `fd_tpu_reasm_cancel`: a FREE slot is left alone; otherwise the slot is
      unlinked, freed, its correlation fields cleared, and queued at the tail
      so that it is reused first. */
  function Cancel(r: Reasm, s: nat): (r': Reasm)
    requires Shaped(r) && s < r.slotCnt
    ensures SameHeader(r, r') && Shaped(r') && r'.sq.slots[s].state == Free
    ensures r.sq.slots[s].state == Free ==> r' == r
    ensures r.sq.slots[s].state != Free ==>
      && r'.sq.tail == s
      && r'.sq.slots[s].connId == 0 && r'.sq.slots[s].streamId == 0
      && r'.sq.slots[s].sz == r.sq.slots[s].sz
      && r'.(sq := r.sq) == r
      && (forall i :: 0 <= i < r.slotCnt && i != s ==> SameBody(r'.sq.slots[i], r.sq.slots[i]))
  {
    if r.sq.slots[s].state == Free then r
    else
      var sq1 := Remove(r.sq, s);
      var sq2 := sq1.(slots := sq1.slots[s := sq1.slots[s].(state := Free, connId := 0, streamId := 0)]);
      r.(sq := PushTail(sq2, s))
  }

  /** `fd_tpu_reasm_append`: add the fragment `data` that the transport
      places at message offset `off` to BUSY slot `s`. */
  function Append(r: Reasm, s: nat, data: seq<byte>, off: nat): (res: (Reasm, Code))
    requires Shaped(r) && s < r.slotCnt
    requires |data| <= UlongMax && off <= UlongMax
    ensures SameHeader(r, res.0) && Shaped(res.0)
    ensures r.sq.slots[s].state != Busy ==> res == (r, ErrState)
    ensures r.sq.slots[s].state == Busy && off > r.sq.slots[s].sz ==> res == (Cancel(r, s), ErrSkip)
    ensures (r.sq.slots[s].state == Busy && off < r.sq.slots[s].sz
             && r.sq.slots[s].sz - off > |data|) ==> res == (r, Success)
    ensures (r.sq.slots[s].state == Busy && off <= r.sq.slots[s].sz
             && r.sq.slots[s].sz - off <= |data|) ==>
      var sz0 := r.sq.slots[s].sz;
      var frag := data[sz0 - off..];
      && (sz0 + |frag| > TxnMtu ==> res == (Cancel(r, s), ErrSz))
      && (sz0 + |frag| <= TxnMtu ==>
            && res.1 == Success
            && res.0.sq.slots[s] == r.sq.slots[s].(sz := sz0 + |frag|)
            && res.0.chunks[s] == r.chunks[s][..sz0] + frag + r.chunks[s][sz0 + |frag|..]
            && res.0 == r.(sq := res.0.sq, chunks := r.chunks[s := res.0.chunks[s]])
            && res.0.sq == r.sq.(slots := r.sq.slots[s := res.0.sq.slots[s]]))
  {
    var slot := r.sq.slots[s];
    if slot.state != Busy then (r, ErrState)
    else if off > slot.sz then (Cancel(r, s), ErrSkip)
    else if off < slot.sz && slot.sz - off > |data| then (r, Success)
    else
      var frag := data[slot.sz - off..];
      var sz1 := AddWrap(slot.sz, |frag|);
      if sz1 < slot.sz || sz1 > TxnMtu then (Cancel(r, s), ErrSz)
      else
        var chunk := r.chunks[s][..slot.sz] + frag + r.chunks[s][sz1..];
        (r.(sq := r.sq.(slots := r.sq.slots[s := slot.(sz := sz1)]), chunks := r.chunks[s := chunk]),
         Success)
  }

  // ---------------------------------------------------------------------
  // Publishing to the mcache
  // ---------------------------------------------------------------------

  /** One mcache line (the fields the publish path writes). */
  datatype FragMeta = FragMeta(seqNo: nat, chunk: nat, sz: nat, ctl: nat, tsorig: nat, tspub: nat)

  /** One store into an mcache line. */
  datatype MetaWrite =
    | WriteSeq(v: nat) | WriteChunk(v: nat) | WriteSz(v: nat)
    | WriteCtl(v: nat) | WriteTsorig(v: nat) | WriteTspub(v: nat)

  function ApplyWrite(m: FragMeta, w: MetaWrite): FragMeta
  {
    match w
    case WriteSeq(v) => m.(seqNo := v)
    case WriteChunk(v) => m.(chunk := v)
    case WriteSz(v) => m.(sz := v)
    case WriteCtl(v) => m.(ctl := v)
    case WriteTsorig(v) => m.(tsorig := v)
    case WriteTspub(v) => m.(tspub := v)
  }

  /** The line after the stores `ws`, in order. */
  function ApplyWrites(m: FragMeta, ws: seq<MetaWrite>): FragMeta
    decreases |ws|
  {
    if ws == [] then m else ApplyWrites(ApplyWrite(m, ws[0]), ws[1..])
  }

  /** `fd_frag_meta_ctl`: som, eom and err flags in bits 0-2, origin above. */
  function Ctl(orig: nat, som: bool, eom: bool, err: bool): (c: nat)
    ensures CtlOrig(c) == orig
    ensures var flags := c % 8; (flags % 2 == 1 <==> som) && (flags / 2 % 2 == 1 <==> eom) && (flags / 4 == 1 <==> err)
  {
    var flags := (if som then 1 else 0) + (if eom then 2 else 0) + (if err then 4 else 0);
    SplitByEight(orig, flags);
    flags + 8 * orig
  }

  /** A value below 8 added to a multiple of 8 comes back out of `/ 8` and
      `% 8` unchanged. */
  lemma SplitByEight(q: nat, b: nat)
    requires b < 8
    ensures (b + 8 * q) / 8 == q && (b + 8 * q) % 8 == b
  {
  }

  /** The origin a consumer reads back from a 16-bit ctl field. */
  function CtlOrig(ctl: nat): nat
  {
    ctl / 8
  }

  /** The scalar publish sequence: an in-progress sequence number first,
      then the body fields truncated to their widths, the sequence number
      itself last. */
  function PublishWrites(seqNo: nat, chunk: nat, sz: nat, ctl: nat, tsorig: nat, tspub: nat): (ws: seq<MetaWrite>)
    requires seqNo <= UlongMax
    ensures |ws| == 7 && ws[0] == WriteSeq(SeqDec(seqNo)) && ws[6] == WriteSeq(seqNo)
    ensures ws[0] != ws[6]
    ensures forall k :: 0 < k < 6 ==> !ws[k].WriteSeq?
    ensures forall k :: 0 < k < 6 ==> ws[k].v < (if ws[k].WriteSz? || ws[k].WriteCtl? then 0x1_0000 else 0x1_0000_0000)
  {
    [ WriteSeq(SeqDec(seqNo)),
      WriteChunk(chunk % 0x1_0000_0000),
      WriteSz(sz % 0x1_0000),
      WriteCtl(ctl % 0x1_0000),
      WriteTsorig(tsorig % 0x1_0000_0000),
      WriteTspub(tspub % 0x1_0000_0000),
      WriteSeq(seqNo) ]
  }

  /** `fd_mcache_line_idx`: `seq & (depth-1)`, i.e. `seq mod depth` for the
      power-of-two depths the pool accepts. */
  function LineIdx(seqNo: nat, depth: nat): (l: nat)
    requires depth >= 1
    ensures l < depth
  {
    seqNo % depth
  }

  datatype PublishResult = PublishResult(
    reasm: Reasm, mcache: seq<FragMeta>, writes: seq<MetaWrite>, code: Code)

  /** Publish's first step: unlink slot `s`, mark it PUB and record it as the
      owner of mcache line `line`. */
  function MarkPublished(r: Reasm, s: nat, line: nat): (r': Reasm)
    requires Shaped(r) && s < r.slotCnt && line < r.depth
    ensures SameHeader(r, r') && Shaped(r') && r'.chunks == r.chunks
    ensures r'.pubSlots == r.pubSlots[line := s]
    ensures r'.sq.slots[s].state == Pub
    ensures forall i :: 0 <= i < r.slotCnt && i != s ==> r'.sq.slots[i].state == r.sq.slots[i].state
    ensures forall i :: 0 <= i < r.slotCnt ==> SameBody(r'.sq.slots[i], r.sq.slots[i].(state := r'.sq.slots[i].state))
  {
    var sq1 := Remove(r.sq, s);
    r.(sq := sq1.(slots := sq1.slots[s := sq1.slots[s].(state := Pub)]), pubSlots := r.pubSlots[line := s])
  }

  /** Publish's second step: free the line's previous owner `v` and queue it
      at the tail, so that it is the next slot `Prepare` reuses. */
  function FreeVictim(r: Reasm, v: nat): (r': Reasm)
    requires Shaped(r) && v < r.slotCnt
    ensures SameHeader(r, r') && Shaped(r') && r'.chunks == r.chunks && r'.pubSlots == r.pubSlots
    ensures r'.sq.slots[v].state == Free && r'.sq.tail == v
    ensures forall i :: 0 <= i < r.slotCnt && i != v ==> r'.sq.slots[i].state == r.sq.slots[i].state
    ensures forall i :: 0 <= i < r.slotCnt ==> SameBody(r'.sq.slots[i], r.sq.slots[i].(state := r'.sq.slots[i].state))
  {
    var sq1 := r.sq.(slots := r.sq.slots[v := r.sq.slots[v].(state := Free)]);
    r.(sq := PushTail(sq1, v))
  }

  /** The reset publish runs on detecting corruption: the one with the
      queue ends restored, or the one as written. */
  function Heal(r: Reasm, restoreEnds: bool): (r': Reasm)
    requires Shaped(r)
    ensures InitialDistribution(r') && SameBodies(r, r')
  {
    if restoreEnds then Reset(r) else ResetAsWritten(r)
  }

  /** The publish path, parameterised by the reset it uses to heal. */
  function PublishWith(r: Reasm, s: nat, mcache: seq<FragMeta>, chunk: nat, seqNo: nat, tspub: nat,
                       restoreEnds: bool): (res: PublishResult)
    requires Shaped(r) && s < r.slotCnt && |mcache| == r.depth
    requires chunk <= UintMax && seqNo <= UlongMax
    ensures SameHeader(r, res.reasm) && Shaped(res.reasm) && |res.mcache| == |mcache|
    ensures res.code == Success || res.code == ErrState
    ensures r.sq.slots[s].state != Busy ==> res == PublishResult(r, mcache, [], ErrState)
    ensures r.sq.slots[s].state == Busy && res.code == ErrState ==>
      && InitialDistribution(res.reasm) && res.mcache == mcache && res.writes == []
    ensures r.sq.slots[s].state == Busy ==>
      var victim := r.pubSlots[LineIdx(seqNo, r.depth)];
      (res.code == Success <==>
         victim < r.slotCnt && (victim == s || r.sq.slots[victim].state == Pub))
    ensures res.code == Success ==>
      var line := LineIdx(seqNo, r.depth);
      && res.reasm == FreeVictim(MarkPublished(r, s, line), r.pubSlots[line])
      && res.writes == PublishWrites(seqNo, chunk, r.sq.slots[s].sz, Ctl(r.orig, true, true, false),
                                     r.sq.slots[s].tsorig, tspub)
      && res.mcache == mcache[line := ApplyWrites(mcache[line], res.writes)]
  {
    var slot := r.sq.slots[s];
    if slot.state != Busy then PublishResult(r, mcache, [], ErrState)
    else
      var line := LineIdx(seqNo, r.depth);
      var victim := r.pubSlots[line];
      if victim >= r.slotCnt then PublishResult(Heal(r, restoreEnds), mcache, [], ErrState)
      else
        var r2 := MarkPublished(r, s, line);
        if r2.sq.slots[victim].state != Pub then PublishResult(Heal(r2, restoreEnds), mcache, [], ErrState)
        else
          var ws := PublishWrites(seqNo, chunk, slot.sz, Ctl(r.orig, true, true, false), slot.tsorig, tspub);
          PublishResult(FreeVictim(r2, victim), mcache[line := ApplyWrites(mcache[line], ws)], ws, Success)
  }

  /** `fd_tpu_reasm_publish` as written: it heals with `ResetAsWritten`, so
      the queue's head and tail keep whatever values they had. */
  function PublishAsWritten(r: Reasm, s: nat, mcache: seq<FragMeta>, chunk: nat, seqNo: nat, tspub: nat)
    : (res: PublishResult)
    requires Shaped(r) && s < r.slotCnt && |mcache| == r.depth
    requires chunk <= UintMax && seqNo <= UlongMax
    ensures r.sq.slots[s].state == Busy && r.pubSlots[LineIdx(seqNo, r.depth)] >= r.slotCnt ==>
      && res.code == ErrState && res.reasm == ResetAsWritten(r)
      && res.reasm.sq.head == r.sq.head && res.reasm.sq.tail == r.sq.tail
  {
    PublishWith(r, s, mcache, chunk, seqNo, tspub, false)
  }

  /** `fd_tpu_reasm_publish` (scalar path), healing with the reset that also
      restores the queue ends: hand BUSY slot `s`, whose payload is at
      `chunk`, to mcache line `seqNo mod depth`, freeing the slot that line
      referenced before.  A map entry out of range, or naming a slot that is
      not PUB once `s` has been marked, is treated as corruption. */
  function Publish(r: Reasm, s: nat, mcache: seq<FragMeta>, chunk: nat, seqNo: nat, tspub: nat)
    : (res: PublishResult)
    requires Shaped(r) && s < r.slotCnt && |mcache| == r.depth
    requires chunk <= UintMax && seqNo <= UlongMax
    ensures SameHeader(r, res.reasm) && Shaped(res.reasm)
    ensures r.sq.slots[s].state != Busy ==> res == PublishResult(r, mcache, [], ErrState)
    ensures r.sq.slots[s].state == Busy && res.code != Success ==>
      && res.code == ErrState && InitialDistribution(res.reasm)
      && res.reasm.sq.head == r.slotCnt - 1 && res.reasm.sq.tail == r.depth
      && res.mcache == mcache && res.writes == []
    ensures r.sq.slots[s].state == Busy ==>
      var victim := r.pubSlots[LineIdx(seqNo, r.depth)];
      (res.code == Success <==>
         victim < r.slotCnt && (victim == s || r.sq.slots[victim].state == Pub))
    ensures res.code == Success ==>
      var line := LineIdx(seqNo, r.depth);
      && res.reasm == FreeVictim(MarkPublished(r, s, line), r.pubSlots[line])
      && res.writes == PublishWrites(seqNo, chunk, r.sq.slots[s].sz, Ctl(r.orig, true, true, false),
                                     r.sq.slots[s].tsorig, tspub)
      && res.mcache == mcache[line := ApplyWrites(mcache[line], res.writes)]
  {
    PublishWith(r, s, mcache, chunk, seqNo, tspub, true)
  }
}
