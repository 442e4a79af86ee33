/** Properties of the TPU reassembly pool: the pool invariant, its
    establishment by `New` and `Reset`, its preservation by every writer
    operation, slot conservation, and the order of the mcache stores. */
module TpuReasmProps {
  import opened Bytes
  import opened Wrappers
  import opened ReasmQueue
  import opened TpuReasm

  /** The pool invariant, with `q` the slot queue listed head to tail:
      the queue holds exactly the slots that are not PUB (`burst` of them),
      the line map is a bijection from the `depth` lines onto the PUB slots,
      and a BUSY slot never holds more than an MTU. */
  predicate Valid(r: Reasm, q: seq<nat>)
  {
    && Shaped(r) && ParamsOk(r.depth, r.burst)
    && Links(r.sq, q)
    && |q| == r.burst
    && QueueHoldsUnpublished(r, q)
    && MapNamesPublished(r)
    && BusyWithinMtu(r)
  }

  /** A slot is queued exactly when it is not PUB. */
  predicate QueueHoldsUnpublished(r: Reasm, q: seq<nat>)
    requires |r.sq.slots| == r.slotCnt
  {
    forall i :: 0 <= i < r.slotCnt ==> (r.sq.slots[i].state != Pub <==> i in q)
  }

  /** Every line names a distinct PUB slot, and every PUB slot is named. */
  predicate MapNamesPublished(r: Reasm)
    requires Shaped(r)
  {
    && (forall l :: 0 <= l < r.depth ==>
          r.pubSlots[l] < r.slotCnt && r.sq.slots[r.pubSlots[l]].state == Pub)
    && (forall l, m :: 0 <= l < m < r.depth ==> r.pubSlots[l] != r.pubSlots[m])
    && (forall i :: 0 <= i < r.slotCnt && r.sq.slots[i].state == Pub ==> i in r.pubSlots)
  }

  /** No BUSY slot has gathered more than an MTU. */
  predicate BusyWithinMtu(r: Reasm)
    requires |r.sq.slots| == r.slotCnt
  {
    forall i :: 0 <= i < r.slotCnt && r.sq.slots[i].state == Busy ==> r.sq.slots[i].sz <= TxnMtu
  }

  /** The queue of the initial distribution: slots `slotCnt-1` down to
      `depth`. */
  function InitQueue(depth: nat, cnt: nat): (q: seq<nat>)
    requires depth <= cnt
    ensures |q| == cnt - depth
    ensures forall k :: 0 <= k < |q| ==> q[k] == cnt - 1 - k
  {
    seq(cnt - depth, k requires 0 <= k < cnt - depth => cnt - 1 - k)
  }

  // ---------------------------------------------------------------------
  // Parameters
  // ---------------------------------------------------------------------

  /** The footprint's popcount test accepts exactly the powers of two. */
  lemma {:induction false} PopcntOneIffPow2(x: nat)
    ensures Popcnt(x) == 1 <==> IsPow2(x)
  {
    if Popcnt(x) == 1 {
      PopcntOneIsPow2(x);
    }
    if IsPow2(x) {
      var k: nat :| Pow2(k) == x;
      PopcntPow2(k);
    }
  }

  lemma {:induction false} PopcntPow2(k: nat)
    ensures Popcnt(Pow2(k)) == 1
  {
    if k > 0 {
      PopcntPow2(k - 1);
      assert Pow2(k) / 2 == Pow2(k - 1) && Pow2(k) % 2 == 0;
    }
  }

  lemma {:induction false} PopcntZero(x: nat)
    requires Popcnt(x) == 0
    ensures x == 0
  {
    if x != 0 {
      PopcntZero(x / 2);
    }
  }

  lemma {:induction false} PopcntOneIsPow2(x: nat)
    requires Popcnt(x) == 1
    ensures IsPow2(x)
  {
    if x % 2 == 1 {
      PopcntZero(x / 2);
      assert Pow2(0) == x;
    } else {
      PopcntOneIsPow2(x / 2);
      var k: nat :| Pow2(k) == x / 2;
      assert Pow2(k + 1) == x;
    }
  }

  // ---------------------------------------------------------------------
  // Establishing the invariant
  // ---------------------------------------------------------------------

  /** The initial distribution, with the queue ends at `slotCnt-1` and
      `depth`, satisfies the invariant with the initial queue. */
  lemma InitialValid(r: Reasm)
    requires InitialDistribution(r) && ParamsOk(r.depth, r.burst)
    requires r.sq.head == r.slotCnt - 1 && r.sq.tail == r.depth
    ensures Valid(r, InitQueue(r.depth, r.slotCnt))
  {
    InitialLinks(r);
    InitialMembers(r);
  }

  /** The initial queue runs from `slotCnt-1` down to `depth`. */
  lemma InitialLinks(r: Reasm)
    requires InitialDistribution(r)
    requires r.sq.head == r.slotCnt - 1 && r.sq.tail == r.depth
    ensures Links(r.sq, InitQueue(r.depth, r.slotCnt))
  {
    var d := r.depth;
    var cnt := r.slotCnt;
    var q := InitQueue(d, cnt);
    forall k | 0 <= k < |q| - 1
      ensures r.sq.slots[q[k]].nextIdx == q[k + 1]
    {
      assert q[k] > d;
    }
    forall k | 0 < k < |q|
      ensures r.sq.slots[q[k]].prevIdx == q[k - 1]
    {
      assert q[k] < cnt - 1;
    }
  }

  /** In the initial distribution the queued slots are exactly the FREE
      ones and every PUB slot is named by its own line. */
  lemma InitialMembers(r: Reasm)
    requires InitialDistribution(r)
    ensures var q := InitQueue(r.depth, r.slotCnt);
      && QueueHoldsUnpublished(r, q)
      && (forall i :: 0 <= i < r.slotCnt && r.sq.slots[i].state == Pub ==> i in r.pubSlots)
  {
    var d := r.depth;
    var cnt := r.slotCnt;
    var q := InitQueue(d, cnt);
    forall i | 0 <= i < cnt
      ensures r.sq.slots[i].state != Pub <==> i in q
    {
      if i >= d {
        assert q[cnt - 1 - i] == i;
      }
    }
    forall i | 0 <= i < cnt && r.sq.slots[i].state == Pub
      ensures i in r.pubSlots
    {
      assert r.pubSlots[i] == i;
    }
  }

  /** `Reset` turns any well-shaped pool with valid parameters, however
      corrupted its states, links and map, into a valid one. */
  lemma ResetValid(r: Reasm)
    requires Shaped(r) && ParamsOk(r.depth, r.burst)
    ensures Valid(Reset(r), InitQueue(r.depth, r.slotCnt))
  {
    InitialValid(Reset(r));
  }

  /** A pool fresh from `New` is valid, with the initial queue. */
  lemma NewValid(m: Region, depth: nat, burst: nat, orig: nat, lp: LayoutParams)
    requires LayoutParamsOk(lp)
    requires ParamsOk(depth, burst) ==> RegionFits(m, depth + burst)
    requires New(m, depth, burst, orig, lp).Some?
    ensures Valid(New(m, depth, burst, orig, lp).value, InitQueue(depth, depth + burst))
  {
    InitialValidAt(New(m, depth, burst, orig, lp).value, depth, burst);
  }

  /** `InitialValid` for a pool whose sizes are given. */
  lemma InitialValidAt(r: Reasm, depth: nat, burst: nat)
    requires InitialDistribution(r) && ParamsOk(depth, burst)
    requires r.depth == depth && r.burst == burst && r.slotCnt == depth + burst
    requires r.sq.head == depth + burst - 1 && r.sq.tail == depth
    ensures Valid(r, InitQueue(depth, depth + burst))
  {
    InitialValid(r);
    assert InitQueue(depth, depth + burst) == InitQueue(r.depth, r.slotCnt);
  }

  /** The marker is the last store of `New`: the pool as it stands just
      before that store cannot be joined, the finished one can, and deleting
      it makes joins fail again. */
  lemma NewMarkerLast(m: Region, depth: nat, burst: nat, orig: nat, lp: LayoutParams)
    requires LayoutParamsOk(lp) && ParamsOk(depth, burst) && RegionFits(m, depth + burst)
    requires New(m, depth, burst, orig, lp).Some?
    ensures Join(Build(m, depth, burst, orig, lp)).None?
    ensures New(m, depth, burst, orig, lp) == Some(Build(m, depth, burst, orig, lp).(magic := Magic))
    ensures Join(New(m, depth, burst, orig, lp).value) == New(m, depth, burst, orig, lp)
    ensures Join(Delete(New(m, depth, burst, orig, lp)).value).None?
  {
  }

  /** Leaving and joining again gives back the same pool. */
  lemma JoinLeaveJoin(r: Reasm)
    requires Join(r).Some?
    ensures Join(Leave(Join(r).value)) == Join(r)
  {
  }

  // ---------------------------------------------------------------------
  // Conservation
  // ---------------------------------------------------------------------

  /** The elements of a sequence, as a set. */
  function Elems(s: seq<nat>): set<nat>
  {
    set x | x in s
  }

  /** The set of elements of a sequence without repeats has as many
      elements as the sequence. */
  lemma {:induction false} DistinctCard(s: seq<nat>)
    requires forall a, b :: 0 <= a < b < |s| ==> s[a] != s[b]
    ensures |Elems(s)| == |s|
  {
    if |s| > 0 {
      var t := s[1..];
      forall a, b | 0 <= a < b < |t|
        ensures t[a] != t[b]
      {
        assert t[a] == s[a + 1] && t[b] == s[b + 1];
      }
      DistinctCard(t);
      assert s[0] !in Elems(t) by {
        forall a | 0 <= a < |t|
          ensures t[a] != s[0]
        {
          assert t[a] == s[a + 1];
        }
      }
      assert Elems(s) == Elems(t) + {s[0]} by {
        forall x | x in Elems(s)
          ensures x in Elems(t) + {s[0]}
        {
          var k :| 0 <= k < |s| && s[k] == x;
          if k > 0 { assert t[k - 1] == x; }
        }
        forall x | x in Elems(t)
          ensures x in Elems(s)
        {
          var k :| 0 <= k < |t| && t[k] == x;
          assert s[k + 1] == x;
        }
      }
    }
  }

  /** The PUB slots of a pool. */
  function PubSet(r: Reasm): set<nat>
  {
    set i | 0 <= i < r.slotCnt && i < |r.sq.slots| && r.sq.slots[i].state == Pub
  }

  /** The FREE and BUSY slots of a pool. */
  function QueuedSet(r: Reasm): set<nat>
  {
    set i | 0 <= i < r.slotCnt && i < |r.sq.slots| && r.sq.slots[i].state != Pub
  }

  /** In a valid pool exactly `depth` slots are PUB and the other `burst`
      are FREE or BUSY: every operation that keeps the invariant therefore
      conserves both counts. */
  lemma SlotCounts(r: Reasm, q: seq<nat>)
    requires Valid(r, q)
    ensures |PubSet(r)| == r.depth
    ensures |QueuedSet(r)| == r.burst
    ensures PubSet(r) * QueuedSet(r) == {}
    ensures forall i :: i in PubSet(r) + QueuedSet(r) <==> 0 <= i < r.slotCnt
  {
    assert PubSet(r) == Elems(r.pubSlots);
    DistinctCard(r.pubSlots);
    assert QueuedSet(r) == Elems(q);
    DistinctCard(q);
  }

  // ---------------------------------------------------------------------
  // Preservation
  // ---------------------------------------------------------------------

  /** An operation that leaves the header and the line map alone, keeps
      every slot's PUB-ness, keeps BUSY sizes within the MTU and relinks the
      queue as `q'` (the non-PUB slots) keeps the invariant. */
  lemma ValidAfterQueueChange(r: Reasm, q: seq<nat>, r': Reasm, q': seq<nat>)
    requires Valid(r, q) && SameHeader(r, r') && Shaped(r') && r'.pubSlots == r.pubSlots
    requires forall i :: 0 <= i < r.slotCnt ==> (r'.sq.slots[i].state == Pub <==> r.sq.slots[i].state == Pub)
    requires forall i :: 0 <= i < r.slotCnt && r'.sq.slots[i].state == Busy ==> r'.sq.slots[i].sz <= TxnMtu
    requires Links(r'.sq, q') && |q'| == r.burst
    requires QueueHoldsUnpublished(r', q')
    ensures Valid(r', q')
  {
  }

  /** The queue side of `Prepare`: the tail moves to the head. */
  lemma PrepareQueue(r: Reasm, q: seq<nat>, tsorig: nat)
    requires Shaped(r) && Links(r.sq, q) && |q| >= 2
    ensures r.sq.tail < r.slotCnt
    ensures var res := Prepare(r, tsorig);
      && res.1 == q[|q| - 1]
      && Links(res.0.sq, [res.1] + q[..|q| - 1])
  {
    var s := q[|q| - 1];
    var sq2 := TakeTail(r.sq, q);
    var sq3 := PushHead(sq2, s);
    PushHeadLinks(sq2, q[..|q| - 1], s);
    var sq4 := sq3.(slots := sq3.slots[s := sq3.slots[s].(tsorig := tsorig % 0x1_0000_0000)]);
    LinksFrame(sq3, sq4.slots, [s] + q[..|q| - 1]);
    assert Prepare(r, tsorig) == (r.(sq := sq4), s);
  }

  /** The first half of `Prepare`: popping the tail and marking it BUSY
      leaves the rest of the queue linked, without the popped slot. */
  lemma TakeTailLinks(sq: SlotQueue, q: seq<nat>)
    requires Links(sq, q) && |q| >= 2
    ensures var s := q[|q| - 1]; var sq1 := PopTail(sq).0;
      && PopTail(sq).1 == s && s !in q[..|q| - 1]
      && Links(sq1.(slots := sq1.slots[s := sq1.slots[s].(state := Busy, sz := 0)]), q[..|q| - 1])
  {
    var n := |q|;
    var s := q[n - 1];
    var sq1 := PopTail(sq).0;
    PopTailLinks(sq, q);
    var q1 := q[..n - 1];
    NotInRemoveAt(q, n - 1);
    assert RemoveAt(q, n - 1) == q1;
    LinksFrame(sq1, sq1.slots[s := sq1.slots[s].(state := Busy, sz := 0)], q1);
  }

  /** The queue `Prepare` pushes its slot back onto. */
  function TakeTail(sq: SlotQueue, q: seq<nat>): (sq2: SlotQueue)
    requires Links(sq, q) && |q| >= 2
    ensures Links(sq2, q[..|q| - 1]) && q[|q| - 1] !in q[..|q| - 1]
    ensures |sq2.slots| == |sq.slots| && q[|q| - 1] < |sq.slots|
  {
    TakeTailLinks(sq, q);
    var sq1 := PopTail(sq).0;
    var s := q[|q| - 1];
    sq1.(slots := sq1.slots[s := sq1.slots[s].(state := Busy, sz := 0)])
  }

  /** Moving the last element of a sequence to the front keeps its
      members. */
  lemma RotateMembers(q: seq<nat>, x: nat)
    requires |q| >= 1
    ensures x in [q[|q| - 1]] + q[..|q| - 1] <==> x in q
  {
    var q' := [q[|q| - 1]] + q[..|q| - 1];
    if x in q {
      var k := IndexOf(q, x);
      if k < |q| - 1 { assert q'[k + 1] == x; }
    }
    if x in q' {
      var k := IndexOf(q', x);
      if k > 0 { assert q[k - 1] == x; }
    }
  }

  /** `Prepare` reuses the tail of the queue, which is never PUB, and keeps
      the invariant with that slot moved to the front. */
  lemma PrepareValid(r: Reasm, q: seq<nat>, tsorig: nat)
    requires Valid(r, q)
    ensures r.sq.tail < r.slotCnt
    ensures var (r', s) := Prepare(r, tsorig);
      && s == q[|q| - 1] && r.sq.slots[s].state != Pub
      && Valid(r', [s] + q[..|q| - 1])
  {
    PrepareQueue(r, q, tsorig);
    var (r', s) := Prepare(r, tsorig);
    forall i | 0 <= i < r.slotCnt
      ensures r'.sq.slots[i].state != Pub <==> i in [s] + q[..|q| - 1]
    {
      RotateMembers(q, i);
    }
    ValidAfterQueueChange(r, q, r', [s] + q[..|q| - 1]);
  }

  /** The queue side of cancelling a BUSY slot: it moves to the tail. */
  lemma CancelQueue(r: Reasm, q: seq<nat>, k: nat)
    requires Shaped(r) && Links(r.sq, q) && |q| >= 2 && k < |q| && q[k] < r.slotCnt
    requires r.sq.slots[q[k]].state != Free
    ensures Links(Cancel(r, q[k]).sq, RemoveAt(q, k) + [q[k]])
  {
    var s := q[k];
    var q1 := RemoveAt(q, k);
    var sq1 := Remove(r.sq, s);
    RemoveLinks(r.sq, q, k);
    var sq2 := sq1.(slots := sq1.slots[s := sq1.slots[s].(state := Free, connId := 0, streamId := 0)]);
    NotInRemoveAt(q, k);
    LinksFrame(sq1, sq2.slots, q1);
    PushTailLinks(sq2, q1, s);
  }

  /** The element taken out of a sequence without repeats is no longer in
      it. */
  lemma NotInRemoveAt(q: seq<nat>, k: nat)
    requires k < |q|
    requires Distinct(q)
    ensures q[k] !in RemoveAt(q, k)
  {
    var q1 := RemoveAt(q, k);
    forall m | 0 <= m < |q1|
      ensures q1[m] != q[k]
    {
      if m >= k { assert q1[m] == q[m + 1]; } else { assert q1[m] == q[m]; }
    }
  }

  /** Moving a queued slot to the tail as FREE keeps queue membership
      equal to "not PUB". */
  lemma RequeueMembers(r: Reasm, r': Reasm, q: seq<nat>, s: nat)
    requires Shaped(r) && Shaped(r') && r'.slotCnt == r.slotCnt && s < r.slotCnt
    requires Distinct(q)
    requires QueueHoldsUnpublished(r, q)
    requires r.sq.slots[s].state != Pub && r'.sq.slots[s].state == Free
    requires forall i :: 0 <= i < r.slotCnt && i != s ==> r'.sq.slots[i].state == r.sq.slots[i].state
    ensures s in q
    ensures forall i :: 0 <= i < r.slotCnt ==>
              (r'.sq.slots[i].state != Pub <==> i in RemoveAt(q, IndexOf(q, s)) + [s])
  {
    var k := IndexOf(q, s);
    var q1 := RemoveAt(q, k);
    forall i | 0 <= i < r.slotCnt
      ensures r'.sq.slots[i].state != Pub <==> i in q1 + [s]
    {
      if i != s {
        InRemoveAt(q, k, i);
        assert i in q1 + [s] <==> i in q1;
      } else {
        assert (q1 + [s])[|q1|] == s;
      }
    }
  }

  /** `Cancel` of a slot that is not PUB keeps the invariant: a FREE slot
      stays where it is, a BUSY one moves to the tail as FREE. */
  lemma CancelValid(r: Reasm, q: seq<nat>, s: nat)
    requires Valid(r, q) && s < r.slotCnt && r.sq.slots[s].state != Pub
    ensures s in q
    ensures r.sq.slots[s].state == Free ==> Valid(Cancel(r, s), q)
    ensures r.sq.slots[s].state == Busy ==>
      Valid(Cancel(r, s), RemoveAt(q, IndexOf(q, s)) + [s])
  {
    if r.sq.slots[s].state == Busy {
      CancelBusyValid(r, q, s);
    }
  }

  /** The BUSY case of `CancelValid`. */
  lemma CancelBusyValid(r: Reasm, q: seq<nat>, s: nat)
    requires Valid(r, q) && s < r.slotCnt && r.sq.slots[s].state == Busy
    ensures s in q && Valid(Cancel(r, s), RemoveAt(q, IndexOf(q, s)) + [s])
  {
    var r' := Cancel(r, s);
    assert s in q;
    var k := IndexOf(q, s);
    CancelQueue(r, q, k);
    assert r'.pubSlots == r'.(sq := r.sq).pubSlots;
    RequeueValid(r, q, r', s);
  }

  /** A pool that differs from a valid one only in the links of the queue
      and in slot `s`, BUSY before and FREE after with its size kept, is
      valid once the queue lists `s` last. */
  lemma RequeueValid(r: Reasm, q: seq<nat>, r': Reasm, s: nat)
    requires Valid(r, q) && s < r.slotCnt && r.sq.slots[s].state == Busy
    requires SameHeader(r, r') && Shaped(r') && r'.pubSlots == r.pubSlots
    requires r'.sq.slots[s].state == Free && r'.sq.slots[s].sz == r.sq.slots[s].sz
    requires forall i :: 0 <= i < r.slotCnt && i != s ==> SameBody(r'.sq.slots[i], r.sq.slots[i])
    requires s in q && Links(r'.sq, RemoveAt(q, IndexOf(q, s)) + [s])
    ensures Valid(r', RemoveAt(q, IndexOf(q, s)) + [s])
  {
    RequeueMembers(r, r', q, s);
    ValidAfterQueueChange(r, q, r', RemoveAt(q, IndexOf(q, s)) + [s]);
  }

  /** Membership after removing position `k` from a sequence without
      repeats: every element other than the removed one stays. */
  lemma InRemoveAt(q: seq<nat>, k: nat, x: nat)
    requires k < |q| && x != q[k]
    ensures x in RemoveAt(q, k) <==> x in q
  {
    var q1 := RemoveAt(q, k);
    if x in q {
      var j := IndexOf(q, x);
      if j < k { assert q1[j] == x; } else { assert q1[j - 1] == x; }
    }
    if x in q1 {
      var j := IndexOf(q1, x);
      if j < k { assert q[j] == x; } else { assert q[j + 1] == x; }
    }
  }

  /** Cancelling twice is cancelling once. */
  lemma CancelIdempotent(r: Reasm, s: nat)
    requires Shaped(r) && s < r.slotCnt
    ensures Cancel(Cancel(r, s), s) == Cancel(r, s)
  {
  }

  /** Every outcome of `Append` keeps the invariant: success and the no-op
      paths leave the queue alone, the aborts cancel the slot. */
  lemma AppendValid(r: Reasm, q: seq<nat>, s: nat, data: seq<byte>, off: nat)
    requires Valid(r, q) && s < r.slotCnt
    requires |data| <= UlongMax && off <= UlongMax
    ensures var (r', code) := Append(r, s, data, off);
      && (code == Success || code == ErrState ==> Valid(r', q))
      && (code == ErrSz || code == ErrSkip ==>
            r.sq.slots[s].state == Busy && s in q
            && Valid(r', RemoveAt(q, IndexOf(q, s)) + [s]))
  {
    var (r', code) := Append(r, s, data, off);
    if code == ErrSz || code == ErrSkip {
      CancelValid(r, q, s);
    } else if code == Success {
      AppendSuccessValid(r, q, s, data, off);
    }
  }

  /** A successful append only grows a BUSY slot's payload. */
  lemma AppendSuccessValid(r: Reasm, q: seq<nat>, s: nat, data: seq<byte>, off: nat)
    requires Valid(r, q) && s < r.slotCnt
    requires |data| <= UlongMax && off <= UlongMax
    requires Append(r, s, data, off).1 == Success
    ensures Valid(Append(r, s, data, off).0, q)
  {
    var r' := Append(r, s, data, off).0;
    if r' != r {
      LinksFrame(r.sq, r'.sq.slots, q);
      assert Valid(r', q);
    }
  }

  /** The queue side of a successful publish: the published slot leaves the
      queue, the freed slot joins it at the tail, and queue membership still
      matches "not PUB". */
  lemma PublishQueue(r: Reasm, q: seq<nat>, s: nat, line: nat)
    requires Valid(r, q) && s < r.slotCnt && r.sq.slots[s].state == Busy && line < r.depth
    ensures s in q && r.pubSlots[line] !in q && r.pubSlots[line] != s
    ensures var r' := FreeVictim(MarkPublished(r, s, line), r.pubSlots[line]);
      var q' := RemoveAt(q, IndexOf(q, s)) + [r.pubSlots[line]];
      && Links(r'.sq, q') && |q'| == r.burst
      && QueueHoldsUnpublished(r', q')
  {
    var v := r.pubSlots[line];
    assert s in q;
    var q1 := RemoveAt(q, IndexOf(q, s));
    MarkPublishedLinks(r, q, IndexOf(q, s), line);
    FreeVictimLinks(MarkPublished(r, s, line), q1, v);
    PublishMembers(r, q, s, line);
  }

  /** Marking a queued slot published unlinks it and keeps the order of the
      others. */
  lemma MarkPublishedLinks(r: Reasm, q: seq<nat>, k: nat, line: nat)
    requires Shaped(r) && Links(r.sq, q) && |q| >= 2 && k < |q| && line < r.depth
    ensures Links(MarkPublished(r, q[k], line).sq, RemoveAt(q, k))
  {
    var s := q[k];
    var sq1 := Remove(r.sq, s);
    RemoveLinks(r.sq, q, k);
    NotInRemoveAt(q, k);
    var slots2 := sq1.slots[s := sq1.slots[s].(state := Pub)];
    LinksFrame(sq1, slots2, RemoveAt(q, k));
    assert MarkPublished(r, s, line).sq == sq1.(slots := slots2);
  }

  /** Freeing a slot outside the queue appends it at the tail. */
  lemma FreeVictimLinks(r: Reasm, q: seq<nat>, v: nat)
    requires Shaped(r) && Links(r.sq, q) && v < r.slotCnt && v !in q
    ensures Links(FreeVictim(r, v).sq, q + [v])
  {
    var sq1 := r.sq.(slots := r.sq.slots[v := r.sq.slots[v].(state := Free)]);
    LinksFrame(r.sq, sq1.slots, q);
    PushTailLinks(sq1, q, v);
  }

  /** After publish the queue holds exactly the slots that are not PUB: the
      published slot has left it and the line's previous owner has joined. */
  lemma PublishMembers(r: Reasm, q: seq<nat>, s: nat, line: nat)
    requires Valid(r, q) && s < r.slotCnt && r.sq.slots[s].state == Busy && line < r.depth
    ensures s in q && r.pubSlots[line] !in q && r.pubSlots[line] != s
    ensures var r' := FreeVictim(MarkPublished(r, s, line), r.pubSlots[line]);
      var q' := RemoveAt(q, IndexOf(q, s)) + [r.pubSlots[line]];
      && |q'| == r.burst
      && QueueHoldsUnpublished(r', q')
  {
    var v := r.pubSlots[line];
    assert v < r.slotCnt && r.sq.slots[v].state == Pub;
    PublishStates(r, s, line);
    SwapMembers(r, FreeVictim(MarkPublished(r, s, line), v), q, s, v);
  }

  /** Marking `s` PUB for line `line` and freeing the line's previous owner
      changes the state of those two slots and no other. */
  lemma PublishStates(r: Reasm, s: nat, line: nat)
    requires Shaped(r) && s < r.slotCnt && line < r.depth
    requires r.pubSlots[line] < r.slotCnt && r.pubSlots[line] != s
    ensures var r' := FreeVictim(MarkPublished(r, s, line), r.pubSlots[line]);
      && Shaped(r') && r'.slotCnt == r.slotCnt
      && r'.sq.slots[s].state == Pub && r'.sq.slots[r.pubSlots[line]].state == Free
      && (forall i :: 0 <= i < r.slotCnt && i != s && i != r.pubSlots[line] ==>
            r'.sq.slots[i].state == r.sq.slots[i].state)
  {
  }

  /** Swapping which slot is PUB: if queue membership matched "not PUB"
      before, and `s` (queued) becomes PUB while `v` (not queued) becomes
      FREE, it matches again once `s` leaves the queue and `v` joins it. */
  lemma SwapMembers(r: Reasm, r': Reasm, q: seq<nat>, s: nat, v: nat)
    requires Shaped(r) && Shaped(r') && r'.slotCnt == r.slotCnt && s < r.slotCnt && v < r.slotCnt
    requires Distinct(q)
    requires QueueHoldsUnpublished(r, q)
    requires r.sq.slots[s].state != Pub && r.sq.slots[v].state == Pub
    requires r'.sq.slots[s].state == Pub && r'.sq.slots[v].state == Free
    requires forall i :: 0 <= i < r.slotCnt && i != s && i != v ==>
               r'.sq.slots[i].state == r.sq.slots[i].state
    ensures s in q && v !in q && v != s
    ensures forall i :: 0 <= i < r.slotCnt ==>
              (r'.sq.slots[i].state != Pub <==> i in RemoveAt(q, IndexOf(q, s)) + [v])
  {
    var k := IndexOf(q, s);
    var q1 := RemoveAt(q, k);
    forall i | 0 <= i < r.slotCnt
      ensures r'.sq.slots[i].state != Pub <==> i in q1 + [v]
    {
      if i == s {
        NotInRemoveAt(q, k);
        assert s != v;
      } else if i != v {
        InRemoveAt(q, k, i);
        assert i in q1 + [v] <==> i in q1;
      } else {
        assert (q1 + [v])[|q1|] == v;
      }
    }
  }

  /** The map side of a successful publish: line `line` now names the
      published slot `s`, its previous owner `v` is no longer PUB, and every
      other slot keeps its state. */
  lemma ValidAfterPublish(r: Reasm, q: seq<nat>, r': Reasm, q': seq<nat>, s: nat, line: nat)
    requires Valid(r, q) && s < r.slotCnt && r.sq.slots[s].state == Busy && line < r.depth
    requires SameHeader(r, r') && Shaped(r') && r'.pubSlots == r.pubSlots[line := s]
    requires r'.sq.slots[s].state == Pub && r'.sq.slots[r.pubSlots[line]].state == Free
    requires forall i :: 0 <= i < r.slotCnt && i != s && i != r.pubSlots[line] ==>
               r'.sq.slots[i].state == r.sq.slots[i].state && r'.sq.slots[i].sz == r.sq.slots[i].sz
    requires Links(r'.sq, q') && |q'| == r.burst
    requires QueueHoldsUnpublished(r', q')
    ensures Valid(r', q')
  {
    PublishMap(r, r', s, line);
  }

  /** Line `line` handed from its owner to the BUSY slot `s`, which becomes
      PUB while the owner stops being PUB: the line map still names exactly
      the PUB slots, one line each. */
  lemma PublishMap(r: Reasm, r': Reasm, s: nat, line: nat)
    requires Shaped(r) && MapNamesPublished(r)
    requires s < r.slotCnt && r.sq.slots[s].state == Busy && line < r.depth
    requires SameHeader(r, r') && Shaped(r') && r'.pubSlots == r.pubSlots[line := s]
    requires r'.sq.slots[s].state == Pub && r'.sq.slots[r.pubSlots[line]].state == Free
    requires forall i :: 0 <= i < r.slotCnt && i != s && i != r.pubSlots[line] ==>
               r'.sq.slots[i].state == r.sq.slots[i].state
    ensures MapNamesPublished(r')
  {
    PublishMapLines(r, r', s, line);
    PublishMapCovers(r, r', s, line);
  }

  /** After the handover every line names a PUB slot. */
  lemma PublishMapLines(r: Reasm, r': Reasm, s: nat, line: nat)
    requires Shaped(r) && MapNamesPublished(r)
    requires s < r.slotCnt && r.sq.slots[s].state == Busy && line < r.depth
    requires SameHeader(r, r') && Shaped(r') && r'.pubSlots == r.pubSlots[line := s]
    requires r'.sq.slots[s].state == Pub && r'.sq.slots[r.pubSlots[line]].state == Free
    requires forall i :: 0 <= i < r.slotCnt && i != s && i != r.pubSlots[line] ==>
               r'.sq.slots[i].state == r.sq.slots[i].state
    ensures forall l :: 0 <= l < r.depth ==>
              r'.pubSlots[l] < r.slotCnt && r'.sq.slots[r'.pubSlots[l]].state == Pub
  {
    var v := r.pubSlots[line];
    forall l | 0 <= l < r.depth
      ensures r'.pubSlots[l] < r.slotCnt && r'.sq.slots[r'.pubSlots[l]].state == Pub
    {
      if l != line {
        assert r.pubSlots[l] != v;
      }
    }
  }

  /** After the handover every PUB slot is named by a line. */
  lemma PublishMapCovers(r: Reasm, r': Reasm, s: nat, line: nat)
    requires Shaped(r) && MapNamesPublished(r)
    requires s < r.slotCnt && line < r.depth
    requires SameHeader(r, r') && Shaped(r') && r'.pubSlots == r.pubSlots[line := s]
    requires r'.sq.slots[r.pubSlots[line]].state == Free
    requires forall i :: 0 <= i < r.slotCnt && i != s && i != r.pubSlots[line] ==>
               r'.sq.slots[i].state == r.sq.slots[i].state
    ensures forall i :: 0 <= i < r.slotCnt && r'.sq.slots[i].state == Pub ==> i in r'.pubSlots
  {
    forall i | 0 <= i < r.slotCnt && r'.sq.slots[i].state == Pub
      ensures i in r'.pubSlots
    {
      if i == s {
        assert r'.pubSlots[line] == s;
      } else {
        var l := IndexOf(r.pubSlots, i);
        assert r'.pubSlots[l] == i;
      }
    }
  }

  /** Publishing a BUSY slot of a valid pool always succeeds (the
      corruption checks never fire) and keeps the invariant: the slot leaves
      the queue, and the line's previous owner joins it at the tail. */
  lemma PublishValid(r: Reasm, q: seq<nat>, s: nat, mcache: seq<FragMeta>,
                     chunk: nat, seqNo: nat, tspub: nat)
    requires Valid(r, q) && s < r.slotCnt && r.sq.slots[s].state == Busy
    requires |mcache| == r.depth && chunk <= UintMax && seqNo <= UlongMax
    ensures var res := Publish(r, s, mcache, chunk, seqNo, tspub);
      var victim := r.pubSlots[LineIdx(seqNo, r.depth)];
      && res.code == Success
      && s in q && victim !in q
      && Valid(res.reasm, RemoveAt(q, IndexOf(q, s)) + [victim])
  {
    var line := LineIdx(seqNo, r.depth);
    PublishStepsValid(r, q, s, line);
    var res := Publish(r, s, mcache, chunk, seqNo, tspub);
    assert res.code == Success;
  }

  /** Marking BUSY slot `s` as the owner of line `line` and freeing the
      line's previous owner keeps the invariant, with `s` out of the queue
      and the previous owner at its tail. */
  lemma PublishStepsValid(r: Reasm, q: seq<nat>, s: nat, line: nat)
    requires Valid(r, q) && s < r.slotCnt && r.sq.slots[s].state == Busy && line < r.depth
    ensures s in q && r.pubSlots[line] !in q && r.pubSlots[line] != s
    ensures r.pubSlots[line] < r.slotCnt && r.sq.slots[r.pubSlots[line]].state == Pub
    ensures Valid(FreeVictim(MarkPublished(r, s, line), r.pubSlots[line]),
                  RemoveAt(q, IndexOf(q, s)) + [r.pubSlots[line]])
  {
    var v := r.pubSlots[line];
    PublishQueue(r, q, s, line);
    var r' := FreeVictim(MarkPublished(r, s, line), v);
    ValidAfterPublish(r, q, r', RemoveAt(q, IndexOf(q, s)) + [v], s, line);
  }

  /** When publish detects corruption, its reset leaves a valid pool. */
  lemma PublishHeals(r: Reasm, s: nat, mcache: seq<FragMeta>, chunk: nat, seqNo: nat, tspub: nat)
    requires Shaped(r) && ParamsOk(r.depth, r.burst) && s < r.slotCnt && r.sq.slots[s].state == Busy
    requires |mcache| == r.depth && chunk <= UintMax && seqNo <= UlongMax
    requires Publish(r, s, mcache, chunk, seqNo, tspub).code != Success
    ensures Valid(Publish(r, s, mcache, chunk, seqNo, tspub).reasm, InitQueue(r.depth, r.slotCnt))
  {
    InitialValid(Publish(r, s, mcache, chunk, seqNo, tspub).reasm);
  }

  // ---------------------------------------------------------------------
  // Append semantics
  // ---------------------------------------------------------------------

  /** A fragment that ends at or before the bytes already gathered changes
      nothing: retransmissions are harmless. */
  lemma AppendCoveredNoop(r: Reasm, s: nat, data: seq<byte>, off: nat)
    requires Shaped(r) && s < r.slotCnt && r.sq.slots[s].state == Busy
    requires |data| <= UlongMax && off <= UlongMax
    requires off + |data| <= r.sq.slots[s].sz <= TxnMtu
    ensures Append(r, s, data, off) == (r, Success)
  {
    var sz0 := r.sq.slots[s].sz;
    if off + |data| == sz0 {
      var chunk := r.chunks[s][..sz0] + data[sz0 - off..] + r.chunks[s][sz0..];
      assert chunk == r.chunks[s];
      assert r.sq.slots[s := r.sq.slots[s].(sz := sz0)] == r.sq.slots;
      assert r.chunks[s := chunk] == r.chunks;
    }
  }

  /** A fragment overlapping the bytes already gathered behaves like its
      new suffix appended at the current size. */
  lemma AppendOverlapTrims(r: Reasm, s: nat, data: seq<byte>, off: nat)
    requires Shaped(r) && s < r.slotCnt && r.sq.slots[s].state == Busy
    requires |data| <= UlongMax && off <= r.sq.slots[s].sz <= off + |data|
    ensures Append(r, s, data, off)
            == Append(r, s, data[r.sq.slots[s].sz - off..], r.sq.slots[s].sz)
  {
  }

  /** The concatenation of a list of fragments. */
  function Concat(frags: seq<seq<byte>>): seq<byte>
  {
    if frags == [] then [] else frags[0] + Concat(frags[1..])
  }

  /** Appending fragments one after the other, each at the offset where the
      previous one ended, stopping at the first failure. */
  function AppendStream(r: Reasm, s: nat, frags: seq<seq<byte>>, off: nat): (res: (Reasm, Code))
    requires Shaped(r) && s < r.slotCnt && off <= UlongMax
    requires forall i :: 0 <= i < |frags| ==> |frags[i]| <= TxnMtu
    ensures SameHeader(r, res.0) && Shaped(res.0)
    decreases |frags|
  {
    if frags == [] then (r, Success)
    else
      var step := Append(r, s, frags[0], off);
      if step.1 != Success || off + |frags[0]| > UlongMax then step
      else AppendStream(step.0, s, frags[1..], off + |frags[0]|)
  }

  /** The pool after `data` has been written into slot `s` at `off` and the
      slot's size set to the end of it; nothing else changes. */
  function Gathered(r: Reasm, s: nat, off: nat, data: seq<byte>): Reasm
    requires s < |r.sq.slots| && s < |r.chunks| && off + |data| <= |r.chunks[s]|
  {
    r.(sq := r.sq.(slots := r.sq.slots[s := r.sq.slots[s].(sz := off + |data|)]),
       chunks := r.chunks[s := r.chunks[s][..off] + data + r.chunks[s][off + |data|..]])
  }

  /** Writing `f` at `off` and then `g` right after it is writing `f + g`. */
  lemma GatheredTwice(r: Reasm, s: nat, off: nat, f: seq<byte>, g: seq<byte>)
    requires s < |r.sq.slots| && s < |r.chunks| && off + |f| + |g| <= |r.chunks[s]|
    ensures Gathered(Gathered(r, s, off, f), s, off + |f|, g) == Gathered(r, s, off, f + g)
  {
    var ch := r.chunks[s];
    var ch1 := ch[..off] + f + ch[off + |f|..];
    assert ch1[..off + |f|] == ch[..off] + f;
    assert ch1[off + |f| + |g|..] == ch[off + |f| + |g|..];
    assert ch1[..off + |f|] + g + ch1[off + |f| + |g|..] == ch[..off] + (f + g) + ch[off + |f + g|..];
  }

  /** One in-order fragment that fits is spliced in at the current size. */
  lemma AppendStep(r: Reasm, s: nat, f: seq<byte>, off: nat)
    requires Shaped(r) && s < r.slotCnt && r.sq.slots[s].state == Busy
    requires r.sq.slots[s].sz == off && off + |f| <= TxnMtu
    ensures Append(r, s, f, off) == (Gathered(r, s, off, f), Success)
  {
    assert f[off - off..] == f;
  }

  /** Round trip: a message delivered in order as contiguous fragments into
      a slot that has gathered exactly `off` bytes ends up, byte for byte,
      after those bytes, as long as the total fits the MTU; nothing else in
      the pool changes. */
  lemma {:induction false} AppendStreamGathers(r: Reasm, s: nat, frags: seq<seq<byte>>, off: nat)
    requires Shaped(r) && s < r.slotCnt && r.sq.slots[s].state == Busy
    requires r.sq.slots[s].sz == off
    requires forall i :: 0 <= i < |frags| ==> |frags[i]| <= TxnMtu
    requires off + |Concat(frags)| <= TxnMtu
    ensures AppendStream(r, s, frags, off) == (Gathered(r, s, off, Concat(frags)), Success)
    decreases |frags|
  {
    if frags == [] {
      var ch := r.chunks[s];
      assert ch[..off] + [] + ch[off..] == ch;
      assert r.sq.slots[s := r.sq.slots[s].(sz := off)] == r.sq.slots;
      assert r.chunks[s := ch] == r.chunks;
      assert Gathered(r, s, off, Concat(frags)) == r;
    } else {
      var f := frags[0];
      AppendStep(r, s, f, off);
      var r1 := Gathered(r, s, off, f);
      AppendStreamGathers(r1, s, frags[1..], off + |f|);
      GatheredTwice(r, s, off, f, Concat(frags[1..]));
    }
  }

  // ---------------------------------------------------------------------
  // The mcache line
  // ---------------------------------------------------------------------

  /** Applying a prefix one store longer is applying one more store. */
  lemma {:induction false} ApplyWritesSnoc(m: FragMeta, ws: seq<MetaWrite>, k: nat)
    requires k < |ws|
    ensures ApplyWrites(m, ws[..k + 1]) == ApplyWrite(ApplyWrites(m, ws[..k]), ws[k])
    decreases k
  {
    if k > 0 {
      ApplyWritesSnoc(ApplyWrite(m, ws[0]), ws[1..], k - 1);
      assert ws[..k + 1][1..] == ws[1..][..k];
      assert ws[..k][1..] == ws[1..][..k - 1];
    }
  }

  /** The publish stores are safe for a concurrent reader that checks the
      sequence number: after the first store and before the last, the line
      carries a sequence number different from `seqNo` (so a reader waiting
      for `seqNo` ignores it), and after the last store every field holds
      the published value. */
  lemma PublishWritesOrdered(m: FragMeta, seqNo: nat, chunk: nat, sz: nat, ctl: nat, tsorig: nat, tspub: nat)
    requires seqNo <= UlongMax
    ensures var ws := PublishWrites(seqNo, chunk, sz, ctl, tsorig, tspub);
      && (forall k :: 1 <= k < |ws| ==> ApplyWrites(m, ws[..k]).seqNo == SeqDec(seqNo) != seqNo)
      && ApplyWrites(m, ws) == FragMeta(seqNo, chunk % 0x1_0000_0000, sz % 0x1_0000, ctl % 0x1_0000,
                                        tsorig % 0x1_0000_0000, tspub % 0x1_0000_0000)
  {
    var ws := PublishWrites(seqNo, chunk, sz, ctl, tsorig, tspub);
    forall k | 1 <= k < |ws|
      ensures ApplyWrites(m, ws[..k]).seqNo == SeqDec(seqNo)
    {
      PrefixSeq(m, ws, k);
    }
    assert ws[..0] == [] && ws[..7] == ws;
    ApplyWritesSnoc(m, ws, 0);
    ApplyWritesSnoc(m, ws, 1);
    ApplyWritesSnoc(m, ws, 2);
    ApplyWritesSnoc(m, ws, 3);
    ApplyWritesSnoc(m, ws, 4);
    ApplyWritesSnoc(m, ws, 5);
    ApplyWritesSnoc(m, ws, 6);
  }

  /** On a valid pool, publishing BUSY slot `s` leaves in its mcache line
      exactly the published fragment (sequence number, chunk, size, a ctl
      with the pool's origin and start/end of message set, and the two
      timestamps, each truncated to its field) and touches no other line. */
  lemma PublishedLine(r: Reasm, q: seq<nat>, s: nat, mcache: seq<FragMeta>,
                      chunk: nat, seqNo: nat, tspub: nat)
    requires Valid(r, q) && s < r.slotCnt && r.sq.slots[s].state == Busy
    requires |mcache| == r.depth && chunk <= UintMax && seqNo <= UlongMax
    ensures var res := Publish(r, s, mcache, chunk, seqNo, tspub);
      var line := LineIdx(seqNo, r.depth);
      var slot := r.sq.slots[s];
      && |res.mcache| == r.depth
      && res.mcache[line] == FragMeta(seqNo, chunk % 0x1_0000_0000, slot.sz % 0x1_0000,
                                      Ctl(r.orig, true, true, false) % 0x1_0000,
                                      slot.tsorig % 0x1_0000_0000, tspub % 0x1_0000_0000)
      && (forall l :: 0 <= l < r.depth && l != line ==> res.mcache[l] == mcache[l])
  {
    PublishValid(r, q, s, mcache, chunk, seqNo, tspub);
    var line := LineIdx(seqNo, r.depth);
    var slot := r.sq.slots[s];
    PublishWritesOrdered(mcache[line], seqNo, chunk, slot.sz, Ctl(r.orig, true, true, false), slot.tsorig, tspub);
  }

  lemma {:induction false} PrefixSeq(m: FragMeta, ws: seq<MetaWrite>, k: nat)
    requires |ws| == 7 && 1 <= k < 7 && ws[0].WriteSeq?
    requires forall j :: 1 <= j < 6 ==> !ws[j].WriteSeq?
    ensures ApplyWrites(m, ws[..k]).seqNo == ws[0].v
  {
    ApplyWritesSnoc(m, ws, k - 1);
    if k > 1 {
      PrefixSeq(m, ws, k - 1);
    } else {
      assert ws[..0] == [];
    }
  }

  /** The ctl word published carries the pool's origin, start and end of
      message set and no error, for any origin `New` accepts. */
  lemma CtlCarriesOrigin(orig: nat)
    requires orig < FragMetaOrigMax
    ensures var c := Ctl(orig, true, true, false) % 0x1_0000;
      CtlOrig(c) == orig && c % 2 == 1 && (c / 2) % 2 == 1 && (c / 4) % 2 == 0
  {
    var c := 3 + 8 * orig;
    assert Ctl(orig, true, true, false) == c;
    assert c < 0x1_0000;
    assert c % 0x1_0000 == c;
    assert c / 8 == orig;
    assert c == 2 * (1 + 4 * orig) + 1;
    assert c / 2 == 1 + 4 * orig;
    assert (1 + 4 * orig) == 2 * (2 * orig) + 1;
    assert c / 4 == 2 * orig;
  }

  /** The origin a pool from `New` is built with survives the publish path's
      16-bit ctl store. */
  lemma NewOriginPublished(m: Region, depth: nat, burst: nat, orig: nat, lp: LayoutParams)
    requires LayoutParamsOk(lp)
    requires ParamsOk(depth, burst) ==> RegionFits(m, depth + burst)
    requires New(m, depth, burst, orig, lp).Some?
    ensures CtlOrig(Ctl(New(m, depth, burst, orig, lp).value.orig, true, true, false) % 0x1_0000) == orig
  {
    CtlCarriesOrigin(orig);
  }

  // ---------------------------------------------------------------------
  // The code as written
  // ---------------------------------------------------------------------

  /** `NewAsWritten` accepts `orig == FragMetaOrigMax`, whose ctl encoding
      overflows the 16-bit field: consumers read origin 0. */
  lemma OrigBoundCounterexample(m: Region, lp: LayoutParams)
    requires LayoutParamsOk(lp) && m.addr != 0 && m.addr % lp.hdrAlign == 0 && RegionFits(m, 3)
    ensures ParamsOk(1, 2)
    ensures NewAsWritten(m, 1, 2, FragMetaOrigMax, lp).Some?
    ensures NewAsWritten(m, 1, 2, FragMetaOrigMax, lp).value.orig == FragMetaOrigMax
    ensures CtlOrig(Ctl(FragMetaOrigMax, true, true, false) % 0x1_0000) == 0
    ensures New(m, 1, 2, FragMetaOrigMax, lp).None?
  {
    assert Popcnt(1) == 1;
  }

  /** After `ResetAsWritten`, the pool can be valid only if the head and
      tail already were the ends of the initial chain. */
  lemma ResetAsWrittenNeedsEnds(r: Reasm, q: seq<nat>)
    requires Shaped(r) && Valid(ResetAsWritten(r), q)
    ensures r.sq.head == r.slotCnt - 1 && r.sq.tail == r.depth
  {
    var w := ResetAsWritten(r);
    assert q[0] == r.sq.head && q[0] in q;
    assert q[|q| - 1] == r.sq.tail && q[|q| - 1] in q;
  }

  /** The reset as written can leave the queue broken.  Take any pool in
      the initial distribution, prepare one slot (the head moves to slot
      `depth`), let the map entry of the line being published be corrupted
      to an out-of-range value, then publish: the as-written heal keeps head
      `depth`, which the rebuilt chain does not start at, so no queue fits
      the links (the next operations index past the slot array); the
      corrected publish heals to a valid pool. */
  lemma ResetAsWrittenBreaksQueue(r0: Reasm, bad: nat, mcache: seq<FragMeta>, seqNo: nat)
    requires InitialDistribution(r0) && ParamsOk(r0.depth, r0.burst)
    requires r0.sq.head == r0.slotCnt - 1 && r0.sq.tail == r0.depth
    requires bad >= r0.slotCnt && |mcache| == r0.depth && seqNo <= UlongMax
    ensures var r := PreparedThenCorrupted(r0, bad, seqNo);
      && PublishAsWritten(r, r0.depth, mcache, 0, seqNo, 0).code == ErrState
      && (forall q :: !Valid(PublishAsWritten(r, r0.depth, mcache, 0, seqNo, 0).reasm, q))
      && Publish(r, r0.depth, mcache, 0, seqNo, 0).code == ErrState
      && Valid(Publish(r, r0.depth, mcache, 0, seqNo, 0).reasm, InitQueue(r0.depth, r0.slotCnt))
  {
    CorruptLineBreaks(PreparedThenCorrupted(r0, bad, seqNo), r0.depth, mcache, seqNo);
  }

  /** The pool after one prepare from the initial distribution, with the
      map entry of the line that sequence number `seqNo` publishes to
      overwritten by `bad`: the prepared slot is `depth`, now BUSY at the
      head. */
  function PreparedThenCorrupted(r0: Reasm, bad: nat, seqNo: nat): (r: Reasm)
    requires InitialDistribution(r0) && ParamsOk(r0.depth, r0.burst)
    requires r0.sq.tail == r0.depth
    ensures Shaped(r) && ParamsOk(r.depth, r.burst) && SameHeader(r0, r)
    ensures Prepare(r0, 0).1 == r0.depth
    ensures r.sq == Prepare(r0, 0).0.sq
    ensures r.sq.head == r0.depth && r.sq.slots[r0.depth].state == Busy
    ensures r.pubSlots[LineIdx(seqNo, r0.depth)] == bad
  {
    var (r1, s) := Prepare(r0, 0);
    r1.(pubSlots := r1.pubSlots[LineIdx(seqNo, r0.depth) := bad])
  }

  /** Publishing the head slot `depth` of a pool whose line map names a slot
      outside the pool: both versions report corruption, the as-written
      heal leaves a pool no queue makes valid, the corrected one a valid
      pool. */
  lemma CorruptLineBreaks(r: Reasm, s: nat, mcache: seq<FragMeta>, seqNo: nat)
    requires Shaped(r) && ParamsOk(r.depth, r.burst)
    requires s == r.depth && r.sq.head == s && r.sq.slots[s].state == Busy
    requires |mcache| == r.depth && seqNo <= UlongMax
    requires r.pubSlots[LineIdx(seqNo, r.depth)] >= r.slotCnt
    ensures PublishAsWritten(r, s, mcache, 0, seqNo, 0).code == ErrState
    ensures forall q :: !Valid(PublishAsWritten(r, s, mcache, 0, seqNo, 0).reasm, q)
    ensures Publish(r, s, mcache, 0, seqNo, 0).code == ErrState
    ensures Valid(Publish(r, s, mcache, 0, seqNo, 0).reasm, InitQueue(r.depth, r.slotCnt))
  {
    var w := PublishAsWritten(r, s, mcache, 0, seqNo, 0);
    forall q | Valid(w.reasm, q)
      ensures false
    {
      ResetAsWrittenNeedsEnds(r, q);
    }
    PublishHeals(r, s, mcache, 0, seqNo, 0);
  }

  /** A one-line pool with two spare slots whose payload buffers all hold
      `chunk`, as `Reset` leaves it. */
  function SmallPool(chunk: seq<byte>): (r: Reasm)
    requires |chunk| >= TxnMtu
    ensures InitialDistribution(r) && ParamsOk(r.depth, r.burst)
    ensures r.depth == 1 && r.slotCnt == 3 && r.sq.head == 2 && r.sq.tail == 1
  {
    assert Popcnt(1) == 1;
    Reset(Reasm(Magic, 1, 2, 3, 0, Layout(0, 0, 0, 0),
                SlotQueue([ZeroSlot, ZeroSlot, ZeroSlot], 0, 0), [0], [chunk, chunk, chunk]))
  }

  /** The smallest instance: depth 1, burst 2, line 0 corrupted to 7. */
  lemma ResetAsWrittenCounterexample(chunk: seq<byte>)
    requires |chunk| >= TxnMtu
    ensures var (r1, s) := Prepare(SmallPool(chunk), 0);
      var r2 := r1.(pubSlots := r1.pubSlots[LineIdx(0, 1) := 7]);
      && s == 1
      && PublishAsWritten(r2, s, [FragMeta(0, 0, 0, 0, 0, 0)], 0, 0, 0).code == ErrState
      && (forall q :: !Valid(PublishAsWritten(r2, s, [FragMeta(0, 0, 0, 0, 0, 0)], 0, 0, 0).reasm, q))
  {
    ResetAsWrittenBreaksQueue(SmallPool(chunk), 7, [FragMeta(0, 0, 0, 0, 0, 0)], 0);
  }
}
