/** The reassembly slot records and the index-linked FREE/BUSY queue that
    threads them (the `slotq_*` helpers of the TPU reassembly pool).

    Links are slot indices.  `prevIdx` points one step toward the head (the
    most recently touched slot), `nextIdx` one step toward the tail (the least
    recently touched one); the sentinel `Nil` (UINT_MAX) ends the chain in both
    directions.  The queue is described abstractly by a sequence `q` listing
    its slots from head to tail; `Links` says when the concrete links represent
    such a sequence. */
module ReasmQueue {
  import opened Bytes

  /** The "no slot" sentinel of the link fields. */
  const Nil: nat := UintMax

  datatype SlotState = Free | Busy | Pub

  /** One slot record: state, queue links, the number of message bytes
      gathered so far, the origin timestamp and the caller's correlation
      fields.  The slot's payload buffer lives in a separate array. */
  datatype Slot = Slot(
    state: SlotState,
    prevIdx: nat,
    nextIdx: nat,
    sz: nat,
    tsorig: nat,
    connId: nat,
    streamId: nat)

  /** The slot array together with the queue's head and tail indices. */
  datatype SlotQueue = SlotQueue(slots: seq<Slot>, head: nat, tail: nat)

  /** Two slot records agree on everything except their queue links. */
  predicate SameBody(a: Slot, b: Slot)
  {
    a.state == b.state && a.sz == b.sz && a.tsorig == b.tsorig
    && a.connId == b.connId && a.streamId == b.streamId
  }

  /** Set the `prevIdx` of slot `i`; an index outside the array (the `Nil`
      sentinel) writes nothing. */
  function SetPrev(slots: seq<Slot>, i: nat, v: nat): (r: seq<Slot>)
    ensures |r| == |slots|
    ensures forall j :: 0 <= j < |slots| && j != i ==> r[j] == slots[j]
    ensures i < |slots| ==> r[i] == slots[i].(prevIdx := v)
  {
    if i < |slots| then slots[i := slots[i].(prevIdx := v)] else slots
  }

  /** Set the `nextIdx` of slot `i`; an index outside the array writes nothing. */
  function SetNext(slots: seq<Slot>, i: nat, v: nat): (r: seq<Slot>)
    ensures |r| == |slots|
    ensures forall j :: 0 <= j < |slots| && j != i ==> r[j] == slots[j]
    ensures i < |slots| ==> r[i] == slots[i].(nextIdx := v)
  {
    if i < |slots| then slots[i := slots[i].(nextIdx := v)] else slots
  }

  /** `slotq_pop_tail`: detach the least recently touched slot and return its
      index.  The slot's own links are left for the caller to overwrite. */
  function PopTail(sq: SlotQueue): (r: (SlotQueue, nat))
    ensures |r.0.slots| == |sq.slots| && r.1 == sq.tail && r.0.head == sq.head
    ensures forall i :: 0 <= i < |sq.slots| ==> SameBody(r.0.slots[i], sq.slots[i])
  {
    var t := sq.tail;
    var p := if t < |sq.slots| then sq.slots[t].prevIdx else Nil;
    (SlotQueue(SetNext(sq.slots, p, Nil), sq.head, p), t)
  }

  /** `slotq_push_head`: link slot `s` in as the most recently touched. */
  function PushHead(sq: SlotQueue, s: nat): (r: SlotQueue)
    requires s < |sq.slots|
    ensures |r.slots| == |sq.slots| && r.head == s && r.tail == sq.tail
    ensures forall i :: 0 <= i < |sq.slots| ==> SameBody(r.slots[i], sq.slots[i])
    ensures r.slots[s].prevIdx == Nil && r.slots[s].nextIdx == sq.head
  {
    var slots1 := SetPrev(sq.slots, sq.head, s);
    SlotQueue(slots1[s := slots1[s].(prevIdx := Nil, nextIdx := sq.head)], s, sq.tail)
  }

  /** `slotq_push_tail`: link slot `s` in as the least recently touched, so
      that it is the next one `PopTail` hands out. */
  function PushTail(sq: SlotQueue, s: nat): (r: SlotQueue)
    requires s < |sq.slots|
    ensures |r.slots| == |sq.slots| && r.tail == s && r.head == sq.head
    ensures forall i :: 0 <= i < |sq.slots| ==> SameBody(r.slots[i], sq.slots[i])
    ensures r.slots[s].prevIdx == sq.tail && r.slots[s].nextIdx == Nil
  {
    var slots1 := SetNext(sq.slots, sq.tail, s);
    SlotQueue(slots1[s := slots1[s].(prevIdx := sq.tail, nextIdx := Nil)], sq.head, s)
  }

  /** `slotq_remove`: unlink slot `s` from wherever it sits in the queue,
      touching only its two neighbours and the head/tail indices. */
  function Remove(sq: SlotQueue, s: nat): (r: SlotQueue)
    requires s < |sq.slots|
    ensures |r.slots| == |sq.slots|
    ensures forall i :: 0 <= i < |sq.slots| ==> SameBody(r.slots[i], sq.slots[i])
  {
    var p := sq.slots[s].prevIdx;
    var n := sq.slots[s].nextIdx;
    var slots1 := sq.slots[s := sq.slots[s].(prevIdx := Nil, nextIdx := Nil)];
    var slots2 := if s == sq.head then slots1 else SetNext(slots1, p, n);
    var head := if s == sq.head then n else sq.head;
    var slots3 := if s == sq.tail then slots2 else SetPrev(slots2, n, p);
    var tail := if s == sq.tail then p else sq.tail;
    SlotQueue(slots3, head, tail)
  }

  /** The sequence `q` (head first) lists distinct in-range slots, and the
      head/tail indices and every member's links spell out exactly that
      order. */
  predicate Links(sq: SlotQueue, q: seq<nat>)
  {
    && |sq.slots| < Nil
    && |q| >= 1
    && q[0] == sq.head
    && q[|q| - 1] == sq.tail
    && (forall k :: 0 <= k < |q| ==> q[k] < |sq.slots|)
    && Distinct(q)
    && sq.slots[q[0]].prevIdx == Nil
    && sq.slots[q[|q| - 1]].nextIdx == Nil
    && (forall k :: 0 <= k < |q| - 1 ==> sq.slots[q[k]].nextIdx == q[k + 1])
    && (forall k :: 0 < k < |q| ==> sq.slots[q[k]].prevIdx == q[k - 1])
  }

  /** No slot occurs twice. */
  predicate Distinct(q: seq<nat>)
  {
    forall k, l :: 0 <= k < l < |q| ==> q[k] != q[l]
  }

  /** `q` with its element at position `k` taken out. */
  function RemoveAt(q: seq<nat>, k: nat): (r: seq<nat>)
    requires k < |q|
    ensures |r| == |q| - 1
    ensures forall m :: 0 <= m < |r| ==> r[m] == (if m < k then q[m] else q[m + 1])
  {
    q[..k] + q[k + 1..]
  }

  /** Position of `x` in `q`, for an `x` known to occur in it. */
  function IndexOf(q: seq<nat>, x: nat): (k: nat)
    requires x in q
    ensures k < |q| && q[k] == x
    ensures forall m :: 0 <= m < k ==> q[m] != x
  {
    if q[0] == x then 0 else 1 + IndexOf(q[1..], x)
  }

  /** Only the links of the queue's members matter: rewriting anything else
      (states, sizes, links of slots outside the queue) keeps the queue. */
  lemma LinksFrame(sq: SlotQueue, slots': seq<Slot>, q: seq<nat>)
    requires Links(sq, q)
    requires |slots'| == |sq.slots|
    requires forall k :: 0 <= k < |q| ==>
               slots'[q[k]].prevIdx == sq.slots[q[k]].prevIdx
               && slots'[q[k]].nextIdx == sq.slots[q[k]].nextIdx
    ensures Links(sq.(slots := slots'), q)
  {
  }

  /** Popping the tail of a queue of at least two slots returns its last
      member and leaves the rest in order. */
  lemma PopTailLinks(sq: SlotQueue, q: seq<nat>)
    requires Links(sq, q) && |q| >= 2
    ensures PopTail(sq).1 == q[|q| - 1]
    ensures Links(PopTail(sq).0, q[..|q| - 1])
  {
    var n := |q|;
    var p := q[n - 2];
    assert sq.slots[q[n - 1]].prevIdx == p;
    var slots' := SetNext(sq.slots, p, Nil);
    var r := SlotQueue(slots', sq.head, p);
    assert PopTail(sq).0 == r;
    var q' := q[..n - 1];
    forall k | 0 <= k < |q'|
      ensures slots'[q'[k]].nextIdx == (if k + 1 < |q'| then q'[k + 1] else Nil)
      ensures slots'[q'[k]].prevIdx == (if k > 0 then q'[k - 1] else Nil)
    {
      assert q'[k] == q[k];
      assert sq.slots[q[k]].prevIdx == (if k > 0 then q[k - 1] else Nil);
      if k < n - 2 {
        assert q[k] != q[n - 2];
        assert slots'[q[k]] == sq.slots[q[k]];
        assert q'[k + 1] == q[k + 1];
      } else {
        assert slots'[q[k]] == sq.slots[q[k]].(nextIdx := Nil);
      }
      if k > 0 {
        assert q'[k - 1] == q[k - 1];
      }
    }
    forall a, b | 0 <= a < b < |q'|
      ensures q'[a] != q'[b]
    {
      assert q'[a] == q[a] && q'[b] == q[b];
    }
    assert Links(r, q');
  }

  /** Pushing a slot that is not queued onto the head puts it first. */
  lemma PushHeadLinks(sq: SlotQueue, q: seq<nat>, s: nat)
    requires Links(sq, q) && s < |sq.slots| && s !in q
    ensures Links(PushHead(sq, s), [s] + q)
  {
    var slots1 := SetPrev(sq.slots, sq.head, s);
    var slots' := slots1[s := slots1[s].(prevIdx := Nil, nextIdx := sq.head)];
    assert PushHead(sq, s).slots == slots';
    var q' := [s] + q;
    forall k | 0 <= k < |q'|
      ensures slots'[q'[k]].nextIdx == (if k + 1 < |q'| then q'[k + 1] else Nil)
      ensures slots'[q'[k]].prevIdx == (if k > 0 then q'[k - 1] else Nil)
    {
      if k > 0 {
        var x := q[k - 1];
        assert q'[k] == x && x != s;
        assert slots'[x] == slots1[x];
        if k > 1 {
          assert x != q[0];
          assert slots1[x] == sq.slots[x];
        } else {
          assert x == sq.head;
        }
        if k + 1 < |q'| {
          assert q'[k + 1] == q[k];
        }
        assert q'[k - 1] == (if k > 1 then q[k - 2] else s);
      }
    }
    forall k, l | 0 <= k < l < |q'|
      ensures q'[k] != q'[l]
    {
      assert q'[l] == q[l - 1];
      if k > 0 {
        assert q'[k] == q[k - 1];
      }
    }
  }

  /** Pushing a slot that is not queued onto the tail puts it last. */
  lemma PushTailLinks(sq: SlotQueue, q: seq<nat>, s: nat)
    requires Links(sq, q) && s < |sq.slots| && s !in q
    ensures Links(PushTail(sq, s), q + [s])
  {
    var n := |q|;
    var slots1 := SetNext(sq.slots, sq.tail, s);
    var slots' := slots1[s := slots1[s].(prevIdx := sq.tail, nextIdx := Nil)];
    assert PushTail(sq, s).slots == slots';
    var q' := q + [s];
    forall k | 0 <= k < |q'|
      ensures slots'[q'[k]].nextIdx == (if k + 1 < |q'| then q'[k + 1] else Nil)
      ensures slots'[q'[k]].prevIdx == (if k > 0 then q'[k - 1] else Nil)
    {
      if k < n {
        var x := q[k];
        assert q'[k] == x && x != s;
        assert slots'[x] == slots1[x];
        if k < n - 1 {
          assert x != q[n - 1];
          assert slots1[x] == sq.slots[x];
          assert q'[k + 1] == q[k + 1];
        } else {
          assert x == sq.tail;
        }
        if k > 0 {
          assert q'[k - 1] == q[k - 1];
        }
      } else {
        assert q'[k - 1] == q[n - 1];
      }
    }
    forall k, l | 0 <= k < l < |q'|
      ensures q'[k] != q'[l]
    {
      assert q'[k] == q[k];
    }
  }

  /** Unlinking the member at position `k` of a queue of at least two slots
      leaves the others in their order. */
  lemma RemoveLinks(sq: SlotQueue, q: seq<nat>, k: nat)
    requires Links(sq, q) && |q| >= 2 && k < |q|
    ensures Links(Remove(sq, q[k]), RemoveAt(q, k))
  {
    RemoveAtDistinct(q, k);
    RemoveEnds(sq, q, k);
    RemoveNextLinks(sq, q, k);
    RemovePrevLinks(sq, q, k);
  }

  /** Taking an element out of a sequence without repeats leaves one
      without repeats. */
  lemma RemoveAtDistinct(q: seq<nat>, k: nat)
    requires k < |q|
    requires Distinct(q)
    ensures var q' := RemoveAt(q, k); forall a, b :: 0 <= a < b < |q'| ==> q'[a] != q'[b]
  {
    var q' := RemoveAt(q, k);
    forall a, b | 0 <= a < b < |q'|
      ensures q'[a] != q'[b]
    {
      var ja := if a < k then a else a + 1;
      var jb := if b < k then b else b + 1;
      assert q'[a] == q[ja] && q'[b] == q[jb] && ja < jb;
    }
  }

  /** After `Remove`, the new first and last members of the queue are its
      head and tail and have no outer neighbours. */
  lemma RemoveEnds(sq: SlotQueue, q: seq<nat>, k: nat)
    requires Links(sq, q) && |q| >= 2 && k < |q|
    ensures var q', r := RemoveAt(q, k), Remove(sq, q[k]);
      && q'[0] == r.head && q'[|q'| - 1] == r.tail
      && r.slots[q'[0]].prevIdx == Nil && r.slots[q'[|q'| - 1]].nextIdx == Nil
      && (forall m :: 0 <= m < |q'| ==> q'[m] < |r.slots|)
  {
    var n := |q|;
    var q' := RemoveAt(q, k);
    RemoveNeighbours(sq, q, k);
    if k == 0 {
      assert q'[0] == q[1];
    } else {
      assert q'[0] == q[0];
    }
    if k == n - 1 {
      assert q'[n - 2] == q[n - 2];
    } else {
      assert q'[n - 2] == q[n - 1];
    }
  }

  lemma RemoveNextLinks(sq: SlotQueue, q: seq<nat>, k: nat)
    requires Links(sq, q) && |q| >= 2 && k < |q|
    ensures var q', r := RemoveAt(q, k), Remove(sq, q[k]);
      forall m :: 0 <= m < |q'| - 1 ==> r.slots[q'[m]].nextIdx == q'[m + 1]
  {
    var q' := RemoveAt(q, k);
    var r := Remove(sq, q[k]);
    RemoveNeighbours(sq, q, k);
    forall m | 0 <= m < |q'| - 1
      ensures r.slots[q'[m]].nextIdx == q'[m + 1]
    {
      if m + 1 < k {
        assert q'[m] == q[m] && q'[m + 1] == q[m + 1];
      } else if m + 1 == k {
        assert q'[m] == q[m] && q'[m + 1] == q[k + 1];
      } else {
        assert q'[m] == q[m + 1] && q'[m + 1] == q[m + 2];
      }
    }
  }

  lemma RemovePrevLinks(sq: SlotQueue, q: seq<nat>, k: nat)
    requires Links(sq, q) && |q| >= 2 && k < |q|
    ensures var q', r := RemoveAt(q, k), Remove(sq, q[k]);
      forall m :: 0 < m < |q'| ==> r.slots[q'[m]].prevIdx == q'[m - 1]
  {
    var q' := RemoveAt(q, k);
    var r := Remove(sq, q[k]);
    RemoveNeighbours(sq, q, k);
    forall m | 0 < m < |q'|
      ensures r.slots[q'[m]].prevIdx == q'[m - 1]
    {
      if m < k {
        assert q'[m] == q[m] && q'[m - 1] == q[m - 1];
      } else if m == k {
        assert q'[m] == q[k + 1] && q'[m - 1] == q[k - 1];
      } else {
        assert q'[m] == q[m + 1] && q'[m - 1] == q[m];
      }
    }
  }

  /** What `Remove` does to each member of the queue other than the one
      removed: the predecessor now points past it, the successor back past
      it, every other member keeps its links, and head/tail move off it. */
  lemma RemoveNeighbours(sq: SlotQueue, q: seq<nat>, k: nat)
    requires Links(sq, q) && |q| >= 2 && k < |q|
    ensures var r := Remove(sq, q[k]);
      && (k == 0 ==> r.head == q[1]) && (k > 0 ==> r.head == sq.head)
      && (k == |q| - 1 ==> r.tail == q[|q| - 2]) && (k < |q| - 1 ==> r.tail == sq.tail)
      && (forall j :: 0 <= j < |q| && j != k ==>
            r.slots[q[j]].nextIdx
              == (if j == k - 1 then (if k + 1 < |q| then q[k + 1] else Nil) else sq.slots[q[j]].nextIdx))
      && (forall j :: 0 <= j < |q| && j != k ==>
            r.slots[q[j]].prevIdx
              == (if j == k + 1 then (if k > 0 then q[k - 1] else Nil) else sq.slots[q[j]].prevIdx))
  {
    var n := |q|;
    var s := q[k];
    var p := sq.slots[s].prevIdx;
    var nx := sq.slots[s].nextIdx;
    assert s == sq.head <==> k == 0 by {
      if k != 0 { assert q[k] != q[0]; }
    }
    assert s == sq.tail <==> k == n - 1 by {
      if k != n - 1 { assert q[k] != q[n - 1]; }
    }
    var slots1 := sq.slots[s := sq.slots[s].(prevIdx := Nil, nextIdx := Nil)];
    var slots2 := if s == sq.head then slots1 else SetNext(slots1, p, nx);
    var slots3 := if s == sq.tail then slots2 else SetPrev(slots2, nx, p);
    assert Remove(sq, s).slots == slots3;
    forall j | 0 <= j < n && j != k
      ensures slots3[q[j]].nextIdx
              == (if j == k - 1 then (if k + 1 < n then q[k + 1] else Nil) else sq.slots[q[j]].nextIdx)
      ensures slots3[q[j]].prevIdx
              == (if j == k + 1 then (if k > 0 then q[k - 1] else Nil) else sq.slots[q[j]].prevIdx)
    {
      assert q[j] != s;
      if k > 0 && j != k - 1 { assert q[j] != q[k - 1]; }
      if k + 1 < n && j != k + 1 { assert q[j] != q[k + 1]; }
    }
  }
}
