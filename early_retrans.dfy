/**
 * The early-retransmit receiver of the sliding-window test
 * (`serverEarlyRetrans`): a `received` bitmap indexed by sequence number,
 * the counter `i` of distinct segments accepted, and `lastAck`, the value of
 * the last acknowledgment sent.
 *
 * `Deliver` is the specification of one arrival on abstract state;
 * `Receiver.OnSegment` performs it in place on the array and is proved to
 * agree with it; `ServeEarlyRetrans` is the receive loop.
 */
module EarlyRetrans {
  import opened Channel

  /** Abstract receiver state: the bitmap, the counter `i` and `lastAck`. */
  datatype ReceiverState = ReceiverState(marks: seq<bool>, count: int, lastAck: int)

  /** The admission test, judged against the `lastAck` in force when `s` arrives. */
  predicate Admits(lastAck: int, windowSize: int, s: int)
  {
    s - lastAck <= windowSize
  }

  /** Number of marked entries of a bitmap. */
  function CountMarked(marks: seq<bool>): (n: nat)
    ensures n <= |marks|
  {
    if marks == [] then 0 else (if marks[0] then 1 else 0) + CountMarked(marks[1..])
  }

  /** The first unmarked index of a bitmap, or its length when every entry is marked. */
  function FirstUnmarked(marks: seq<bool>): (r: nat)
    ensures r <= |marks|
    ensures forall k :: 0 <= k < r ==> marks[k]
    ensures r < |marks| ==> !marks[r]
  {
    if marks == [] || !marks[0] then 0 else 1 + FirstUnmarked(marks[1..])
  }

  function Min(a: int, b: int): int
  {
    if a < b then a else b
  }

  /** The arrival of sequence number `s` is defined: an admitted `s` must index the bitmap. */
  predicate Defined(st: ReceiverState, windowSize: int, s: int)
  {
    Admits(st.lastAck, windowSize, s) ==> 0 <= s < |st.marks|
  }

  /**
   * One arrival of sequence number `s`: the new state and the acknowledgment
   * sent, if any. Admission is judged against the old `lastAck`: a refused
   * arrival changes nothing and is not acknowledged. An admitted one marks
   * `s`, and is acknowledged with the new `lastAck`, which is the smaller of
   * `s` and the first unmarked index, so every index below it is marked.
   */
  function Deliver(st: ReceiverState, windowSize: int, s: int): (r: (ReceiverState, Option<int>))
    requires Defined(st, windowSize, s)
    ensures r.1.Some? <==> Admits(st.lastAck, windowSize, s)
    ensures !Admits(st.lastAck, windowSize, s) ==> r.0 == st
    ensures Admits(st.lastAck, windowSize, s) ==>
      |r.0.marks| == |st.marks| && r.0.marks[s] && r.1 == Some(r.0.lastAck) &&
      r.0.lastAck <= s && r.0.lastAck <= FirstUnmarked(r.0.marks) &&
      (r.0.lastAck == s || r.0.lastAck == FirstUnmarked(r.0.marks)) &&
      forall k :: 0 <= k < r.0.lastAck ==> r.0.marks[k]
  {
    if !Admits(st.lastAck, windowSize, s) then (st, None)
    else
      var marks := st.marks[s := true];
      var count := if st.marks[s] then st.count else st.count + 1;
      var ack := Min(FirstUnmarked(marks), s);
      (ReceiverState(marks, count, ack), Some(ack))
  }

  /** The receiver invariant: `i` counts the marks, and every index below `lastAck` is marked. */
  predicate Consistent(st: ReceiverState)
  {
    st.count == CountMarked(st.marks) &&
    0 <= st.lastAck <= FirstUnmarked(st.marks)
  }

  /** Marking one entry adds one to the count exactly when it was unmarked. */
  lemma {:induction false} CountMarkedSet(marks: seq<bool>, s: nat)
    requires s < |marks|
    ensures CountMarked(marks[s := true]) == CountMarked(marks) + (if marks[s] then 0 else 1)
  {
    if s == 0 {
      assert marks[s := true][1..] == marks[1..];
    } else {
      assert marks[s := true][1..] == marks[1..][s - 1 := true];
      CountMarkedSet(marks[1..], s - 1);
    }
  }

  /** A bitmap whose marks include those of another has at least as long a marked prefix. */
  lemma FirstUnmarkedGrows(before: seq<bool>, after: seq<bool>)
    requires |before| == |after|
    requires forall k :: 0 <= k < |before| && before[k] ==> after[k]
    ensures FirstUnmarked(before) <= FirstUnmarked(after)
  {
  }

  /**
   * Marks are never cleared, only entry `s` can change, and a duplicate of a
   * marked segment leaves bitmap and counter unchanged.
   */
  lemma DeliverKeepsMarks(st: ReceiverState, windowSize: int, s: int)
    requires Defined(st, windowSize, s)
    ensures var after := Deliver(st, windowSize, s).0;
      |after.marks| == |st.marks| &&
      (forall k :: 0 <= k < |st.marks| && st.marks[k] ==> after.marks[k]) &&
      (forall k :: 0 <= k < |st.marks| && k != s ==> after.marks[k] == st.marks[k])
    ensures 0 <= s < |st.marks| && st.marks[s] ==>
      Deliver(st, windowSize, s).0.marks == st.marks && Deliver(st, windowSize, s).0.count == st.count
  {
  }

  /**
   * The counter invariant: if `i` equals the number of marked entries before
   * an arrival, it does after, and it grew by one exactly when a new
   * segment was marked.
   */
  lemma DeliverCounts(st: ReceiverState, windowSize: int, s: int)
    requires Defined(st, windowSize, s)
    requires st.count == CountMarked(st.marks)
    ensures var after := Deliver(st, windowSize, s).0;
      after.count == CountMarked(after.marks) &&
      after.count == st.count + (if after.marks == st.marks then 0 else 1)
  {
    if Admits(st.lastAck, windowSize, s) {
      CountMarkedSet(st.marks, s);
      if !st.marks[s] {
        assert Deliver(st, windowSize, s).0.marks[s] != st.marks[s];
      }
    }
  }

  /** Every arrival preserves the receiver invariant. */
  lemma DeliverConsistent(st: ReceiverState, windowSize: int, s: int)
    requires Defined(st, windowSize, s)
    requires Consistent(st)
    ensures Consistent(Deliver(st, windowSize, s).0)
  {
    DeliverCounts(st, windowSize, s);
  }

  /**
   * The acknowledgment is not monotonic: a duplicate of a segment below the
   * marked prefix is acknowledged with its own, smaller, sequence number.
   */
  lemma AckCanDecrease()
    ensures exists st: ReceiverState, s: int ::
      Consistent(st) && Defined(st, 1, s) &&
      Deliver(st, 1, s).1.Some? && Deliver(st, 1, s).0.lastAck < st.lastAck
  {
    var st := ReceiverState([true, true, true, false], 3, 2);
    assert FirstUnmarked(st.marks) == 3 by {
      assert FirstUnmarked(st.marks[3..]) == 0;
    }
    assert Deliver(st, 1, 1).0.lastAck == 1;
  }

  /**
   * The receiver of `serverEarlyRetrans`: the bitmap `received` of fixed
   * capacity, the counter `count` (the source's `i`) and `lastAck`.
   */
  class Receiver {
    const windowSize: int
    const received: array<bool>
    var count: int
    var lastAck: int

    ghost function State(): ReceiverState
      reads this, received
    {
      ReceiverState(received[..], count, lastAck)
    }

    ghost predicate Valid()
      reads this, received
    {
      Consistent(State())
    }

    /** A fresh receiver: nothing marked, nothing counted, `lastAck` zero. */
    constructor (capacity: nat, windowSize: int)
      ensures Valid() && fresh(received)
      ensures this.windowSize == windowSize && received.Length == capacity
      ensures forall k :: 0 <= k < capacity ==> !received[k]
      ensures count == 0 && lastAck == 0
    {
      this.windowSize := windowSize;
      received := new bool[capacity](_ => false);
      count, lastAck := 0, 0;
      new;
      assert CountMarked(received[..]) == 0 by {
        NoMarksCount(received[..]);
      }
    }

    /** The scan for the first unmarked index, bounded by the capacity. */
    method FirstUnmarkedIndex() returns (index: nat)
      ensures index <= received.Length
      ensures forall k :: 0 <= k < index ==> received[k]
      ensures index < received.Length ==> !received[index]
      ensures index == FirstUnmarked(received[..])
    {
      index := 0;
      while index < received.Length && received[index]
        invariant index <= received.Length
        invariant forall k :: 0 <= k < index ==> received[k]
      {
        index := index + 1;
      }
    }

    /** One arrival of sequence number `s`, performed in place; returns the ack sent, if any. */
    method OnSegment(s: int) returns (ack: Option<int>)
      requires Valid()
      requires Defined(State(), windowSize, s)
      modifies this, received
      ensures Valid()
      ensures (State(), ack) == Deliver(old(State()), windowSize, s)
      ensures count <= old(count) + 1
      ensures FirstUnmarked(old(received[..])) <= FirstUnmarked(received[..])
      ensures ack.Some? ==> 0 <= ack.value <= FirstUnmarked(received[..])
    {
      ghost var before := State();
      if s - lastAck <= windowSize {
        if !received[s] {
          received[s] := true;
          count := count + 1;
        } else {
          assert received[..] == before.marks[s := true];
        }
        var index := FirstUnmarkedIndex();
        lastAck := if index < s then index else s;
        ack := Some(lastAck);
      } else {
        ack := None;
      }
      DeliverConsistent(before, windowSize, s);
      DeliverKeepsMarks(before, windowSize, s);
      FirstUnmarkedGrows(before.marks, received[..]);
    }
  }

  lemma NoMarksCount(marks: seq<bool>)
    requires forall k :: 0 <= k < |marks| ==> !marks[k]
    ensures CountMarked(marks) == 0
  {
    if marks != [] {
      NoMarksCount(marks[1..]);
    }
  }

  /** The receiver before any arrival: `capacity` unmarked entries, nothing counted, `lastAck` zero. */
  function Initial(capacity: nat): (st: ReceiverState)
    ensures |st.marks| == capacity && CountMarked(st.marks) == 0 && Consistent(st)
  {
    var marks := seq(capacity, _ => false);
    NoMarksCount(marks);
    ReceiverState(marks, 0, 0)
  }

  /**
   * The arrivals among the first `n` polls delivered one by one from `st`:
   * the state reached and the acknowledgments sent, in order. `None` once an
   * admitted sequence number falls outside the bitmap.
   */
  function DeliverAll(st: ReceiverState, windowSize: int, polls: seq<Poll>, n: nat): (r: Option<(ReceiverState, seq<int>)>)
    requires n <= |polls|
    ensures r.Some? ==> |r.value.0.marks| == |st.marks| && |r.value.1| <= CountReady(polls, n)
  {
    if n == 0 then Some((st, []))
    else match DeliverAll(st, windowSize, polls, n - 1)
      case None => None
      case Some((before, acks)) =>
        if !polls[n - 1].Ready? then Some((before, acks))
        else if !Defined(before, windowSize, polls[n - 1].value) then None
        else
          var (after, ack) := Deliver(before, windowSize, polls[n - 1].value);
          Some((after, if ack.Some? then acks + [ack.value] else acks))
  }

  /**
   * Along any run from a consistent state the receiver stays consistent,
   * no mark is cleared, and every acknowledgment sent is at most the first
   * unmarked index of the state reached.
   */
  lemma {:induction false} DeliverAllConsistent(st: ReceiverState, windowSize: int, polls: seq<Poll>, n: nat)
    requires n <= |polls| && Consistent(st)
    ensures var r := DeliverAll(st, windowSize, polls, n);
      r.Some? ==>
        Consistent(r.value.0) &&
        (forall k :: 0 <= k < |st.marks| && st.marks[k] ==> r.value.0.marks[k]) &&
        (forall a :: a in r.value.1 ==> 0 <= a <= FirstUnmarked(r.value.0.marks))
  {
    if n > 0 {
      DeliverAllConsistent(st, windowSize, polls, n - 1);
      var prev := DeliverAll(st, windowSize, polls, n - 1);
      if prev.Some? && polls[n - 1].Ready? && Defined(prev.value.0, windowSize, polls[n - 1].value) {
        var before, s := prev.value.0, polls[n - 1].value;
        var after := Deliver(before, windowSize, s).0;
        DeliverConsistent(before, windowSize, s);
        DeliverKeepsMarks(before, windowSize, s);
        FirstUnmarkedGrows(before.marks, after.marks);
      }
    }
  }

  /** The run of the first `n` polls is defined and ends with bitmap `marks`, having sent `acks`. */
  predicate Reaches(run: Option<(ReceiverState, seq<int>)>, marks: seq<bool>, acks: seq<int>)
  {
    run.Some? && run.value.0.marks == marks && run.value.1 == acks
  }

  /** The run is defined and has counted fewer than `max` segments: the loop goes on polling. */
  predicate Open(run: Option<(ReceiverState, seq<int>)>, max: int)
  {
    run.Some? && run.value.0.count < max
  }

  /** How the receive loop ended. */
  datatype RecvStatus =
    | Done          // `count` reached `max`: the loop condition `i < max` failed
    | Exhausted     // the poll stream ended first
    | Undefined     // an admitted sequence number lay outside the bitmap

  /**
   * The receive loop of `serverEarlyRetrans`: poll until `max` distinct
   * segments are marked, handing every arrival to `OnSegment`. Returns how
   * the loop ended, the acknowledgments sent in order, the final bitmap and
   * how many polls were consumed. The bitmap and the acknowledgments are
   * those of `DeliverAll` over the polls consumed, and the loop stops at the
   * first poll after which `max` segments are marked.
   */
  method ServeEarlyRetrans(max: int, capacity: nat, windowSize: int, polls: seq<Poll>)
    returns (status: RecvStatus, acks: seq<int>, marks: seq<bool>, consumed: nat)
    ensures consumed <= |polls| && |marks| == capacity
    ensures status == Done <==> CountMarked(marks) >= max
    ensures status == Done ==> CountMarked(marks) == (if max < 0 then 0 else max)
    ensures status == Exhausted ==> consumed == |polls|
    ensures status == Undefined ==>
      0 < consumed && polls[consumed - 1].Ready? &&
      !(0 <= polls[consumed - 1].value < capacity)
    ensures status != Undefined ==> Reaches(DeliverAll(Initial(capacity), windowSize, polls, consumed), marks, acks)
    ensures status == Undefined ==>
      Reaches(DeliverAll(Initial(capacity), windowSize, polls, consumed - 1), marks, acks) &&
      DeliverAll(Initial(capacity), windowSize, polls, consumed) == None
    ensures forall n :: 0 <= n < consumed ==> Open(DeliverAll(Initial(capacity), windowSize, polls, n), max)
    ensures |acks| <= CountReady(polls, consumed)
    ensures forall a :: a in acks ==> 0 <= a <= FirstUnmarked(marks)
  {
    var r := new Receiver(capacity, windowSize);
    acks, consumed := [], 0;
    assert r.State() == Initial(capacity);
    while r.count < max
      invariant fresh(r) && fresh(r.received)
      invariant r.Valid() && r.received.Length == capacity && r.windowSize == windowSize
      invariant consumed <= |polls|
      invariant DeliverAll(Initial(capacity), windowSize, polls, consumed) == Some((r.State(), acks))
      invariant forall n :: 0 <= n < consumed ==> Open(DeliverAll(Initial(capacity), windowSize, polls, n), max)
      invariant max <= 0 ==> r.count == 0
      invariant r.count <= max || max < 0
      decreases |polls| - consumed
    {
      if consumed == |polls| {
        DeliverAllConsistent(Initial(capacity), windowSize, polls, consumed);
        return Exhausted, acks, r.received[..], consumed;
      }
      var p := polls[consumed];
      consumed := consumed + 1;
      if p.Ready? {
        var s := p.value;
        if s - r.lastAck <= windowSize && !(0 <= s < capacity) {
          DeliverAllConsistent(Initial(capacity), windowSize, polls, consumed - 1);
          return Undefined, acks, r.received[..], consumed;
        }
        var ack := r.OnSegment(s);
        if ack.Some? {
          acks := acks + [ack.value];
        }
      }
    }
    DeliverAllConsistent(Initial(capacity), windowSize, polls, consumed);
    status, marks := Done, r.received[..];
  }
}
