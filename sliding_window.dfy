/**
 * The sender of the sliding-window test (`clientSlidingWindow`): the vector
 * `sentId` of outstanding sequence numbers, pushed on every send and erased
 * one entry per acknowledgment, and the send loop that blocks while the
 * window is full.
 */
module SlidingWindow {
  import opened Channel

  predicate StrictlyIncreasing(s: seq<int>)
  {
    forall i, j :: 0 <= i < j < |s| ==> s[i] < s[j]
  }

  /** The position `std::find` returns for a value that is present: its first occurrence. */
  function IndexOf(s: seq<int>, v: int): (k: nat)
    requires v in s
    ensures k < |s| && s[k] == v
    ensures forall j :: 0 <= j < k ==> s[j] != v
  {
    if s[0] == v then 0 else 1 + IndexOf(s[1..], v)
  }

  /**
   * The window after `erase(find(v))` for an acknowledgment `v` that is
   * present: the entry at the first occurrence of `v` is removed and the
   * later entries move down by one.
   */
  function EraseAck(s: seq<int>, v: int): (r: seq<int>)
    requires v in s
    ensures |r| == |s| - 1
    ensures forall j :: 0 <= j < IndexOf(s, v) ==> r[j] == s[j]
    ensures forall j :: IndexOf(s, v) <= j < |r| ==> r[j] == s[j + 1]
  {
    var k := IndexOf(s, v);
    s[..k] + s[k + 1..]
  }

  /** Consuming an acknowledgment removes exactly one occurrence of `v` and nothing else. */
  lemma EraseAckRemovesOne(s: seq<int>, v: int)
    requires v in s
    ensures multiset(EraseAck(s, v)) == multiset(s) - multiset{v}
  {
    var k := IndexOf(s, v);
    var before, after := s[..k], s[k + 1..];
    assert s == before + ([v] + after);
    assert multiset(s) == multiset(before) + (multiset{v} + multiset(after));
  }

  /**
   * On a strictly increasing window, consuming `v` leaves a strictly
   * increasing window holding every other entry and no longer holding `v`.
   */
  lemma EraseAckKeepsOrder(s: seq<int>, v: int)
    requires StrictlyIncreasing(s) && v in s
    ensures StrictlyIncreasing(EraseAck(s, v))
    ensures forall x :: x in EraseAck(s, v) <==> x in s && x != v
  {
    var r, k := EraseAck(s, v), IndexOf(s, v);
    forall x | x in s && x != v
      ensures x in r
    {
      var j :| 0 <= j < |s| && s[j] == x;
      if j < k { assert r[j] == x; } else { assert r[j - 1] == x; }
    }
  }

  /**
   * Acknowledgments are not cumulative: consuming `v` can leave smaller
   * outstanding sequence numbers in the window.
   */
  lemma AckNotCumulative()
    ensures exists s: seq<int>, v: int ::
      StrictlyIncreasing(s) && v in s && exists x :: x in EraseAck(s, v) && x < v
  {
    var s := [2, 3, 4, 5];
    assert IndexOf(s, 5) == 3;
    assert EraseAck(s, 5) == [2, 3, 4];
    assert 2 in EraseAck(s, 5);
  }

  /**
   * The outstanding window `sentId`. The invariant: strictly increasing,
   * and never more than `windowSize` entries when `windowSize` is positive.
   */
  class SendWindow {
    const windowSize: int
    var sentId: seq<int>

    ghost predicate Valid()
      reads this
    {
      StrictlyIncreasing(sentId) && (windowSize >= 1 ==> |sentId| <= windowSize)
    }

    constructor (windowSize: int)
      ensures Valid() && this.windowSize == windowSize && sentId == []
    {
      this.windowSize := windowSize;
      sentId := [];
    }

    /** `sentId.push_back(i)`; the caller keeps the window from overflowing. */
    method Push(i: int)
      requires Valid()
      requires windowSize >= 1 ==> |sentId| < windowSize
      requires forall x :: x in sentId ==> x < i
      modifies this
      ensures Valid() && sentId == old(sentId) + [i]
    {
      var s := sentId + [i];
      forall a, b | 0 <= a < b < |s|
        ensures s[a] < s[b]
      {
        if b == |sentId| { assert s[a] in sentId; }
      }
      sentId := s;
    }

    /** `find(sentId.begin(), sentId.end(), v)`, as an index; `|sentId|` stands for `end()`. */
    method Find(v: int) returns (k: nat)
      ensures k <= |sentId|
      ensures k == |sentId| <==> v !in sentId
      ensures k < |sentId| ==> k == IndexOf(sentId, v)
    {
      k := 0;
      while k < |sentId| && sentId[k] != v
        invariant k <= |sentId|
        invariant forall j :: 0 <= j < k ==> sentId[j] != v
      {
        k := k + 1;
      }
    }

    /** `sentId.erase(find(...))` for an acknowledgment that is outstanding. */
    method ConsumeAck(v: int)
      requires Valid() && v in sentId
      modifies this
      ensures Valid() && sentId == EraseAck(old(sentId), v)
    {
      var k := Find(v);
      EraseAckKeepsOrder(sentId, v);
      sentId := sentId[..k] + sentId[k + 1..];
    }
  }

  /**
   * Every transmission in the log carries the newest sequence number
   * introduced so far: first transmissions are numbered 0, 1, 2, … and a
   * retransmission repeats the latest of them (`NumberedAt` states it per entry).
   */
  ghost predicate Numbered(log: seq<Tx>)
  {
    log == [] ||
    (var prefix, last := log[..|log| - 1], log[|log| - 1];
     Numbered(prefix) && last.seg == CountFresh(prefix) - (if last.resend then 1 else 0))
  }

  lemma NumberedAppend(log: seq<Tx>, t: Tx)
    requires Numbered(log)
    requires t.seg == CountFresh(log) - (if t.resend then 1 else 0)
    ensures Numbered(log + [t])
  {
    assert (log + [t])[..|log|] == log;
  }

  /** What `Numbered` means for each entry of the log. */
  lemma {:induction false} NumberedAt(log: seq<Tx>, p: nat)
    requires Numbered(log) && p < |log|
    ensures log[p].seg == CountFresh(log[..p + 1]) - 1
    ensures !log[p].resend ==> log[p].seg == CountFresh(log[..p])
  {
    var prefix := log[..|log| - 1];
    CountLogStep(log[..p], log[p]);
    assert log[..p] + [log[p]] == log[..p + 1];
    if p < |log| - 1 {
      NumberedAt(prefix, p);
      assert prefix[..p + 1] == log[..p + 1] && prefix[..p] == log[..p];
    } else {
      assert log[..p] == prefix;
    }
  }

  /** How a send's wait for an acknowledgment ended. */
  datatype WaitStatus =
    | Room        // the window had room after the push: there was no wait
    | Acked       // one outstanding acknowledgment was consumed
    | NoAck       // the poll stream ended before any reply
    | StrayAck    // a reply arrived that is not in the window: `erase(end())`

  /**
   * Every transmission in the log happened after at most `bound` polls, and
   * every retransmission right after a poll that found the timer expired.
   */
  ghost predicate Timed(log: seq<Tx>, polls: seq<Poll>, bound: nat)
  {
    forall p :: 0 <= p < |log| ==>
      log[p].at <= bound &&
      (log[p].resend ==> 0 < log[p].at <= |polls| && polls[log[p].at - 1] == Expired)
  }

  lemma TimedAppend(log: seq<Tx>, polls: seq<Poll>, bound: nat, t: Tx)
    requires Timed(log, polls, bound) && t.at <= bound
    requires t.resend ==> 0 < t.at <= |polls| && polls[t.at - 1] == Expired
    ensures Timed(log + [t], polls, bound)
  {
  }

  lemma TimedLater(log: seq<Tx>, polls: seq<Poll>, bound: nat, later: nat)
    requires Timed(log, polls, bound) && bound <= later
    ensures Timed(log, polls, later)
  {
  }

  /**
   * The retransmissions of segment `seg` that the polls `from .. upto-1` cause
   * while the window is full: one per poll that found the timer expired,
   * sent right after that poll.
   */
  function Timeouts(seg: int, polls: seq<Poll>, from: nat, upto: nat): (r: seq<Tx>)
    requires from <= upto <= |polls|
    ensures |r| == CountExpired(polls, upto) - CountExpired(polls, from)
    decreases upto
  {
    if upto == from then []
    else Timeouts(seg, polls, from, upto - 1) + (if polls[upto - 1] == Expired then [Tx(seg, true, upto)] else [])
  }

  /** Consuming the reply read by poll `j` moves its value from the window to the replies read. */
  lemma ConsumeReply(window: seq<int>, polls: seq<Poll>, j: nat)
    requires j < |polls| && polls[j].Ready? && polls[j].value in window
    ensures multiset(EraseAck(window, polls[j].value)) + Replies(polls, j + 1) ==
      multiset(window) + Replies(polls, j)
  {
    var v := polls[j].value;
    EraseAckRemovesOne(window, v);
    assert v in multiset(window);
    assert Replies(polls, j + 1) == Replies(polls, j) + multiset{v};
  }

  lemma AppendAssoc(a: seq<Tx>, b: seq<Tx>, c: seq<Tx>)
    ensures a + (b + c) == (a + b) + c
  {
  }

  /** One more poll of the wait: its timeout, if it had one, its expiry count and its (absent) reply. */
  lemma TimeoutsStep(seg: int, polls: seq<Poll>, from: nat, upto: nat)
    requires from <= upto < |polls| && !polls[upto].Ready?
    ensures Timeouts(seg, polls, from, upto + 1) ==
      Timeouts(seg, polls, from, upto) + (if polls[upto] == Expired then [Tx(seg, true, upto + 1)] else [])
    ensures CountExpired(polls, upto + 1) == CountExpired(polls, upto) + (if polls[upto] == Expired then 1 else 0)
  {
  }

  /** Polls that read no reply add nothing to the replies read. */
  lemma {:induction false} NoReplies(polls: seq<Poll>, from: nat, upto: nat)
    requires from <= upto <= |polls|
    requires forall j :: from <= j < upto ==> !polls[j].Ready?
    ensures Replies(polls, upto) == Replies(polls, from)
    decreases upto
  {
    if from < upto {
      NoReplies(polls, from, upto - 1);
    }
  }

  /** Appending timeouts adds retransmissions only. */
  lemma {:induction false} TimeoutsCounted(seg: int, polls: seq<Poll>, from: nat, upto: nat, log0: seq<Tx>)
    requires from <= upto <= |polls|
    ensures CountFresh(log0 + Timeouts(seg, polls, from, upto)) == CountFresh(log0)
    ensures CountResends(log0 + Timeouts(seg, polls, from, upto)) ==
      CountResends(log0) + |Timeouts(seg, polls, from, upto)|
    decreases upto
  {
    if upto == from {
      assert log0 + Timeouts(seg, polls, from, upto) == log0;
    } else {
      TimeoutsCounted(seg, polls, from, upto - 1, log0);
      var prev := Timeouts(seg, polls, from, upto - 1);
      if polls[upto - 1] == Expired {
        var t := Tx(seg, true, upto);
        CountLogStep(log0 + prev, t);
        AppendAssoc(log0, prev, [t]);
      } else {
        assert Timeouts(seg, polls, from, upto) == prev + [];
        assert prev + [] == prev;
      }
    }
  }

  /** Appending the timeouts of the latest segment keeps the log numbered. */
  lemma {:induction false} TimeoutsNumbered(seg: int, polls: seq<Poll>, from: nat, upto: nat, log0: seq<Tx>)
    requires from <= upto <= |polls|
    requires Numbered(log0) && seg == CountFresh(log0) - 1
    ensures Numbered(log0 + Timeouts(seg, polls, from, upto))
    decreases upto
  {
    if upto == from {
      assert log0 + Timeouts(seg, polls, from, upto) == log0;
    } else {
      TimeoutsNumbered(seg, polls, from, upto - 1, log0);
      var prev := Timeouts(seg, polls, from, upto - 1);
      if polls[upto - 1] == Expired {
        var t := Tx(seg, true, upto);
        TimeoutsCounted(seg, polls, from, upto - 1, log0);
        NumberedAppend(log0 + prev, t);
        AppendAssoc(log0, prev, [t]);
      } else {
        assert Timeouts(seg, polls, from, upto) == prev + [];
        assert prev + [] == prev;
      }
    }
  }

  /** Each appended timeout is a retransmission right after an expired poll. */
  lemma {:induction false} TimeoutsTimed(seg: int, polls: seq<Poll>, from: nat, upto: nat, log0: seq<Tx>)
    requires from <= upto <= |polls|
    requires Timed(log0, polls, from)
    ensures Timed(log0 + Timeouts(seg, polls, from, upto), polls, upto)
    decreases upto
  {
    if upto == from {
      assert log0 + Timeouts(seg, polls, from, upto) == log0;
    } else {
      TimeoutsTimed(seg, polls, from, upto - 1, log0);
      var prev := log0 + Timeouts(seg, polls, from, upto - 1);
      TimedLater(prev, polls, upto - 1, upto);
      if polls[upto - 1] == Expired {
        var t := Tx(seg, true, upto);
        TimedAppend(prev, polls, upto, t);
        assert log0 + Timeouts(seg, polls, from, upto) == prev + [t];
      } else {
        assert log0 + Timeouts(seg, polls, from, upto) == prev;
      }
    }
  }

  /**
   * The polling part of the blocking wait of a full window: poll until a
   * reply is ready, retransmitting segment `seg` (the latest, not the window
   * base) on every expired timer. Stops at the ready poll without consuming
   * it, or at the end of the poll stream.
   */
  method WaitForReply(seg: int, polls: seq<Poll>, from: nat, log0: seq<Tx>)
    returns (next: nat, log: seq<Tx>, resent: nat)
    requires from <= |polls|
    ensures from <= next <= |polls|
    ensures forall j :: from <= j < next ==> !polls[j].Ready?
    ensures next < |polls| ==> polls[next].Ready?
    ensures log == log0 + Timeouts(seg, polls, from, next)
    ensures Replies(polls, next) == Replies(polls, from)
    ensures resent == CountExpired(polls, next) - CountExpired(polls, from)
  {
    next, log, resent := from, log0, 0;
    while next < |polls| && !polls[next].Ready?
      invariant from <= next <= |polls|
      invariant forall j :: from <= j < next ==> !polls[j].Ready?
      invariant log == log0 + Timeouts(seg, polls, from, next)
      invariant resent == CountExpired(polls, next) - CountExpired(polls, from)
    {
      TimeoutsStep(seg, polls, from, next);
      if polls[next] == Expired {
        var t := Tx(seg, true, next + 1);
        AppendAssoc(log0, Timeouts(seg, polls, from, next), [t]);
        log, resent := log + [t], resent + 1;
      } else {
        assert Timeouts(seg, polls, from, next) + [] == Timeouts(seg, polls, from, next);
      }
      next := next + 1;
    }
    NoReplies(polls, from, next);
  }

  /**
   * The non-blocking drain after a send: one poll; a ready reply is
   * consumed. Once the poll stream has ended nothing is ever ready.
   */
  method PollAck(w: SendWindow, polls: seq<Poll>, from: nat) returns (status: WaitStatus, next: nat)
    requires w.Valid() && from <= |polls|
    modifies w
    ensures w.Valid()
    ensures next == if from < |polls| then from + 1 else from
    ensures status != Room
    ensures status == NoAck <==> !(from < |polls| && polls[from].Ready?)
    ensures status == Acked ==>
      polls[from].value in old(w.sentId) && w.sentId == EraseAck(old(w.sentId), polls[from].value)
    ensures status == StrayAck ==> polls[from].value !in old(w.sentId)
    ensures status != Acked ==> w.sentId == old(w.sentId)
    ensures status != StrayAck ==>
      multiset(w.sentId) + Replies(polls, next) == multiset(old(w.sentId)) + Replies(polls, from)
  {
    next, status := from, NoAck;
    if from < |polls| {
      next := from + 1;
      if polls[from].Ready? {
        var v := polls[from].value;
        if v in w.sentId {
          ConsumeReply(w.sentId, polls, from);
          w.ConsumeAck(v);
          status := Acked;
        } else {
          status := StrayAck;
        }
      }
    }
  }

  /**
   * The blocking wait of a full window: `WaitForReply`, then consume the
   * reply that is ready. Exactly one reply is consumed: every poll before
   * the last one found nothing ready.
   */
  method AwaitAck(w: SendWindow, seg: int, ghost max: int, polls: seq<Poll>, from: nat, log0: seq<Tx>)
    returns (status: WaitStatus, ready: nat, next: nat, log: seq<Tx>, resent: nat)
    requires w.Valid() && from <= |polls|
    modifies w
    ensures w.Valid()
    ensures from <= ready <= next <= |polls| && status != Room
    ensures forall k :: from <= k < ready ==> !polls[k].Ready?
    ensures status == NoAck ==> ready == next == |polls|
    ensures status != NoAck ==> next == ready + 1 && polls[ready].Ready?
    ensures log == log0 + Timeouts(seg, polls, from, ready)
    ensures Replies(polls, ready) == Replies(polls, from)
    ensures status == Acked ==>
      polls[ready].value in old(w.sentId) &&
      w.sentId == EraseAck(old(w.sentId), polls[ready].value) &&
      |w.sentId| == |old(w.sentId)| - 1
    ensures status == StrayAck ==> polls[ready].value !in old(w.sentId)
    ensures status != Acked ==> w.sentId == old(w.sentId)
    ensures resent == CountExpired(polls, ready) - CountExpired(polls, from)
    ensures SameRun(Sender(old(w.sentId), seg + 1, log0, Blocked), from,
                    AfterWait(status, w.sentId, seg + 1, log), next, polls, max, w.windowSize)
  {
    ghost var window0 := w.sentId;
    ready, log, resent := WaitForReply(seg, polls, from, log0);
    status, next := PollAck(w, polls, ready);
    BlockedRun(window0, seg + 1, log0, from, status, ready, next, w.sentId, log, polls, max, w.windowSize);
  }

  /** How the send loop ended. */
  datatype SendStatus =
    | Completed   // all `max` segments were sent; `resendCount` is returned
    | Stalled     // the poll stream ended while the window was full
    | Undefined   // a reply arrived that is not in the window: `erase(end())`

  /** Every outstanding sequence number lies in `[0, bound)`. */
  predicate Below(window: seq<int>, bound: int)
  {
    forall x :: x in window ==> 0 <= x < bound
  }

  lemma BelowPush(window: seq<int>, i: int)
    requires 0 <= i && Below(window, i)
    ensures Below(window + [i], i + 1)
  {
  }

  lemma BelowErase(window: seq<int>, v: int, bound: int)
    requires StrictlyIncreasing(window) && v in window && Below(window, bound)
    ensures Below(EraseAck(window, v), bound)
  {
    EraseAckKeepsOrder(window, v);
  }

  /** `sendto` of segment `i` for the first time, then `sentId.push_back(i)`. */
  method Transmit(w: SendWindow, i: int, polls: seq<Poll>, from: nat, log0: seq<Tx>) returns (log: seq<Tx>)
    requires w.Valid() && (w.windowSize >= 1 ==> |w.sentId| < w.windowSize)
    requires 0 <= i && Below(w.sentId, i)
    requires from <= |polls|
    requires Numbered(log0) && Timed(log0, polls, from) && CountFresh(log0) == i
    modifies w
    ensures w.Valid() && w.sentId == old(w.sentId) + [i] && Below(w.sentId, i + 1)
    ensures log == log0 + [Tx(i, false, from)]
    ensures Numbered(log) && Timed(log, polls, from) && CountFresh(log) == i + 1
    ensures CountResends(log) == CountResends(log0)
  {
    var t := Tx(i, false, from);
    NumberedAppend(log0, t);
    CountLogStep(log0, t);
    TimedAppend(log0, polls, from, t);
    log := log0 + [t];
    BelowPush(w.sentId, i);
    w.Push(i);
  }

  /**
   * Send segment `i` and push it on the window; if that fills the window,
   * wait for exactly one acknowledgment.
   */
  method SendAndWait(w: SendWindow, i: int, ghost max: int, polls: seq<Poll>, from: nat, log0: seq<Tx>)
    returns (waited: WaitStatus, ready: nat, next: nat, log: seq<Tx>, resent: nat)
    requires w.Valid() && (w.windowSize >= 1 ==> |w.sentId| < w.windowSize)
    requires 0 <= i < max && Below(w.sentId, i)
    requires from <= |polls|
    requires Numbered(log0) && Timed(log0, polls, from) && CountFresh(log0) == i
    modifies w
    ensures w.Valid() && Below(w.sentId, i + 1)
    ensures from <= ready <= next <= |polls|
    ensures Numbered(log) && Timed(log, polls, next) && CountFresh(log) == i + 1
    ensures CountResends(log) == CountResends(log0) + resent
    ensures waited == Room <==> |old(w.sentId)| + 1 != w.windowSize
    ensures waited == Room ==> ready == next == from
    ensures forall k :: from <= k < ready ==> !polls[k].Ready?
    ensures waited == NoAck ==> ready == next == |polls|
    ensures waited == Acked || waited == StrayAck ==> next == ready + 1 && polls[ready].Ready?
    ensures log == log0 + [Tx(i, false, from)] + Timeouts(i, polls, from, ready)
    ensures resent == CountExpired(polls, ready) - CountExpired(polls, from)
    ensures waited == Acked ==>
      polls[ready].value in old(w.sentId) + [i] &&
      w.sentId == EraseAck(old(w.sentId) + [i], polls[ready].value)
    ensures waited != Acked ==> w.sentId == old(w.sentId) + [i]
    ensures waited == StrayAck ==> polls[ready].value !in w.sentId
    ensures waited == Room || waited == Acked ==> w.windowSize >= 1 ==> |w.sentId| < w.windowSize
    ensures Replies(polls, ready) == Replies(polls, from)
    ensures SameRun(Advance(old(w.sentId), i, log0, max, w.windowSize, from), from,
                    AfterWait(waited, w.sentId, i + 1, log), next, polls, max, w.windowSize)
  {
    ghost var start := Advance(w.sentId, i, log0, max, w.windowSize, from);
    log := Transmit(w, i, polls, from, log0);
    ready, next, resent := from, from, 0;
    waited := Room;
    assert log == log + Timeouts(i, polls, from, from);
    if |w.sentId| == w.windowSize {
      ghost var before := w.sentId;
      assert start == Sender(before, i + 1, log, Blocked);
      ghost var sentLog := log;
      waited, ready, next, log, resent := AwaitAck(w, i, max, polls, from, log);
      TimeoutsNumbered(i, polls, from, ready, sentLog);
      TimeoutsCounted(i, polls, from, ready, sentLog);
      TimeoutsTimed(i, polls, from, ready, sentLog);
      TimedLater(log, polls, ready, next);
      if waited == Acked {
        BelowErase(before, polls[ready].value, i + 1);
      }
    } else {
      assert start == AfterWait(waited, w.sentId, i + 1, log);
    }
  }

  /*
   * The reference for the whole send loop: a sender driven one poll at a
   * time. `SlidingWindowRun` is what `ClientSlidingWindow` is proved to compute.
   */

  /** Where the sender stands between two polls. */
  datatype Mode =
    | Blocked    // the window is full: wait for a reply, resending on every expired timer
    | Draining   // a segment was just sent with room left, or a wait just ended: a non-blocking poll follows
    | Finished   // all `max` segments were sent
    | Broken     // a reply not in the window reached `erase(end())`

  /** The sender's state: outstanding window, segments sent so far, transmissions, mode. */
  datatype Sender = Sender(window: seq<int>, sent: int, log: seq<Tx>, mode: Mode)

  predicate Stopped(st: Sender)
  {
    st.mode == Finished || st.mode == Broken
  }

  /** The head of the send loop after `at` polls: send segment `sent` if `sent < max`, else finish. */
  function Advance(window: seq<int>, sent: int, log: seq<Tx>, max: int, windowSize: int, at: nat): (r: Sender)
    ensures r.mode == Finished <==> sent >= max
    ensures sent < max ==>
      r.sent == sent + 1 && r.window == window + [sent] && (r.mode == Blocked <==> |window| + 1 == windowSize)
    ensures sent >= max ==> r.window == window && r.sent == sent && r.log == log
  {
    if sent < max then
      var pushed := window + [sent];
      Sender(pushed, sent + 1, log + [Tx(sent, false, at)], if |pushed| == windowSize then Blocked else Draining)
    else
      Sender(window, sent, log, Finished)
  }

  /** The sender's response to poll `p`, after which `at` polls have been consumed. */
  function Step(st: Sender, p: Poll, at: nat, max: int, windowSize: int): (r: Sender)
    ensures Stopped(st) ==> r == st
    ensures st.sent <= r.sent <= st.sent + 1
  {
    match st.mode
    case Blocked =>
      if p.Ready? then
        if p.value in st.window then Sender(EraseAck(st.window, p.value), st.sent, st.log, Draining)
        else st.(mode := Broken)
      else if p == Expired then st.(log := st.log + [Tx(st.sent - 1, true, at)])
      else st
    case Draining =>
      if p.Ready? && p.value !in st.window then st.(mode := Broken)
      else
        var window := if p.Ready? then EraseAck(st.window, p.value) else st.window;
        Advance(window, st.sent, st.log, max, windowSize, at)
    case Finished => st
    case Broken => st
  }

  /**
   * After the poll stream has ended every non-blocking poll sees nothing:
   * the sender goes on sending until the window fills or all are sent.
   */
  function Settle(st: Sender, max: int, windowSize: int, at: nat): (r: Sender)
    ensures r.mode != Draining
    decreases (if st.mode == Draining then 1 else 0) + (if st.sent < max then max - st.sent else 0)
  {
    if st.mode == Draining then Settle(Advance(st.window, st.sent, st.log, max, windowSize, at), max, windowSize, at)
    else st
  }

  /**
   * The run from state `st` after `j` polls: the final state and the number
   * of polls consumed. A run that ends blocked has consumed every poll.
   */
  function RunFrom(st: Sender, polls: seq<Poll>, j: nat, max: int, windowSize: int): (r: (Sender, nat))
    requires j <= |polls|
    ensures j <= r.1 <= |polls| && r.0.mode != Draining
    ensures r.0.mode == Blocked ==> r.1 == |polls|
    decreases |polls| - j
  {
    if Stopped(st) then (st, j)
    else if j == |polls| then (Settle(st, max, windowSize, j), j)
    else RunFrom(Step(st, polls[j], j + 1, max, windowSize), polls, j + 1, max, windowSize)
  }

  /** The run of the sliding-window sender on a poll stream. */
  function SlidingWindowRun(max: int, windowSize: int, polls: seq<Poll>): (r: (Sender, nat))
    ensures r.1 <= |polls| && r.0.mode != Draining
    ensures r.0.mode == Blocked ==> r.1 == |polls|
  {
    RunFrom(Advance([], 0, [], max, windowSize, 0), polls, 0, max, windowSize)
  }

  /** The runs from state `a` after `j` polls and from state `b` after `k` polls end alike. */
  predicate SameRun(a: Sender, j: nat, b: Sender, k: nat, polls: seq<Poll>, max: int, windowSize: int)
    requires j <= |polls| && k <= |polls|
  {
    RunFrom(a, polls, j, max, windowSize) == RunFrom(b, polls, k, max, windowSize)
  }

  lemma SameRunTrans(a: Sender, j: nat, b: Sender, k: nat, c: Sender, l: nat, polls: seq<Poll>, max: int, windowSize: int)
    requires j <= |polls| && k <= |polls| && l <= |polls|
    requires SameRun(a, j, b, k, polls, max, windowSize) && SameRun(b, k, c, l, polls, max, windowSize)
    ensures SameRun(a, j, c, l, polls, max, windowSize)
  {
  }

  /** Polls without a reply while blocked add one retransmission per expired timer. */
  lemma {:induction false} RunTimeouts(st: Sender, polls: seq<Poll>, from: nat, upto: nat, max: int, windowSize: int)
    requires st.mode == Blocked && from <= upto <= |polls|
    requires forall k :: from <= k < upto ==> !polls[k].Ready?
    ensures RunFrom(st, polls, from, max, windowSize) ==
      RunFrom(st.(log := st.log + Timeouts(st.sent - 1, polls, from, upto)), polls, upto, max, windowSize)
    decreases upto - from
  {
    if from < upto {
      RunTimeouts(st, polls, from, upto - 1, max, windowSize);
      var mid := st.(log := st.log + Timeouts(st.sent - 1, polls, from, upto - 1));
      assert Step(mid, polls[upto - 1], upto, max, windowSize) ==
        st.(log := st.log + Timeouts(st.sent - 1, polls, from, upto));
      assert RunFrom(mid, polls, upto - 1, max, windowSize) ==
        RunFrom(Step(mid, polls[upto - 1], upto, max, windowSize), polls, upto, max, windowSize);
    } else {
      assert st.log + Timeouts(st.sent - 1, polls, from, upto) == st.log;
    }
  }

  /** How a blocked sender leaves the wait: at the end of the stream, or on the reply at poll `j`. */
  lemma RunReplyOrEnd(st: Sender, polls: seq<Poll>, j: nat, max: int, windowSize: int)
    requires st.mode == Blocked && j <= |polls|
    requires j < |polls| ==> polls[j].Ready?
    ensures j == |polls| ==> RunFrom(st, polls, j, max, windowSize) == (st, j)
    ensures j < |polls| && polls[j].value in st.window ==>
      RunFrom(st, polls, j, max, windowSize) ==
      RunFrom(Sender(EraseAck(st.window, polls[j].value), st.sent, st.log, Draining), polls, j + 1, max, windowSize)
    ensures j < |polls| && polls[j].value !in st.window ==>
      RunFrom(st, polls, j, max, windowSize) == (st.(mode := Broken), j + 1)
  {
  }

  /** The drain poll: consume a present reply (or break on an absent one), then the next loop head. */
  lemma RunDrain(st: Sender, polls: seq<Poll>, j: nat, max: int, windowSize: int)
    requires st.mode == Draining && j <= |polls|
    ensures j == |polls| ==>
      RunFrom(st, polls, j, max, windowSize) ==
      RunFrom(Advance(st.window, st.sent, st.log, max, windowSize, j), polls, j, max, windowSize)
    ensures j < |polls| && polls[j].Ready? && polls[j].value !in st.window ==>
      RunFrom(st, polls, j, max, windowSize) == (st.(mode := Broken), j + 1)
    ensures j < |polls| && !(polls[j].Ready? && polls[j].value !in st.window) ==>
      RunFrom(st, polls, j, max, windowSize) ==
      RunFrom(Advance(if polls[j].Ready? then EraseAck(st.window, polls[j].value) else st.window,
                      st.sent, st.log, max, windowSize, j + 1), polls, j + 1, max, windowSize)
  {
  }

  /** The number of polls that found the timer expired while the sender was blocked on a full window. */
  function BlockedTimeouts(st: Sender, polls: seq<Poll>, j: nat, max: int, windowSize: int): nat
    requires j <= |polls|
    decreases |polls| - j
  {
    if Stopped(st) || j == |polls| then 0
    else
      (if st.mode == Blocked && polls[j] == Expired then 1 else 0) +
      BlockedTimeouts(Step(st, polls[j], j + 1, max, windowSize), polls, j + 1, max, windowSize)
  }

  lemma AdvanceResends(window: seq<int>, sent: int, log: seq<Tx>, max: int, windowSize: int, at: nat)
    ensures CountResends(Advance(window, sent, log, max, windowSize, at).log) == CountResends(log)
  {
    if sent < max {
      CountLogStep(log, Tx(sent, false, at));
    }
  }

  lemma {:induction false} SettleResends(st: Sender, max: int, windowSize: int, at: nat)
    ensures CountResends(Settle(st, max, windowSize, at).log) == CountResends(st.log)
    decreases (if st.mode == Draining then 1 else 0) + (if st.sent < max then max - st.sent else 0)
  {
    if st.mode == Draining {
      AdvanceResends(st.window, st.sent, st.log, max, windowSize, at);
      SettleResends(Advance(st.window, st.sent, st.log, max, windowSize, at), max, windowSize, at);
    }
  }

  lemma StepResends(st: Sender, p: Poll, at: nat, max: int, windowSize: int)
    ensures CountResends(Step(st, p, at, max, windowSize).log) ==
      CountResends(st.log) + (if st.mode == Blocked && p == Expired then 1 else 0)
  {
    if st.mode == Blocked && p == Expired {
      CountLogStep(st.log, Tx(st.sent - 1, true, at));
    } else if st.mode == Draining && !(p.Ready? && p.value !in st.window) {
      var window := if p.Ready? then EraseAck(st.window, p.value) else st.window;
      AdvanceResends(window, st.sent, st.log, max, windowSize, at);
    }
  }

  /**
   * Every retransmission of a run answers a poll that found the timer
   * expired while the window was full, and every such poll is answered by one.
   */
  lemma {:induction false} RunResends(st: Sender, polls: seq<Poll>, j: nat, max: int, windowSize: int)
    requires j <= |polls|
    ensures CountResends(RunFrom(st, polls, j, max, windowSize).0.log) ==
      CountResends(st.log) + BlockedTimeouts(st, polls, j, max, windowSize)
    decreases |polls| - j
  {
    if Stopped(st) {
    } else if j == |polls| {
      SettleResends(st, max, windowSize, j);
    } else {
      StepResends(st, polls[j], j + 1, max, windowSize);
      RunResends(Step(st, polls[j], j + 1, max, windowSize), polls, j + 1, max, windowSize);
    }
  }

  /**
   * Every segment sent is either still outstanding or was answered by one
   * of the replies read so far; a run that broke read a reply that was not
   * in the window as its last poll.
   */
  ghost predicate Accounts(st: Sender, polls: seq<Poll>, j: nat)
  {
    j <= |polls| && 0 <= st.sent &&
    (st.mode != Broken ==> multiset(st.window) + Replies(polls, j) == multiset(Range(st.sent))) &&
    (st.mode == Broken ==>
      StrayReply(polls, j, st.window) && multiset(st.window) + Replies(polls, j - 1) == multiset(Range(st.sent)))
  }

  lemma AdvanceAccounts(window: seq<int>, sent: int, log: seq<Tx>, max: int, windowSize: int, polls: seq<Poll>, at: nat)
    requires at <= |polls| && 0 <= sent
    requires multiset(window) + Replies(polls, at) == multiset(Range(sent))
    ensures Accounts(Advance(window, sent, log, max, windowSize, at), polls, at)
  {
    if sent < max {
      assert Range(sent + 1) == Range(sent) + [sent];
      assert multiset(window + [sent]) == multiset(window) + multiset{sent};
    }
  }

  lemma {:induction false} SettleAccounts(st: Sender, max: int, windowSize: int, polls: seq<Poll>, at: nat)
    requires Accounts(st, polls, at)
    ensures Accounts(Settle(st, max, windowSize, at), polls, at)
    decreases (if st.mode == Draining then 1 else 0) + (if st.sent < max then max - st.sent else 0)
  {
    if st.mode == Draining {
      AdvanceAccounts(st.window, st.sent, st.log, max, windowSize, polls, at);
      SettleAccounts(Advance(st.window, st.sent, st.log, max, windowSize, at), max, windowSize, polls, at);
    }
  }

  lemma StepAccounts(st: Sender, polls: seq<Poll>, j: nat, max: int, windowSize: int)
    requires j < |polls| && !Stopped(st) && Accounts(st, polls, j)
    ensures Accounts(Step(st, polls[j], j + 1, max, windowSize), polls, j + 1)
  {
    var p := polls[j];
    if p.Ready? && p.value in st.window {
      ConsumeReply(st.window, polls, j);
      if st.mode == Draining {
        AdvanceAccounts(EraseAck(st.window, p.value), st.sent, st.log, max, windowSize, polls, j + 1);
      }
    } else if !p.Ready? {
      assert Replies(polls, j + 1) == Replies(polls, j);
      if st.mode == Draining {
        AdvanceAccounts(st.window, st.sent, st.log, max, windowSize, polls, j + 1);
      }
    }
  }

  /** `Accounts` holds of every state a run reaches, so of the state it ends in. */
  lemma {:induction false} RunAccounts(st: Sender, polls: seq<Poll>, j: nat, max: int, windowSize: int)
    requires Accounts(st, polls, j)
    ensures Accounts(RunFrom(st, polls, j, max, windowSize).0, polls, RunFrom(st, polls, j, max, windowSize).1)
    decreases |polls| - j
  {
    if Stopped(st) {
    } else if j == |polls| {
      SettleAccounts(st, max, windowSize, polls, j);
    } else {
      StepAccounts(st, polls, j, max, windowSize);
      RunAccounts(Step(st, polls[j], j + 1, max, windowSize), polls, j + 1, max, windowSize);
    }
  }

  /** The sender state at the head of the send loop, or at its end, as `SendLoop` holds it. */
  function Head(status: SendStatus, window: seq<int>, sent: int, log: seq<Tx>, at: nat, max: int, windowSize: int): Sender
  {
    match status
    case Completed => Advance(window, sent, log, max, windowSize, at)
    case Stalled => Sender(window, sent, log, Blocked)
    case Undefined => Sender(window, sent, log, Broken)
  }

  function ModeOf(status: SendStatus): Mode
  {
    match status
    case Completed => Finished
    case Stalled => Blocked
    case Undefined => Broken
  }

  /** The last poll consumed, poll `next - 1`, read a reply that is not in `window`. */
  predicate StrayReply(polls: seq<Poll>, next: nat, window: seq<int>)
  {
    0 < next <= |polls| && polls[next - 1].Ready? && polls[next - 1].value !in window
  }

  /** The sender state when `SendAndWait` or `AwaitAck` returns `waited`. */
  function AfterWait(waited: WaitStatus, window: seq<int>, sent: int, log: seq<Tx>): Sender
  {
    match waited
    case Room => Sender(window, sent, log, Draining)
    case Acked => Sender(window, sent, log, Draining)
    case NoAck => Sender(window, sent, log, Blocked)
    case StrayAck => Sender(window, sent, log, Broken)
  }

  /** What `AwaitAck` promises is one stretch of the reference run: the blocked sender's wait. */
  lemma BlockedRun(window0: seq<int>, sent: int, log0: seq<Tx>, from: nat, waited: WaitStatus, ready: nat, next: nat,
                   window: seq<int>, log: seq<Tx>, polls: seq<Poll>, max: int, windowSize: int)
    requires from <= ready <= next <= |polls| && waited != Room
    requires forall k :: from <= k < ready ==> !polls[k].Ready?
    requires waited == NoAck ==> ready == next == |polls|
    requires waited != NoAck ==> next == ready + 1 && polls[ready].Ready?
    requires log == log0 + Timeouts(sent - 1, polls, from, ready)
    requires waited == Acked ==> polls[ready].value in window0 && window == EraseAck(window0, polls[ready].value)
    requires waited == StrayAck ==> polls[ready].value !in window0
    requires waited != Acked ==> window == window0
    ensures SameRun(Sender(window0, sent, log0, Blocked), from, AfterWait(waited, window, sent, log), next,
                    polls, max, windowSize)
  {
    var start := Sender(window0, sent, log0, Blocked);
    RunTimeouts(start, polls, from, ready, max, windowSize);
    assert start.(log := start.log + Timeouts(start.sent - 1, polls, from, ready)) == Sender(window0, sent, log, Blocked);
    RunReplyOrEnd(Sender(window0, sent, log, Blocked), polls, ready, max, windowSize);
  }

  /**
   * The non-blocking poll that follows a send (or the end of a wait), with
   * the sender now holding segments up to `sent - 1`: `Completed` once a
   * reply present in the window was consumed or none was ready.
   */
  method Drain(w: SendWindow, sent: int, ghost max: int, polls: seq<Poll>, from: nat, ghost log: seq<Tx>)
    returns (status: SendStatus, next: nat)
    requires w.Valid() && from <= |polls| && Below(w.sentId, sent)
    requires w.windowSize >= 1 ==> |w.sentId| < w.windowSize
    modifies w
    ensures w.Valid() && Below(w.sentId, sent)
    ensures from <= next <= |polls| && status != Stalled
    ensures status == Completed ==> w.windowSize >= 1 ==> |w.sentId| < w.windowSize
    ensures status == Undefined ==>
      next == from + 1 && StrayReply(polls, next, w.sentId) && w.sentId == old(w.sentId)
    ensures next == if from < |polls| then from + 1 else from
    ensures status == Completed && from < |polls| && polls[from].Ready? ==>
      polls[from].value in old(w.sentId) && w.sentId == EraseAck(old(w.sentId), polls[from].value)
    ensures !(from < |polls| && polls[from].Ready?) ==> status == Completed && w.sentId == old(w.sentId)
    ensures SameRun(Sender(old(w.sentId), sent, log, Draining), from,
                    Head(status, w.sentId, sent, log, next, max, w.windowSize), next, polls, max, w.windowSize)
  {
    RunDrain(Sender(w.sentId, sent, log, Draining), polls, from, max, w.windowSize);
    ghost var before := w.sentId;
    var drained;
    drained, next := PollAck(w, polls, from);
    if drained == Acked {
      BelowErase(before, polls[from].value, sent);
      status := Completed;
    } else if drained == NoAck {
      status := Completed;
    } else {
      status := Undefined;
    }
  }

  /**
   * One pass of the send loop for segment `i`: `SendAndWait`, then drain
   * at most one ready acknowledgment. `Completed` means the pass finished
   * and the loop goes on with the next segment.
   */
  method SendSegment(w: SendWindow, i: int, ghost max: int, polls: seq<Poll>, from: nat, log0: seq<Tx>)
    returns (status: SendStatus, next: nat, log: seq<Tx>, resent: nat)
    requires w.Valid() && (w.windowSize >= 1 ==> |w.sentId| < w.windowSize)
    requires 0 <= i < max && Below(w.sentId, i)
    requires from <= |polls|
    requires Numbered(log0) && Timed(log0, polls, from) && CountFresh(log0) == i
    modifies w
    ensures w.Valid() && Below(w.sentId, i + 1)
    ensures from <= next <= |polls|
    ensures Numbered(log) && Timed(log, polls, next) && CountFresh(log) == i + 1
    ensures CountResends(log) == CountResends(log0) + resent
    ensures status == Completed ==> w.windowSize >= 1 ==> |w.sentId| < w.windowSize
    ensures status == Stalled ==> next == |polls|
    ensures status == Undefined ==>
      StrayReply(polls, next, w.sentId)
    ensures SameRun(Advance(old(w.sentId), i, log0, max, w.windowSize, from), from,
                    Head(status, w.sentId, i + 1, log, next, max, w.windowSize), next, polls, max, w.windowSize)
  {
    ghost var window0 := w.sentId;
    ghost var start := Advance(window0, i, log0, max, w.windowSize, from);
    var waited, ready;
    waited, ready, next, log, resent := SendAndWait(w, i, max, polls, from, log0);
    if waited == NoAck {
      status := Stalled;
      assert Head(status, w.sentId, i + 1, log, next, max, w.windowSize) == AfterWait(waited, w.sentId, i + 1, log);
    } else if waited == StrayAck {
      assert StrayReply(polls, next, w.sentId);
      status := Undefined;
      assert Head(status, w.sentId, i + 1, log, next, max, w.windowSize) == AfterWait(waited, w.sentId, i + 1, log);
    } else {
      ghost var waiting := AfterWait(waited, w.sentId, i + 1, log);
      ghost var drainFrom := next;
      status, next := Drain(w, i + 1, max, polls, next, log);
      SameRunTrans(start, from, waiting, drainFrom,
                   Head(status, w.sentId, i + 1, log, next, max, w.windowSize), next, polls, max, w.windowSize);
    }
  }

  /** Where the send loop leaves the reference run: at its end. */
  lemma SendLoopExit(max: int, windowSize: int, polls: seq<Poll>, status: SendStatus, outstanding: seq<int>,
                     i: nat, log: seq<Tx>, consumed: nat)
    requires consumed <= |polls| && (status == Completed ==> max <= i) && (status == Stalled ==> consumed == |polls|)
    requires SameRun(Advance([], 0, [], max, windowSize, 0), 0, Head(status, outstanding, i, log, consumed, max, windowSize),
                     consumed, polls, max, windowSize)
    ensures SlidingWindowRun(max, windowSize, polls) == (Sender(outstanding, i, log, ModeOf(status)), consumed)
  {
    var head := Head(status, outstanding, i, log, consumed, max, windowSize);
    assert head.mode == ModeOf(status) && head == Sender(outstanding, i, log, ModeOf(status));
    assert RunFrom(head, polls, consumed, max, windowSize) == (head, consumed);
  }

  /**
   * What every run ends with: each retransmission answers an expired timer
   * on a full window, and the segments sent are outstanding or answered.
   */
  lemma RunTotals(max: int, windowSize: int, polls: seq<Poll>, outstanding: seq<int>, sent: nat, log: seq<Tx>,
                  mode: Mode, consumed: nat)
    requires SlidingWindowRun(max, windowSize, polls) == (Sender(outstanding, sent, log, mode), consumed)
    ensures CountResends(log) == BlockedTimeouts(Advance([], 0, [], max, windowSize, 0), polls, 0, max, windowSize)
    ensures mode != Broken ==> multiset(outstanding) + Replies(polls, consumed) == multiset(Range(sent))
    ensures mode == Broken ==>
      StrayReply(polls, consumed, outstanding) && multiset(outstanding) + Replies(polls, consumed - 1) == multiset(Range(sent))
  {
    var start := Advance([], 0, [], max, windowSize, 0);
    AdvanceResends([], 0, [], max, windowSize, 0);
    RunResends(start, polls, 0, max, windowSize);
    AdvanceAccounts([], 0, [], max, windowSize, polls, 0);
    RunAccounts(start, polls, 0, max, windowSize);
  }

  /**
   * The send loop of `clientSlidingWindow`: send segments 0 .. max-1 with
   * `SendSegment`. Returns how the loop ended, the retransmission count, the
   * transmissions in order, the final window and the polls consumed. The
   * window is not drained when the loop ends.
   */
  method ClientSlidingWindow(max: int, windowSize: int, polls: seq<Poll>)
    returns (status: SendStatus, resendCount: int, log: seq<Tx>, outstanding: seq<int>, consumed: nat)
    ensures SlidingWindowRun(max, windowSize, polls) ==
      (Sender(outstanding, CountFresh(log), log, ModeOf(status)), consumed)
    ensures resendCount == CountResends(log) ==
      BlockedTimeouts(Advance([], 0, [], max, windowSize, 0), polls, 0, max, windowSize)
    ensures consumed <= |polls|
    ensures Numbered(log) && Timed(log, polls, consumed)
    ensures status == Completed ==> CountFresh(log) == (if max < 0 then 0 else max)
    ensures status == Stalled ==> consumed == |polls|
    ensures StrictlyIncreasing(outstanding) && Below(outstanding, CountFresh(log))
    ensures windowSize >= 1 ==> |outstanding| <= windowSize
    ensures status == Completed && windowSize >= 1 ==> |outstanding| < windowSize
    ensures status == Undefined ==>
      StrayReply(polls, consumed, outstanding)
    ensures status != Undefined ==>
      multiset(outstanding) + Replies(polls, consumed) == multiset(Range(CountFresh(log)))
    ensures status == Undefined ==>
      multiset(outstanding) + Replies(polls, consumed - 1) == multiset(Range(CountFresh(log)))
  {
    var w := new SendWindow(windowSize);
    var i;
    status, resendCount, log, consumed, i := SendLoop(w, max, polls);
    outstanding := w.sentId;
    SendLoopExit(max, windowSize, polls, status, outstanding, i, log, consumed);
    RunTotals(max, windowSize, polls, outstanding, i, log, ModeOf(status), consumed);
  }

  /**
   * The `for` loop of `clientSlidingWindow` over segments 0 .. max-1, one
   * `SendSegment` per pass, left early when a pass does not complete.
   * Every pass keeps the loop on the reference run.
   */
  method SendLoop(w: SendWindow, max: int, polls: seq<Poll>)
    returns (status: SendStatus, resendCount: int, log: seq<Tx>, consumed: nat, i: nat)
    requires w.Valid() && w.sentId == []
    modifies w
    ensures w.Valid() && consumed <= |polls|
    ensures i == (if max < 0 then 0 else max) || status != Completed
    ensures resendCount == CountResends(log) && CountFresh(log) == i
    ensures Numbered(log) && Timed(log, polls, consumed) && Below(w.sentId, i)
    ensures status == Completed ==> w.windowSize >= 1 ==> |w.sentId| < w.windowSize
    ensures status == Stalled ==> consumed == |polls|
    ensures SameRun(Advance([], 0, [], max, w.windowSize, 0), 0, Head(status, w.sentId, i, log, consumed, max, w.windowSize),
                    consumed, polls, max, w.windowSize)
  {
    resendCount, log, consumed := 0, [], 0;
    status := Completed;
    ghost var start := Advance([], 0, [], max, w.windowSize, 0);
    i := 0;
    while i < max && status == Completed
      invariant w.Valid() && i <= (if max < 0 then 0 else max)
      invariant consumed <= |polls|
      invariant resendCount == CountResends(log) && CountFresh(log) == i
      invariant Numbered(log) && Timed(log, polls, consumed) && Below(w.sentId, i)
      invariant status == Completed ==> w.windowSize >= 1 ==> |w.sentId| < w.windowSize
      invariant status == Stalled ==> consumed == |polls|
      invariant SameRun(start, 0, Head(status, w.sentId, i, log, consumed, max, w.windowSize), consumed,
                        polls, max, w.windowSize)
    {
      ghost var head := Head(status, w.sentId, i, log, consumed, max, w.windowSize);
      ghost var at := consumed;
      var next, resent;
      status, next, log, resent := SendSegment(w, i, max, polls, consumed, log);
      SameRunTrans(start, 0, head, at, Head(status, w.sentId, i + 1, log, next, max, w.windowSize), next,
                   polls, max, w.windowSize);
      resendCount := resendCount + resent;
      consumed, i := next, i + 1;
    }
  }
}
