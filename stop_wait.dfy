/**
 * The stop-and-wait test: the sender (`clientStopWait`), which keeps one
 * segment in flight and retransmits it on every expired timer, and the
 * receiver (`serverReliable`), which drops every arrival but the one it
 * expects and acknowledges that one with its own sequence number.
 */
module StopWait {
  import opened Channel

  /**
   * Every transmission happened after at most `bound` polls; segment `seg`
   * went out only after exactly `seg` replies had been received; and a
   * transmission is a retransmission exactly when the poll just before it
   * found the timer expired.
   */
  ghost predicate SentInTurn(log: seq<Tx>, polls: seq<Poll>, bound: nat)
    requires bound <= |polls|
  {
    forall p :: 0 <= p < |log| ==>
      log[p].at <= bound &&
      log[p].seg == CountReady(polls, log[p].at) &&
      (log[p].resend <==> 0 < log[p].at && polls[log[p].at - 1] == Expired)
  }

  lemma SentInTurnAppend(log: seq<Tx>, polls: seq<Poll>, bound: nat, t: Tx)
    requires bound <= |polls| && SentInTurn(log, polls, bound)
    requires t.at <= bound && t.seg == CountReady(polls, t.at)
    requires t.resend <==> 0 < t.at && polls[t.at - 1] == Expired
    ensures SentInTurn(log + [t], polls, bound)
  {
  }

  /** Transmissions are logged in strictly increasing poll order. */
  ghost predicate InOrder(log: seq<Tx>)
  {
    forall p, q :: 0 <= p < q < |log| ==> log[p].at < log[q].at
  }

  /**
   * Every first transmission carries the number of first transmissions
   * before it, is below `bound`, and is sent at the start or right after a reply.
   */
  ghost predicate FreshNumbered(log: seq<Tx>, polls: seq<Poll>, bound: int)
  {
    forall p :: 0 <= p < |log| ==> FreshAt(log[..p], log[p], polls, bound)
  }

  /** Transmission `t`, logged after `before`, if a first one, is numbered and timed as `FreshNumbered` says. */
  ghost predicate FreshAt(before: seq<Tx>, t: Tx, polls: seq<Poll>, bound: int)
  {
    !t.resend ==> t.seg == CountFresh(before) < bound && (t.at == 0 || (t.at <= |polls| && polls[t.at - 1].Ready?))
  }

  lemma InOrderAppend(log: seq<Tx>, t: Tx)
    requires InOrder(log) && forall p :: 0 <= p < |log| ==> log[p].at < t.at
    ensures InOrder(log + [t])
  {
  }

  lemma FreshAppend(log: seq<Tx>, polls: seq<Poll>, bound: int, t: Tx)
    requires FreshNumbered(log, polls, bound)
    requires FreshAt(log, t, polls, bound)
    ensures FreshNumbered(log + [t], polls, bound)
  {
    var log' := log + [t];
    forall p | 0 <= p < |log'|
      ensures FreshAt(log'[..p], log'[p], polls, bound)
    {
      if p < |log| {
        assert log'[..p] == log[..p] && log'[p] == log[p];
      } else {
        assert log'[..p] == log;
      }
    }
  }

  /**
   * The wait for a reply to segment `i`: poll until a reply is ready or the
   * stream ends, resending `i` on every expired timer. Returns the log with
   * the resends, where the polling stopped and how many resends were made.
   */
  method AwaitReply(i: int, polls: seq<Poll>, from: nat, log0: seq<Tx>) returns (log: seq<Tx>, next: nat, resent: int)
    requires from <= |polls| && CountReady(polls, from) == i && CountFresh(log0) == i + 1
    requires SentInTurn(log0, polls, from) && InOrder(log0) && FreshNumbered(log0, polls, i + 1)
    ensures from <= next <= |polls|
    ensures forall k :: from <= k < next ==> !polls[k].Ready?
    ensures next < |polls| ==> polls[next].Ready?
    ensures CountReady(polls, next) == i && CountFresh(log) == i + 1
    ensures resent == CountExpired(polls, next) - CountExpired(polls, from)
    ensures CountResends(log) == CountResends(log0) + resent
    ensures SentInTurn(log, polls, next) && InOrder(log) && FreshNumbered(log, polls, i + 1)
  {
    log, next, resent := log0, from, 0;
    while next < |polls| && !polls[next].Ready?
      invariant from <= next <= |polls|
      invariant forall k :: from <= k < next ==> !polls[k].Ready?
      invariant CountReady(polls, next) == i && CountFresh(log) == i + 1
      invariant resent == CountExpired(polls, next) - CountExpired(polls, from)
      invariant CountResends(log) == CountResends(log0) + resent
      invariant SentInTurn(log, polls, next) && InOrder(log) && FreshNumbered(log, polls, i + 1)
    {
      if polls[next] == Expired {
        var r := Tx(i, true, next + 1);
        CountLogStep(log, r);
        SentInTurnAppend(log, polls, next + 1, r);
        FreshAppend(log, polls, i + 1, r);
        InOrderAppend(log, r);
        log, resent := log + [r], resent + 1;
      }
      next := next + 1;
    }
  }

  /**
   * One pass of the send loop: send segment `i` after `from` polls, then
   * wait for a reply, resending `i` on every expired timer.
   */
  method SendSegmentAndWait(i: int, polls: seq<Poll>, from: nat, log0: seq<Tx>) returns (log: seq<Tx>, next: nat, resent: int)
    requires from <= |polls| && CountReady(polls, from) == i && CountFresh(log0) == i
    requires from == 0 || polls[from - 1].Ready?
    requires forall p :: 0 <= p < |log0| ==> log0[p].at < from
    requires SentInTurn(log0, polls, from) && InOrder(log0) && FreshNumbered(log0, polls, i)
    ensures from <= next <= |polls|
    ensures next < |polls| ==> polls[next].Ready?
    ensures CountReady(polls, next) == i && CountFresh(log) == i + 1
    ensures resent == CountExpired(polls, next) - CountExpired(polls, from)
    ensures CountResends(log) == CountResends(log0) + resent
    ensures SentInTurn(log, polls, next) && InOrder(log) && FreshNumbered(log, polls, i + 1)
  {
    var t := Tx(i, false, from);
    CountLogStep(log0, t);
    SentInTurnAppend(log0, polls, from, t);
    FreshAppend(log0, polls, i + 1, t);
    InOrderAppend(log0, t);
    log, next, resent := AwaitReply(i, polls, from, log0 + [t]);
  }

  /**
   * The send loop of `clientStopWait`: for each segment 0 .. max-1, send it
   * and poll until any reply arrives, resending the same segment on every
   * expired timer. Returns whether all segments were acknowledged, the
   * retransmission count, the transmissions in order and the polls consumed.
   */
  method ClientStopWait(max: int, polls: seq<Poll>)
    returns (finished: bool, resendCount: int, log: seq<Tx>, consumed: nat)
    ensures consumed <= |polls|
    ensures SentInTurn(log, polls, consumed)
    ensures resendCount == CountExpired(polls, consumed) == CountResends(log)
    ensures finished <==> CountReady(polls, consumed) >= max
    ensures finished ==> CountReady(polls, consumed) == (if max < 0 then 0 else max)
    ensures !finished ==> consumed == |polls|
    ensures CountFresh(log) == if finished then CountReady(polls, consumed) else CountReady(polls, consumed) + 1
    ensures finished && max > 0 ==> 0 < consumed && polls[consumed - 1].Ready?
    ensures max <= 0 ==> finished && consumed == 0 && log == []
    ensures InOrder(log) && FreshNumbered(log, polls, max)
  {
    resendCount, log, consumed := 0, [], 0;
    var i := 0;
    while i < max
      invariant 0 <= i <= (if max < 0 then 0 else max)
      invariant consumed <= |polls|
      invariant CountReady(polls, consumed) == i
      invariant resendCount == CountExpired(polls, consumed) == CountResends(log)
      invariant CountFresh(log) == i
      invariant SentInTurn(log, polls, consumed)
      invariant i > 0 ==> 0 < consumed && polls[consumed - 1].Ready?
      invariant i == 0 ==> consumed == 0 && log == []
      invariant forall p :: 0 <= p < |log| ==> log[p].at < consumed
      invariant InOrder(log) && FreshNumbered(log, polls, i)
    {
      var resent;
      log, consumed, resent := SendSegmentAndWait(i, polls, consumed, log);
      resendCount := resendCount + resent;
      if consumed == |polls| {
        return false, resendCount, log, consumed;
      }
      consumed := consumed + 1;
      i := i + 1;
    }
    finished := true;
  }

  /** More replies among the first `b` polls than among the first `a` means a reply in between. */
  lemma {:induction false} ReplyBetween(polls: seq<Poll>, a: nat, b: nat)
    requires a <= b <= |polls|
    requires CountReady(polls, a) < CountReady(polls, b)
    ensures exists r :: a <= r < b && polls[r].Ready?
  {
    if !polls[b - 1].Ready? {
      ReplyBetween(polls, a, b - 1);
    }
  }

  /** The reply count never decreases along the poll stream. */
  lemma {:induction false} CountReadyMonotone(polls: seq<Poll>, a: nat, b: nat)
    requires a <= b <= |polls|
    ensures CountReady(polls, a) <= CountReady(polls, b)
    decreases b - a
  {
    if a < b {
      CountReadyMonotone(polls, a, b - 1);
    }
  }

  /**
   * One segment in flight: segment j+1 is never sent before a reply has
   * been received after segment j was sent.
   */
  lemma ReplyBeforeNextSegment(log: seq<Tx>, polls: seq<Poll>, bound: nat, p: nat, q: nat)
    requires bound <= |polls| && SentInTurn(log, polls, bound)
    requires p < |log| && q < |log| && log[q].seg == log[p].seg + 1
    ensures log[p].at < log[q].at
    ensures exists r :: log[p].at <= r < log[q].at && polls[r].Ready?
  {
    if log[q].at <= log[p].at {
      CountReadyMonotone(polls, log[q].at, log[p].at);
    }
    ReplyBetween(polls, log[p].at, log[q].at);
  }

  /** The sequence number the receiver waits for after the arrivals `s`. */
  function Expected(s: seq<int>): (n: nat)
    ensures n <= |s|
    ensures forall k :: 0 <= k < n ==> k in s
  {
    if s == [] then 0
    else
      var e := Expected(s[..|s| - 1]);
      assert forall k :: k in s[..|s| - 1] ==> k in s;
      if s[|s| - 1] == e then e + 1 else e
  }

  lemma ExpectedStep(s: seq<int>, k: nat)
    requires k < |s|
    ensures Expected(s[..k + 1]) == Expected(s[..k]) + (if s[k] == Expected(s[..k]) then 1 else 0)
  {
    assert s[..k + 1][..k] == s[..k];
  }

  /**
   * The receive loop of `serverReliable`: for each expected sequence number
   * 0 .. max-1, discard arrivals until it arrives, then acknowledge it.
   * Returns the acknowledgments sent in order and the arrivals consumed.
   */
  method ServerReliable(max: int, arrivals: seq<int>) returns (acks: seq<int>, consumed: nat)
    ensures consumed <= |arrivals|
    ensures forall k :: 0 <= k < |acks| ==> acks[k] == k
    ensures |acks| == Expected(arrivals[..consumed])
    ensures |acks| == (if max < 0 then 0 else max) || (consumed == |arrivals| && |acks| < max)
    ensures |acks| == max > 0 ==>
      0 < consumed && arrivals[consumed - 1] == max - 1 && Expected(arrivals[..consumed - 1]) == max - 1
    ensures max <= 0 ==> acks == [] && consumed == 0
  {
    acks, consumed := [], 0;
    var i := 0;
    while i < max
      invariant 0 <= i <= (if max < 0 then 0 else max)
      invariant consumed <= |arrivals|
      invariant |acks| == i && forall k :: 0 <= k < i ==> acks[k] == k
      invariant Expected(arrivals[..consumed]) == i
      invariant i > 0 ==> 0 < consumed && arrivals[consumed - 1] == i - 1 && Expected(arrivals[..consumed - 1]) == i - 1
      invariant max <= 0 ==> consumed == 0
    {
      while consumed < |arrivals| && arrivals[consumed] != i
        invariant consumed <= |arrivals|
        invariant Expected(arrivals[..consumed]) == i
      {
        ExpectedStep(arrivals, consumed);
        consumed := consumed + 1;
      }
      if consumed == |arrivals| {
        return;
      }
      ExpectedStep(arrivals, consumed);
      consumed := consumed + 1;
      acks := acks + [i];
      i := i + 1;
    }
  }

  /** `t` occurs in `s` in order, not necessarily contiguously. */
  predicate IsSubsequence(t: seq<int>, s: seq<int>)
    decreases |s|
  {
    if t == [] then true
    else if s == [] then false
    else
      (t[|t| - 1] == s[|s| - 1] && IsSubsequence(t[..|t| - 1], s[..|s| - 1])) ||
      IsSubsequence(t, s[..|s| - 1])
  }

  /** Every `k` segments acknowledged occur, as 0, 1, …, k-1, in order among the arrivals. */
  lemma {:induction false} ExpectedSound(s: seq<int>, k: nat)
    requires Expected(s) >= k
    ensures IsSubsequence(Range(k), s)
  {
    if k > 0 {
      var init, x := s[..|s| - 1], s[|s| - 1];
      var e := Expected(init);
      assert Range(k)[..k - 1] == Range(k - 1);
      if x == e && k == e + 1 {
        ExpectedSound(init, k - 1);
      } else {
        ExpectedSound(init, k);
      }
    }
  }

  /**
   * Conversely, if 0, 1, …, k-1 occur in order among the arrivals, at least
   * `k` segments are acknowledged, whatever was lost, duplicated or
   * reordered around them.
   */
  lemma {:induction false} ExpectedComplete(s: seq<int>, k: nat)
    requires IsSubsequence(Range(k), s)
    ensures Expected(s) >= k
  {
    if k > 0 {
      var init, x := s[..|s| - 1], s[|s| - 1];
      assert Range(k)[..k - 1] == Range(k - 1);
      if x == k - 1 && IsSubsequence(Range(k - 1), init) {
        ExpectedComplete(init, k - 1);
      } else {
        ExpectedComplete(init, k);
      }
    }
  }

  /**
   * The receiver acknowledges exactly the longest run 0, 1, …, k-1 that
   * occurs in order among the arrivals.
   */
  lemma ExpectedIsLongestRun(s: seq<int>, k: nat)
    ensures Expected(s) >= k <==> IsSubsequence(Range(k), s)
  {
    if Expected(s) >= k {
      ExpectedSound(s, k);
    }
    if IsSubsequence(Range(k), s) {
      ExpectedComplete(s, k);
    }
  }
}
