# ARQ exercise: the protocol bookkeeping of `hw2.cpp`

This project models the four protocol state machines of the ARQ
(Automatic Repeat reQuest) exercise in `hw2.cpp` and proves properties of them:

- **Early-retransmit receiver** (`serverEarlyRetrans`). It keeps:
  - a `received` bitmap;
  - the counter `i` of distinct segments accepted;
  - `lastAck`.

  An arriving sequence number `s` is admitted when `s - lastAck <= windowSize`. An admitted `s` is marked. The receiver then scans from 0 for the first unmarked index and sends `min(index, s)` as the new `lastAck`.
- **Sliding-window sender** (`clientSlidingWindow`). The vector `sentId` holds outstanding sequence numbers:
  - every send pushes `i`;
  - a full window blocks until one reply arrives, resending segment `i` on every expired timer;
  - after each send, one non-blocking poll may consume a reply;
  - a reply `v` erases the single entry equal to `v` (`find` + `erase`).
- **Stop-and-wait sender** (`clientStopWait`). One segment is in flight at a time. Any reply advances to the next segment, and every expired timer resends and counts.
- **Stop-and-wait receiver** (`serverReliable`). It discards arrivals until one equals `i`, then acknowledges `i`.

The UDP socket and the timer are not real I/O here. Each engine reads a finite stream of poll observations (`Channel.Poll`):

- `Ready(v)`: a datagram carrying `v` is ready;
- `Quiet`: nothing is ready and the timer is within 1500 units;
- `Expired`: nothing is ready and `timer.lap() > 1500`.

A sender writes its transmissions to a log of `Tx(seg, resend, at)`. The stream is finite and the source's loops are not, so each loop model also returns how many polls it consumed. When the stream ends, a loop that would block forever stops with a distinct outcome (`Exhausted`, `Stalled`, `NoAck`). A non-blocking poll past the end sees nothing.

The source's undefined behaviour is modelled rather than assumed away:
- `erase(end())` for a reply that is not outstanding;
- `received[s]` for an admitted `s` outside the bitmap.

Each whole-run loop stops with an `Undefined`/`StrayAck` outcome at that point. The single-step methods (`OnSegment`, `ConsumeAck`) require the defined case.

Layout:
- `channel.dfy` (module `Channel`): poll observations, transmissions, and counters over both.
- `early_retrans.dfy` (module `EarlyRetrans`):
  - the pure step `Deliver` on abstract state, its fold `DeliverAll` over a poll stream, and their lemmas;
  - the `Receiver` class, whose in-place `OnSegment` is proved equal to `Deliver`;
  - the receive loop.
- `sliding_window.dfy` (module `SlidingWindow`):
  - the `SendWindow` class over `sentId`;
  - the send loop, split into its blocking and non-blocking parts;
  - a reference sender driven one poll at a time (`Step`, `RunFrom`, `SlidingWindowRun`). Each method of the send loop is proved to be one stretch of that run. The counts and the accounting of segments are proved once, about the run.
- `stop_wait.dfy` (module `StopWait`): both stop-and-wait loops and their lemmas.

### Behaviour of the code worth noting

- **Admission** is `s - lastAck <= windowSize`, judged against the `lastAck` in force before the arrival. A segment exactly `windowSize` beyond `lastAck` is admitted and marked.
- **Receive loop termination.** The loop condition is `i < max` on the counter of distinct marked segments; `lastAck` plays no part in it.
- **The scan for the first unmarked index** starts at 0 on every admitted arrival.
- **`lastAck` can decrease.** A duplicate below the marked prefix is acknowledged with its own smaller number (`EarlyRetrans.AckCanDecrease`).
- **An acknowledgment removes one entry.** A reply `v` erases only the entry equal to `v`; smaller outstanding entries stay (`SlidingWindow.AckNotCumulative`).
- **A reply that is not outstanding** reaches `erase(end())`. This covers, for example, a second copy of an acknowledgment already consumed. That is undefined behaviour, and the model stops the run there (`StrayAck`, `Undefined`).
- **A timeout resends the latest segment `i`**, the one still held in `message`, whichever segment is oldest in the window.
- **The window is not drained** when the send loop ends: segments still outstanding at that point are never waited for.

## Model

| member | source | states |
|---|---|---|
| `EarlyRetrans.FirstUnmarked` | hw2.cpp:305-308 | the scan's result: every index below it is marked, and it is unmarked or the bitmap length |
| `EarlyRetrans.FirstUnmarkedGrows` | hw2.cpp:305-308 | adding marks never moves the first unmarked index down |
| `EarlyRetrans.CountMarkedSet` | hw2.cpp:300-302 | marking one entry adds one to the number of marks exactly when it was unmarked |
| `EarlyRetrans.Deliver` | hw2.cpp:299-311 | an arrival is acknowledged exactly when `s - lastAck <= windowSize` for the old `lastAck`; a refused one changes nothing; an admitted `s` ends up marked, and the ack sent is the new `lastAck`, which is at most `s` and at most the first unmarked index, equals one of the two, and has every index below it marked |
| `EarlyRetrans.DeliverKeepsMarks` | hw2.cpp:300-304 | marks are never cleared, only entry `s` can change, and a duplicate leaves bitmap and counter unchanged |
| `EarlyRetrans.DeliverCounts` | hw2.cpp:300-302 | if `i` equals the number of marks before an arrival it does after, and it grew by one exactly when the bitmap changed |
| `EarlyRetrans.DeliverConsistent` | hw2.cpp:299-311 | every arrival preserves the receiver invariant (`i` counts the marks, `0 <= lastAck <=` first unmarked index) |
| `EarlyRetrans.AckCanDecrease` | hw2.cpp:309 | there is a consistent state and an admitted duplicate whose ack is smaller than the previous `lastAck` |
| `EarlyRetrans.Receiver.constructor` | hw2.cpp:287-288 | a fresh receiver has nothing marked, `i` zero and `lastAck` zero, and satisfies the invariant |
| `EarlyRetrans.Receiver.FirstUnmarkedIndex` | hw2.cpp:305-308 | the loop finds the first unmarked index of the bitmap, or its capacity when all are marked |
| `EarlyRetrans.Receiver.OnSegment` | hw2.cpp:299-313 | the in-place update of array, counter and `lastAck`, and the ack returned, equal `Deliver` on the old state; the invariant is kept |
| `EarlyRetrans.DeliverAll` | hw2.cpp:291-316 | the arrivals among the first `n` polls, handed one by one to `Deliver`: the bitmap keeps its size and at most one ack is sent per ready poll; the run is undefined once an admitted number falls outside the bitmap |
| `EarlyRetrans.DeliverAllConsistent` | hw2.cpp:291-316 | along any run from a consistent state the receiver stays consistent, no mark is cleared, and every ack sent is at most the first unmarked index reached |
| `EarlyRetrans.ServeEarlyRetrans` | hw2.cpp:283-318 | the bitmap and the acks returned are those of `DeliverAll` from the empty receiver over the polls consumed (up to the stray arrival when undefined); the loop goes on while fewer than `max` segments are marked and ends normally exactly when `max` are (then equalling it); it ends exhausted only at the end of the stream; every ack is at most the final first unmarked index |
| `SlidingWindow.IndexOf` | hw2.cpp:244 | `find` of a present value returns its first occurrence |
| `SlidingWindow.EraseAck` | hw2.cpp:244-247 | `erase(find(v))` of a present `v` removes one entry, at the first occurrence of `v`; earlier entries keep their place and later ones move down by one |
| `SlidingWindow.EraseAckRemovesOne` | hw2.cpp:244-247 | consuming `v` removes exactly one occurrence of `v` from the multiset of entries and nothing else |
| `SlidingWindow.EraseAckKeepsOrder` | hw2.cpp:274-277 | on a strictly increasing window the result is strictly increasing and holds exactly the other entries |
| `SlidingWindow.AckNotCumulative` | hw2.cpp:247 | consuming an ack can leave smaller sequence numbers outstanding |
| `SlidingWindow.SendWindow.constructor` | hw2.cpp:213 | the window starts empty |
| `SlidingWindow.SendWindow.Push` | hw2.cpp:225 | `push_back(i)` appends `i` and keeps the window strictly increasing and within `windowSize` |
| `SlidingWindow.SendWindow.Find` | hw2.cpp:244 | the linear search returns the first index holding `v`, or the length exactly when `v` is absent |
| `SlidingWindow.SendWindow.ConsumeAck` | hw2.cpp:274-277 | the new window is `EraseAck` of the old one and keeps the window invariant |
| `SlidingWindow.NumberedAt` | hw2.cpp:217-256 | every transmission carries the newest sequence number so far: first sends are numbered 0, 1, 2, … and a resend repeats the latest |
| `SlidingWindow.TimeoutsCounted` | hw2.cpp:254-260 | the resends of a wait add no first transmission and one retransmission each |
| `SlidingWindow.TimeoutsNumbered` | hw2.cpp:254-256 | the resends of a wait repeat the latest segment, so the log stays numbered |
| `SlidingWindow.TimeoutsTimed` | hw2.cpp:254-262 | each resend of a wait follows right after a poll that found the timer expired |
| `SlidingWindow.WaitForReply` | hw2.cpp:236-265 | polls until a reply is ready or the stream ends, consuming no reply; it resends segment `seg` once per expired timer, and the resend count equals the number of `Expired` polls |
| `SlidingWindow.PollAck` | hw2.cpp:268-278 | one non-blocking poll; a ready reply present in the window is erased, an absent one is reported as undefined, and no reply leaves the window unchanged |
| `SlidingWindow.AwaitAck` | hw2.cpp:228-266 | a full window is left only after exactly one reply is consumed (every earlier poll was not ready); that reply's entry is erased; the resends equal the `Expired` polls of the wait; the wait is the blocked stretch of the reference run |
| `SlidingWindow.Transmit` | hw2.cpp:221-225 | the first transmission of segment `i` is logged and `i` is pushed on the window |
| `SlidingWindow.SendAndWait` | hw2.cpp:216-266 | one send: without a wait the window is the old one plus `i`; after a wait ended by an ack `v`, it is `EraseAck(old + [i], v)` and below `windowSize`; `resent` is the number of `Expired` polls in the wait, 0 without one; the whole call is a stretch of the reference run |
| `SlidingWindow.Drain` | hw2.cpp:268-278 | the drain poll after a send: a ready reply in the window is erased, no reply leaves the window as it was, a stray reply stops the run; a stretch of the reference run |
| `SlidingWindow.SendSegment` | hw2.cpp:216-279 | one pass of the send loop keeps the window invariant, the numbered and timed log and the resend count, and moves the sender along the reference run to the next loop head |
| `SlidingWindow.SendLoop` | hw2.cpp:216-279 | the loop, run to its end, stays on the reference run from the first loop head |
| `SlidingWindow.Advance` | hw2.cpp:216-228 | the loop head: while `sent < max` segment `sent` is pushed and logged as a first transmission, and the sender blocks exactly when the window has just become full; otherwise the sender is finished and nothing changes |
| `SlidingWindow.Step` | hw2.cpp:237-277 | the sender's answer to one poll, blocked (reply erased, resend on an expired timer, break on a stray reply) or draining (optional erase, then the next loop head); a stopped sender stays put and at most one segment is sent per poll |
| `SlidingWindow.SlidingWindowRun` | hw2.cpp:209-281 | the whole send loop as a run of `Step` from the first loop head: it never ends draining, consumes at most the stream, and ends blocked only at the end of the stream |
| `SlidingWindow.RunFrom` | hw2.cpp:216-279 | the reference run never ends draining, and one that ends blocked has consumed every poll |
| `SlidingWindow.RunTimeouts` | hw2.cpp:236-265 | polls without a reply while blocked add exactly the resends `Timeouts` |
| `SlidingWindow.RunReplyOrEnd` | hw2.cpp:237-250 | a blocked sender stays blocked at the end of the stream, drains after a reply in the window, and breaks on a reply outside it |
| `SlidingWindow.RunDrain` | hw2.cpp:268-278 | the drain poll consumes a reply in the window (or none) and goes on to the next loop head, and breaks on a reply outside it |
| `SlidingWindow.BlockedRun` | hw2.cpp:228-266 | what `AwaitAck` returns is exactly where the reference run from the blocked sender goes |
| `SlidingWindow.RunResends` | hw2.cpp:254-260 | the retransmissions of a run are exactly its polls that found the timer expired while the window was full |
| `SlidingWindow.RunAccounts` | hw2.cpp:244-277 | along a run every segment sent is either outstanding or answered by one reply read; a broken run's last poll read a reply not in the window |
| `SlidingWindow.SendLoopExit` | hw2.cpp:216-279 | the state in which the send loop ends is the end of the reference run |
| `SlidingWindow.RunTotals` | hw2.cpp:209-281 | at the end of the run the retransmissions are the expired polls of full-window waits, and the outstanding window plus the replies read is exactly the segments sent |
| `SlidingWindow.ClientSlidingWindow` | hw2.cpp:209-281 | the result is the reference run: `resendCount` equals the resends on the wire and the `Expired` polls met while the window was full; on completion `max` segments were sent and the window is below `windowSize`; the window never exceeds `windowSize`, stays strictly increasing and holds sent numbers only; the outstanding window plus the replies read is exactly the segments sent; a run stopped as undefined ends on a reply not in the window |
| `StopWait.AwaitReply` | hw2.cpp:163-186 | polls until a reply is ready or the stream ends, consuming no reply; resends segment `i` once per `Expired` poll, right after it, and keeps the log in order |
| `StopWait.SendSegmentAndWait` | hw2.cpp:152-187 | one pass: segment `i` is sent as a first transmission, numbered by the first transmissions before it, then the wait runs; the log stays in order and `resent` is the `Expired` polls of the wait |
| `StopWait.ClientStopWait` | hw2.cpp:147-189 | segment `k` is sent only after exactly `k` replies; a transmission is a resend exactly when the previous poll found the timer expired; the log is in strictly increasing poll order and its first transmissions are numbered 0, 1, 2, … below `max`, each at the start or right after a reply; `resendCount` equals the number of `Expired` polls; it finishes exactly when `max` replies arrived, the last poll consumed then being a reply; with `max <= 0` nothing is sent or consumed |
| `StopWait.ReplyBeforeNextSegment` | hw2.cpp:152-186 | segment `k+1` is sent strictly after segment `k`, and a reply arrived in between |
| `StopWait.Expected` | hw2.cpp:195-203 | the number the receiver waits for is at most the number of arrivals, and every number below it has arrived |
| `StopWait.ServerReliable` | hw2.cpp:191-207 | acks are `0, 1, …` in order, each equal to its index; their number is what the receiver expects after the arrivals consumed, which is `max` unless the arrivals ran out first; the last arrival consumed on completion is `max-1` and the one that completes the run, the receiver still expecting `max-1` before it; with `max <= 0` nothing is consumed |
| `StopWait.ExpectedSound` | hw2.cpp:198-203 | if `k` acks are sent, `0, 1, …, k-1` occur in that order among the arrivals |
| `StopWait.ExpectedComplete` | hw2.cpp:198-203 | if `0, 1, …, k-1` occur in order among the arrivals, at least `k` acks are sent, whatever else arrived around them |
| `StopWait.ExpectedIsLongestRun` | hw2.cpp:195-206 | the number of acks sent is the longest run `0, 1, …, k-1` that occurs in order among the arrivals |

## Left out

- `main`, `clientUnreliable` and `serverUnreliable`: argument parsing, test selection and timing printout, and the final loop that resends the last ack ten times. These are test scaffolding and I/O, with no protocol state.
- All `cerr` diagnostics.
- The UDP socket and the timer as real I/O and real time. They become the finite poll stream described above, and the source's endless blocking becomes an outcome reached when the stream ends.
- The message payload. Only `message[0]`, the sequence number, is modelled. The stop-and-wait sender reads the reply into `message` and overwrites it, but the next iteration sets `message[0]` again, so nothing observable is lost.
- Fixed-width integers. Sequence numbers, counters and `s - lastAck` are unbounded integers, so 32-bit overflow for extreme sequence numbers is not modelled.
- The bitmap capacity. The source fixes it at `MAX = 20000`; the model takes it as the `capacity` parameter. The unbounded scan `while (received[index])` stops at the capacity, where the source would read past the array.
- `SlidingWindow.SendSegment`: states the new window through the reference run (`Head` of the run after the pass) rather than as a formula of its own; `SendAndWait` and `Drain` state their windows directly.
- `SlidingWindow.ClientSlidingWindow`: the window bound is stated only for `windowSize >= 1`. With `windowSize <= 0` the source never finds the window full, and the window grows without bound.
