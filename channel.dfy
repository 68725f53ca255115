/**
 * The environment of the ARQ engines: what one poll of the datagram socket
 * observes, what a sender puts on the wire, and counters over both.
 *
 * The socket (`pollRecvFrom`, `recvFrom`, `sendTo`, `ackTo`) and the timer
 * (`start`, `lap`) are not modelled as real I/O. Each engine instead reads a
 * finite stream of poll observations and writes a log of transmissions.
 */
module Channel {

  datatype Option<T> = None | Some(value: T)

  /**
   * What one poll of the socket observes:
   *  - Ready(v): `pollRecvFrom() > 0`, and the `recvFrom` that follows yields the integer v;
   *  - Quiet: nothing is ready and the timer has not passed the retransmission
   *    timeout of 1500 units (`timer.lap() <= 1500`);
   *  - Expired: nothing is ready and `timer.lap() > 1500`.
   * A loop that does not consult the timer treats Quiet and Expired alike.
   */
  datatype Poll = Ready(value: int) | Quiet | Expired

  /**
   * One transmission of a data segment: its sequence number, whether it is a
   * retransmission, and how many polls had been consumed when it was sent.
   */
  datatype Tx = Tx(seg: int, resend: bool, at: nat)

  /** Number of polls among the first `n` of `s` that found a datagram ready. */
  function CountReady(s: seq<Poll>, n: nat): (r: nat)
    requires n <= |s|
    ensures r <= n
  {
    if n == 0 then 0 else CountReady(s, n - 1) + (if s[n - 1].Ready? then 1 else 0)
  }

  /** Number of polls among the first `n` of `s` that found the retransmission timer expired. */
  function CountExpired(s: seq<Poll>, n: nat): (r: nat)
    requires n <= |s|
    ensures r <= n
  {
    if n == 0 then 0 else CountExpired(s, n - 1) + (if s[n - 1] == Expired then 1 else 0)
  }

  /** The values of the replies among the first `n` polls of `s`, as a multiset. */
  function Replies(s: seq<Poll>, n: nat): (r: multiset<int>)
    requires n <= |s|
    ensures |r| == CountReady(s, n)
  {
    if n == 0 then multiset{} else Replies(s, n - 1) + (if s[n - 1].Ready? then multiset{s[n - 1].value} else multiset{})
  }

  /** The sequence numbers 0 .. k-1 in order. */
  function Range(k: nat): (r: seq<int>)
    ensures |r| == k && forall j :: 0 <= j < k ==> r[j] == j
  {
    seq(k, j => j)
  }

  /** Number of first transmissions (not retransmissions) in a log. */
  function CountFresh(log: seq<Tx>): (n: nat)
    ensures n <= |log|
  {
    if log == [] then 0 else (if log[0].resend then 0 else 1) + CountFresh(log[1..])
  }

  /** Number of retransmissions in a log. */
  function CountResends(log: seq<Tx>): (n: nat)
    ensures n <= |log|
  {
    if log == [] then 0 else (if log[0].resend then 1 else 0) + CountResends(log[1..])
  }

  /** Appending a transmission to a log adds its share to the counters. */
  lemma {:induction false} CountLogStep(log: seq<Tx>, t: Tx)
    ensures CountFresh(log + [t]) == CountFresh(log) + (if t.resend then 0 else 1)
    ensures CountResends(log + [t]) == CountResends(log) + (if t.resend then 1 else 0)
  {
    if log != [] {
      assert (log + [t])[1..] == log[1..] + [t];
      CountLogStep(log[1..], t);
    }
  }
}
