/**
 * The sender's congestion controller: the two `int` fields cwnd and threshold of
 * UDPClient and the two rules that change them, slow start / congestion avoidance
 * on each processed ACK and the penalty applied when a retransmission timer fires.
 */
module Congestion {
  import opened JavaLib

  const INITIAL_CWND: int := 1
  const INITIAL_THRESHOLD: int := 64
  const MIN_THRESHOLD: int := 2

  datatype Window = Window(cwnd: int, threshold: int)

  function Initial(): Window
  {
    Window(INITIAL_CWND, INITIAL_THRESHOLD)
  }

  /** manageCongestionControl, in Java `int` arithmetic. */
  function OnAck(w: Window): Window
  {
    if w.cwnd < w.threshold then Window(Wrap32(w.cwnd * 2), w.threshold)
    else Window(Wrap32(w.cwnd + 1), w.threshold)
  }

  /** The penalty in the timer body: cwnd = 1; threshold = Math.max(threshold / 2, 2). */
  function OnTimeout(w: Window): Window
  {
    var half := HalfTowardZero(w.threshold);
    Window(1, if half >= MIN_THRESHOLD then half else MIN_THRESHOLD)
  }

  /** The invariant the controller is meant to keep. */
  predicate Valid(w: Window)
  {
    1 <= w.cwnd && MIN_THRESHOLD <= w.threshold
  }

  datatype Signal = AckSignal | TimeoutSignal

  function Step(w: Window, s: Signal): Window
  {
    match s
    case AckSignal => OnAck(w)
    case TimeoutSignal => OnTimeout(w)
  }

  /** The controller after a sequence of signals, first to last. */
  function Apply(w: Window, signals: seq<Signal>): Window
    decreases |signals|
  {
    if signals == [] then w else Apply(Step(w, signals[0]), signals[1..])
  }

  function Acks(n: nat): (r: seq<Signal>)
    ensures |r| == n && forall k :: 0 <= k < n ==> r[k] == AckSignal
  {
    seq(n, _ => AckSignal)
  }

  function Max(a: int, b: int): int
  {
    if a >= b then a else b
  }

  /** An ACK doubles cwnd below the threshold and adds one at or above it; the threshold stays. */
  lemma AckSignalRule(w: Window)
    ensures OnAck(w).threshold == w.threshold
    ensures w.cwnd < w.threshold && IsInt(2 * w.cwnd) ==> OnAck(w).cwnd == 2 * w.cwnd
    ensures w.cwnd >= w.threshold && IsInt(w.cwnd + 1) ==> OnAck(w).cwnd == w.cwnd + 1
  {
  }

  /** A timeout resets cwnd to 1 and halves the threshold (rounding down), never below 2. */
  lemma TimeoutRule(w: Window)
    requires w.threshold >= 0
    ensures OnTimeout(w).cwnd == 1
    ensures OnTimeout(w).threshold == Max(w.threshold / 2, MIN_THRESHOLD)
  {
  }

  /** Past INT_MAX, Java's cwnd += 1 wraps to a negative window. */
  lemma AckWrapsAtIntMax()
    ensures OnAck(Window(INT_MAX, INITIAL_THRESHOLD)).cwnd == INT_MIN
  {
  }

  /**
   * Any sequence of ACKs and timeouts keeps cwnd >= 1 and 2 <= threshold, as long
   * as cwnd cannot reach INT_MAX: each signal adds at most one to cwnd beyond 128.
   */
  lemma {:induction false} ApplyKeepsValid(w: Window, signals: seq<Signal>)
    requires Valid(w) && w.threshold <= INITIAL_THRESHOLD
    requires Max(w.cwnd, 128) + |signals| <= INT_MAX
    ensures Valid(Apply(w, signals))
    ensures Apply(w, signals).threshold <= w.threshold
    ensures Apply(w, signals).cwnd <= Max(w.cwnd, 128) + |signals|
    decreases |signals|
  {
    if signals != [] {
      var next := Step(w, signals[0]);
      assert Max(next.cwnd, 128) <= Max(w.cwnd, 128) + 1;
      ApplyKeepsValid(next, signals[1..]);
    }
  }

  /** From cwnd = 1 and threshold = 64 the invariant holds for up to INT_MAX - 128 signals. */
  lemma InitialStaysValid(signals: seq<Signal>)
    requires |signals| <= INT_MAX - 128
    ensures Valid(Apply(Initial(), signals))
    ensures Apply(Initial(), signals).threshold <= INITIAL_THRESHOLD
  {
    ApplyKeepsValid(Initial(), signals);
  }

  lemma {:induction false} ApplyAppend(w: Window, a: seq<Signal>, b: seq<Signal>)
    ensures Apply(w, a + b) == Apply(Apply(w, a), b)
    decreases |a|
  {
    if a != [] {
      assert (a + b)[1..] == a[1..] + b;
      ApplyAppend(Step(w, a[0]), a[1..], b);
    } else {
      assert a + b == b;
    }
  }

  /** Six ACKs take cwnd from 1 through 2, 4, 8, 16, 32 to 64 = threshold. */
  lemma SixAcksFromInitial()
    ensures Apply(Initial(), Acks(6)) == Window(64, INITIAL_THRESHOLD)
  {
    var w := Initial();
    var s := Acks(6);
    assert s[1..] == Acks(5) && Acks(5)[1..] == Acks(4) && Acks(4)[1..] == Acks(3);
    assert Acks(3)[1..] == Acks(2) && Acks(2)[1..] == Acks(1) && Acks(1)[1..] == [];
    assert Apply(w, s) == Apply(Window(2, 64), Acks(5));
    assert Apply(Window(2, 64), Acks(5)) == Apply(Window(4, 64), Acks(4));
    assert Apply(Window(4, 64), Acks(4)) == Apply(Window(8, 64), Acks(3));
    assert Apply(Window(8, 64), Acks(3)) == Apply(Window(16, 64), Acks(2));
    assert Apply(Window(16, 64), Acks(2)) == Apply(Window(32, 64), Acks(1));
    assert Apply(Window(32, 64), Acks(1)) == Apply(Window(64, 64), []);
  }

  /** At or above the threshold every ACK adds exactly one. */
  lemma {:induction false} AcksAboveThreshold(w: Window, n: nat)
    requires w.cwnd >= w.threshold && IsInt(w.cwnd) && w.cwnd + n <= INT_MAX
    ensures Apply(w, Acks(n)) == Window(w.cwnd + n, w.threshold)
    decreases n
  {
    if n > 0 {
      assert Acks(n)[1..] == Acks(n - 1);
      AcksAboveThreshold(Window(w.cwnd + 1, w.threshold), n - 1);
    }
  }

  /** With no timeouts, after 6 + n ACKs cwnd is 64 + n: doubling six times, then one per ACK. */
  lemma AcksFromInitial(n: nat)
    requires 64 + n <= INT_MAX
    ensures Apply(Initial(), Acks(6 + n)) == Window(64 + n, INITIAL_THRESHOLD)
  {
    assert Acks(6 + n) == Acks(6) + Acks(n);
    ApplyAppend(Initial(), Acks(6), Acks(n));
    SixAcksFromInitial();
    AcksAboveThreshold(Window(64, INITIAL_THRESHOLD), n);
  }

  /** Ten ACKs from the initial window give cwnd = 68. */
  lemma TenAcksFromInitial()
    ensures Apply(Initial(), Acks(10)).cwnd == 68
  {
    AcksFromInitial(4);
  }
}
