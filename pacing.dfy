/// Frame pacing: the number of clock ticks per frame, the next frame
/// boundary after a clock reading, and the spin-wait until that boundary.
/// The high-resolution clock is modelled by the readings it returns: the
/// wait is given the sequence of values that successive reads of the
/// counter produce.
module Pacing {

  datatype Option<T> = None | Some(value: T)

  /// The fixed submission rate, in frames per second.
  const FrameRate: int := 60

  /// Largest value of a 64-bit signed integer (`long long`).
  const Int64Max: int := 0x7FFF_FFFF_FFFF_FFFF

  function Abs(x: int): nat {
    if x < 0 then -x else x
  }

  /// Integer division as C++ defines it: the quotient is truncated toward
  /// zero, so the remainder has the sign of the dividend.
  function TruncDiv(a: int, b: int): (q: int)
    requires b != 0
    ensures Abs(a - q * b) < Abs(b)
    ensures a - q * b == 0 || (a - q * b < 0 <==> a < 0)
    ensures a >= 0 && b > 0 ==> q == a / b
  {
    var m := Abs(a) / Abs(b);
    var q := if (a < 0) == (b < 0) then m else -m;
    SignedProduct(a, b, m);
    q
  }

  /// The product of a truncated quotient and the divisor carries the sign
  /// of the dividend.
  lemma SignedProduct(a: int, b: int, m: int)
    requires b != 0
    ensures (if (a < 0) == (b < 0) then m else -m) * b
            == if a < 0 then -(m * Abs(b)) else m * Abs(b)
  {
  }

  /// ticksPerFrame = ticksPerSecond / frameRate.
  function TicksPerFrame(ticksPerSecond: nat): (r: nat)
    ensures r > 0 <==> ticksPerSecond >= FrameRate
    ensures r * FrameRate <= ticksPerSecond < (r + 1) * FrameRate
  {
    TruncDiv(ticksPerSecond, FrameRate)
  }

  /// The frame boundary the throttle waits for after reading `ticks`:
  /// (ticks / ticksPerFrame + 1) * ticksPerFrame, with C++ division.  With
  /// a positive frame length it lies strictly after the reading, whatever
  /// the reading's sign, so the wait always sleeps at least once.
  function NextFrameTicks(ticks: int, ticksPerFrame: int): (next: int)
    requires ticksPerFrame != 0
    ensures ticksPerFrame > 0 ==> next > ticks
  {
    var q := TruncDiv(ticks, ticksPerFrame);
    Distribute(q + 1, 0, ticksPerFrame);
    (q + 1) * ticksPerFrame
  }

  /// For a non-negative reading, the boundary lies strictly after it, is a
  /// multiple of the frame length, and is at most one frame away.
  lemma NextFrameIsNextMultiple(ticks: int, ticksPerFrame: int)
    requires ticks >= 0 && ticksPerFrame > 0
    ensures ticks < NextFrameTicks(ticks, ticksPerFrame) <= ticks + ticksPerFrame
    ensures NextFrameTicks(ticks, ticksPerFrame) % ticksPerFrame == 0
  {
    var q := ticks / ticksPerFrame;
    assert TruncDiv(ticks, ticksPerFrame) == q;
    assert NextFrameTicks(ticks, ticksPerFrame) == q * ticksPerFrame + ticksPerFrame;
    assert ticks == q * ticksPerFrame + ticks % ticksPerFrame;
    assert (q + 1) * ticksPerFrame % ticksPerFrame == 0 by {
      MultipleHasNoRemainder(q + 1, ticksPerFrame);
    }
  }

  lemma MultipleHasNoRemainder(k: int, n: int)
    requires n > 0
    ensures (k * n) % n == 0
  {
    var r := (k * n) % n;
    var d := (k * n) / n;
    assert k * n == d * n + r && 0 <= r < n;
    Distribute(k, d, n);
    if k - d > 0 {
      ScaleAtLeast(k - d, n);
    } else if k - d < 0 {
      ScaleAtLeast(d - k, n);
      Distribute(d, k, n);
    }
  }

  lemma Distribute(x: int, y: int, n: int)
    ensures (x - y) * n == x * n - y * n
  {
  }

  /// Multiplying a frame length by a positive count gives at least one frame.
  lemma ScaleAtLeast(x: int, n: int)
    requires x >= 1 && n > 0
    ensures x * n >= n
  {
  }

  /// No multiple of the frame length lies strictly between a non-negative
  /// reading and its boundary: the boundary is the first frame start after
  /// the reading.
  lemma NextFrameIsSmallest(ticks: int, ticksPerFrame: int, m: int)
    requires ticks >= 0 && ticksPerFrame > 0
    requires ticks < m && m % ticksPerFrame == 0
    ensures NextFrameTicks(ticks, ticksPerFrame) <= m
  {
    var q := ticks / ticksPerFrame;
    var k := m / ticksPerFrame;
    assert m == k * ticksPerFrame;
    assert ticks == q * ticksPerFrame + ticks % ticksPerFrame;
    if k <= q {
      ScaleMonotone(k, q, ticksPerFrame);
      assert false;
    }
    ScaleMonotone(q + 1, k, ticksPerFrame);
  }

  lemma ScaleMonotone(x: int, y: int, n: int)
    requires x <= y && n > 0
    ensures x * n <= y * n
  {
    Distribute(y, x, n);
    if x < y {
      ScaleAtLeast(y - x, n);
    }
  }

  /// The boundary fits in a `long long` as long as the reading is at least
  /// one frame below the largest 64-bit value.
  lemma NextFrameFitsInt64(ticks: int, ticksPerFrame: int)
    requires ticksPerFrame > 0 && 0 <= ticks <= Int64Max - ticksPerFrame
    ensures 0 < NextFrameTicks(ticks, ticksPerFrame) <= Int64Max
  {
    NextFrameIsNextMultiple(ticks, ticksPerFrame);
  }

  /// With a negative reading, truncating division rounds the quotient up,
  /// and the formula skips a frame start: from -1 with frame length 2 it
  /// yields 2, although 0 is the next multiple of 2.
  lemma NegativeReadingSkipsBoundary()
    ensures NextFrameTicks(-1, 2) == 2
  {
  }

  /// The boundary after a frame start is the following frame start.
  lemma NextFrameAfterBoundary(m: int, ticksPerFrame: int)
    requires m >= 0 && ticksPerFrame > 0 && m % ticksPerFrame == 0
    ensures NextFrameTicks(m, ticksPerFrame) == m + ticksPerFrame
  {
    var q := m / ticksPerFrame;
    assert m == q * ticksPerFrame;
    assert TruncDiv(m, ticksPerFrame) == q;
    Distribute(q + 1, 1, ticksPerFrame);
  }

  /// The rate cap: once a wait has reached its boundary, any later wait
  /// (whose first reading comes no earlier) ends at a boundary at least
  /// one whole frame further on.
  lemma {:induction false} LaterWaitIsAFrameLater(first: int, later: int, ticksPerFrame: int)
    requires first >= 0 && ticksPerFrame > 0
    requires later >= NextFrameTicks(first, ticksPerFrame)
    ensures NextFrameTicks(later, ticksPerFrame) >= NextFrameTicks(first, ticksPerFrame) + ticksPerFrame
  {
    var b := NextFrameTicks(first, ticksPerFrame);
    NextFrameIsNextMultiple(first, ticksPerFrame);
    NextFrameIsNextMultiple(later, ticksPerFrame);
    NextFrameIsSmallest(b, ticksPerFrame, NextFrameTicks(later, ticksPerFrame));
    NextFrameAfterBoundary(b, ticksPerFrame);
  }

  /// The index of the first reading at or past `boundary`, or None if no
  /// reading reaches it.
  function FirstReaching(clock: seq<int>, boundary: int): (r: Option<nat>)
    ensures r.Some? ==> r.value < |clock| && clock[r.value] >= boundary
                        && forall j :: 0 <= j < r.value ==> clock[j] < boundary
    ensures r.None? ==> forall j :: 0 <= j < |clock| ==> clock[j] < boundary
    decreases |clock|
  {
    if |clock| == 0 then None
    else if clock[0] >= boundary then Some(0)
    else match FirstReaching(clock[1..], boundary)
      case None => None
      case Some(k) => Some(k + 1)
  }

  predicate NonDecreasing(clock: seq<int>) {
    forall i, j :: 0 <= i <= j < |clock| ==> clock[i] <= clock[j]
  }

  /// The throttle's wait: read the clock, compute the next frame boundary,
  /// and re-read the clock (sleeping a millisecond in between) until the
  /// reading reaches the boundary.  `clock[0]` is the first reading and
  /// `clock[k]` the one after the k-th sleep.  The result is the number of
  /// sleeps, or None if the supplied readings end before the boundary.
  method WaitForNextFrame(clock: seq<int>, ticksPerFrame: int) returns (sleeps: Option<nat>)
    requires ticksPerFrame != 0 && |clock| > 0
    ensures sleeps == FirstReaching(clock, NextFrameTicks(clock[0], ticksPerFrame))
  {
    var ticks := clock[0];
    var nextFrameTicks := NextFrameTicks(ticks, ticksPerFrame);
    var i := 0;
    while ticks < nextFrameTicks
      invariant 0 <= i < |clock| && ticks == clock[i]
      invariant forall j :: 0 <= j < i ==> clock[j] < nextFrameTicks
      decreases |clock| - i
    {
      if i + 1 == |clock| {
        return None;
      }
      i := i + 1;
      ticks := clock[i];
    }
    return Some(i);
  }

  /// On a non-decreasing clock whose readings reach the boundary of the
  /// first reading, the wait ends after at least one sleep,
  /// and every later reading is past the boundary too.
  lemma WaitEndsAtBoundary(clock: seq<int>, ticksPerFrame: int)
    requires ticksPerFrame > 0 && |clock| > 0
    requires NonDecreasing(clock)
    requires clock[|clock| - 1] >= NextFrameTicks(clock[0], ticksPerFrame)
    ensures var r := FirstReaching(clock, NextFrameTicks(clock[0], ticksPerFrame));
            r.Some? && 1 <= r.value
            && clock[r.value] - clock[0] >= NextFrameTicks(clock[0], ticksPerFrame) - clock[0] > 0
            && forall j :: r.value <= j < |clock| ==> clock[j] >= NextFrameTicks(clock[0], ticksPerFrame)
  {
  }
}
