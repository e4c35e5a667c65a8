/**
 The two progress rings. Each redraw turns the seconds since midnight into a
 sweep angle in whole degrees, fills a disc, stamps one background-coloured
 wedge per degree from that angle up to 359, and fills a smaller inner disc,
 leaving a ring whose swept arc is what remains of the cycle.
 */
module Rings {
  import opened Clock
  import opened Label

  const FullTurn: nat := 360

  /** The outer ring restarts every five minutes. */
  const MinuteCycle: nat := 300

  /** The inner ring covers the day: 86400 / 360 seconds per degree. */
  const SecondsPerDegree: nat := 240

  /** Radii of the discs drawn for each ring, in pixels. */
  const MinuteRingOuter: nat := 60
  const MinuteRingInner: nat := 55
  const HourRingOuter: nat := 54
  const HourRingInner: nat := 50

  /** Distance from the centre to the far edge of each wedge path. */
  const MinuteWedgeLength: nat := 62
  const HourWedgeLength: nat := 56

  // ---------------------------------------------------------------- angles

  /** Outer ring: degrees into the current five-minute cycle, 1.2 degrees per second, truncated. */
  function MinuteAngle(x: nat): (a: nat)
    ensures a < FullTurn
    ensures a == 0 <==> x % MinuteCycle == 0
  {
    (x % MinuteCycle) * 6 / 5
  }

  /** The outer-ring expression `(x % 300) * 360.0 / 300.0` before truncation, in exact arithmetic. */
  function MinuteAngleExact(x: nat): (v: real)
    ensures 0.0 <= v < FullTurn as real
  {
    ((x % MinuteCycle) as real) * 360.0 / 300.0
  }

  /** Inner ring: whole degrees of the day elapsed, one per 240 seconds, truncated. */
  function HourAngle(x: nat): (a: nat)
    ensures x < SecondsPerDay ==> a < FullTurn
    ensures x == SecondsPerDay ==> a == FullTurn
    ensures a == 0 <==> x < SecondsPerDegree
  {
    x / SecondsPerDegree
  }

  /** The inner-ring expression `x / 240.0` before truncation, in exact arithmetic. */
  function HourAngleExact(x: nat): (v: real)
    ensures 0.0 <= v
    ensures x < SecondsPerDay ==> v < FullTurn as real
    ensures x == SecondsPerDay ==> v == FullTurn as real
  {
    (x as real) / 240.0
  }

  /**
   Truncating the exact outer-ring quotient gives MinuteAngle; the quotient is
   MinuteAngle plus a multiple of 1/5 below 1, so it is either whole or at
   least 1/5 away from the next whole degree.
   */
  lemma MinuteAngleTruncates(x: nat)
    ensures MinuteAngleExact(x).Floor == MinuteAngle(x)
    ensures MinuteAngleExact(x) == MinuteAngle(x) as real + ((x % MinuteCycle) * 6 % 5) as real / 5.0
  {
    var k := x % MinuteCycle;
    var q, r := k * 6 / 5, k * 6 % 5;
    assert k * 6 == 5 * q + r;
    assert (k as real) * 360.0 / 300.0 == ((k * 6) as real) / 5.0;
    assert ((k * 6) as real) / 5.0 == q as real + r as real / 5.0;
  }

  /**
   Truncating the exact inner-ring quotient gives HourAngle; the quotient is
   HourAngle plus a multiple of 1/240 below 1.
   */
  lemma HourAngleTruncates(x: nat)
    ensures HourAngleExact(x).Floor == HourAngle(x)
    ensures HourAngleExact(x) == HourAngle(x) as real + (x % SecondsPerDegree) as real / 240.0
  {
    var q, r := x / SecondsPerDegree, x % SecondsPerDegree;
    assert x == 240 * q + r;
    assert (x as real) / 240.0 == q as real + r as real / 240.0;
  }

  /** Within one five-minute cycle the outer-ring angle never decreases. */
  lemma MinuteAngleMonotone(x: nat, y: nat)
    requires x <= y
    requires x / MinuteCycle == y / MinuteCycle
    ensures MinuteAngle(x) <= MinuteAngle(y)
  {
    var c := x / MinuteCycle;
    assert x == c * MinuteCycle + x % MinuteCycle;
    assert y == c * MinuteCycle + y % MinuteCycle;
    assert x % MinuteCycle <= y % MinuteCycle;
    MulDivMonotone(x % MinuteCycle, y % MinuteCycle);
  }

  lemma MulDivMonotone(i: nat, j: nat)
    requires i <= j
    ensures i * 6 / 5 <= j * 6 / 5
  {
    assert i * 6 <= j * 6;
  }

  /** The outer ring repeats every cycle. */
  lemma MinuteAnglePeriodic(x: nat)
    ensures MinuteAngle(x + MinuteCycle) == MinuteAngle(x)
  {
    assert (x + MinuteCycle) % MinuteCycle == x % MinuteCycle;
  }

  /** Over the day the inner-ring angle never decreases. */
  lemma HourAngleMonotone(x: nat, y: nat)
    requires x <= y
    ensures HourAngle(x) <= HourAngle(y)
  {
    var qx, qy := x / SecondsPerDegree, y / SecondsPerDegree;
    assert qx * 240 <= x <= y < (qy + 1) * 240;
  }

  /**
   The outer ring is back at zero exactly when the label's count-up block
   starts: the reading lies on a multiple of 300 seconds, namely the block index times 300.
   */
  lemma MinuteRingRestartsWithBlock(t: Reading)
    requires Ordinary(t)
    ensures MinuteAngle(TotalSeconds(t)) == 0 <==> TotalSeconds(t) == CountUpBlock(t) * MinuteCycle
  {
    CountUpBlockIsCycleIndex(t);
    var x := TotalSeconds(t);
    assert x == (x / MinuteCycle) * MinuteCycle + x % MinuteCycle;
  }

  /**
   A leap second breaks the match between ring and label: at hh:m4:60 the
   seconds reach the next multiple of 300, so the outer ring is back at 0, while
   the label's block is still the old one and moves on only a second later.
   */
  lemma LeapSecondRestartsRingEarly(h: int, m: int)
    requires 0 <= h <= 23 && 0 <= m <= 59 && m % 5 == 4
    ensures WellFormed(Reading(h, m, 60)) && !Ordinary(Reading(h, m, 60))
    ensures MinuteAngle(TotalSeconds(Reading(h, m, 60))) == 0
    ensures TotalSeconds(Reading(h, m, 60)) == (CountUpBlock(Reading(h, m, 60)) + 1) * MinuteCycle
  {
    var t := Reading(h, m, 60);
    assert m == (m / 5) * 5 + 4;
    assert TotalSeconds(t) == (h * 12 + m / 5 + 1) * 300;
  }

  /** Sample values over the day. */
  lemma AngleLandmarks()
    ensures TotalSeconds(Reading(0, 5, 30)) == 330 && MinuteAngle(330) == 36
    ensures HourAngle(TotalSeconds(Reading(0, 0, 0))) == 0
    ensures HourAngle(TotalSeconds(Reading(12, 0, 0))) == 180
    ensures HourAngle(TotalSeconds(Reading(23, 59, 59))) == 359
    ensures HourAngle(TotalSeconds(Reading(23, 59, 60))) == FullTurn
  {
    assert TotalSeconds(Reading(12, 0, 0)) == 43200;
    assert TotalSeconds(Reading(23, 59, 59)) == 86399;
  }

  /** The rings nest without overlapping, and each wedge reaches past its ring's outer edge. */
  lemma RingsNest()
    ensures HourRingInner < HourRingOuter < MinuteRingInner < MinuteRingOuter
    ensures MinuteWedgeLength > MinuteRingOuter && HourWedgeLength > HourRingOuter
  {
  }

  /**
   The hour wedges reach past the minute ring's inner radius. The hour layer is
   added after the minute layer and so drawn over it; its background-coloured
   wedges may therefore cover the innermost pixel of the minute ring's band
   over the degrees they stamp.
   */
  lemma HourWedgeReachesMinuteBand()
    ensures MinuteRingInner < HourWedgeLength < MinuteRingOuter
    ensures HourWedgeLength - MinuteRingInner == 1
  {
  }

  // ---------------------------------------------------------------- wedge stamping

  /** stamps rotates a wedge to start, start + 1, ..., 359 in that order. */
  predicate StampsFrom(stamps: seq<nat>, start: nat) {
    && |stamps| == (if start < FullTurn then FullTurn - start else 0)
    && forall i :: 0 <= i < |stamps| ==> stamps[i] == start + i
  }

  /**
   The wedge loop of both rings: from the computed angle up to 359, rotate the
   wedge to the current angle and fill it. Returns the angles in the order
   they are stamped.
   */
  method StampWedges(start: nat) returns (stamps: seq<nat>)
    ensures StampsFrom(stamps, start)
    ensures forall d :: d in stamps <==> start <= d < FullTurn
    ensures forall i, j :: 0 <= i < j < |stamps| ==> stamps[i] < stamps[j]
  {
    var angle := start;
    stamps := [];
    while angle < FullTurn
      invariant start <= angle
      invariant start < FullTurn ==> angle <= FullTurn
      invariant start >= FullTurn ==> angle == start
      invariant |stamps| == angle - start
      invariant forall i :: 0 <= i < |stamps| ==> stamps[i] == start + i
      decreases FullTurn - angle
    {
      stamps := stamps + [angle];
      angle := angle + 1;
    }
    forall d | start <= d < FullTurn
      ensures d in stamps
    {
      assert stamps[d - start] == d;
    }
  }

  // ---------------------------------------------------------------- redraws

  /**
   The outer ring's redraw: the wedges it stamps for the reading, and the label
   it then sets in the buffer.
   */
  method MinuteDisplayUpdate(t: Reading, buffer: array<char>) returns (stamps: seq<nat>, text: string)
    requires WellFormed(t)
    requires buffer.Length >= LabelSize
    modifies buffer
    ensures StampsFrom(stamps, MinuteAngle(TotalSeconds(t)))
    ensures 1 <= |stamps| <= FullTurn
    ensures text == Decimal(BlockNumber(t, CountUp))
    ensures CString(buffer[..]) == text
    ensures |text| < LabelSize
    ensures buffer[|text| + 1..] == old(buffer[|text| + 1..])
  {
    var totalSeconds := TotalSeconds(t);
    var angle := MinuteAngle(totalSeconds);
    stamps := StampWedges(angle);
    text := SetTimeLabel(t, buffer);
  }

  /**
   The inner ring's redraw: the wedges it stamps. Only the leap second
   23:59:60 reaches angle 360 and stamps nothing.
   */
  method HourDisplayUpdate(t: Reading) returns (stamps: seq<nat>)
    requires WellFormed(t)
    ensures StampsFrom(stamps, HourAngle(TotalSeconds(t)))
    ensures stamps == [] <==> t == Reading(23, 59, 60)
  {
    var totalSeconds := TotalSeconds(t);
    var angle := HourAngle(totalSeconds);
    stamps := StampWedges(angle);
  }
}
