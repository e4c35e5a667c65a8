/**
 The clock reading the watchface samples on every redraw, and the number of
 seconds since midnight that both progress rings are computed from.
 */
module Clock {

  /** The three fields of a broken-down local time that the face reads. */
  datatype Reading = Reading(hour: int, minute: int, second: int)

  const SecondsPerDay: nat := 86400

  /** The ranges a broken-down time may hold; a leap second shows as second 60. */
  predicate WellFormed(t: Reading) {
    0 <= t.hour <= 23 && 0 <= t.minute <= 59 && 0 <= t.second <= 60
  }

  /** A reading without a leap second. */
  predicate Ordinary(t: Reading) {
    WellFormed(t) && t.second <= 59
  }

  /** Seconds elapsed since midnight. */
  function TotalSeconds(t: Reading): (x: nat)
    requires WellFormed(t)
    ensures x <= SecondsPerDay
    ensures x == SecondsPerDay <==> t == Reading(23, 59, 60)
    ensures Ordinary(t) ==> x < SecondsPerDay
  {
    t.hour * 3600 + t.minute * 60 + t.second
  }

  /** The reading that a number of seconds since midnight stands for. */
  function FromSeconds(x: nat): (t: Reading)
    requires x < SecondsPerDay
    ensures Ordinary(t)
    ensures TotalSeconds(t) == x
  {
    assert x == (x / 3600) * 3600 + x % 3600;
    assert x % 3600 == (x % 3600 / 60) * 60 + x % 3600 % 60;
    assert x % 3600 % 60 == x % 60;
    Reading(x / 3600, x % 3600 / 60, x % 60)
  }

  /** "a is earlier in the day than b", field by field. */
  predicate Before(a: Reading, b: Reading) {
    a.hour < b.hour
    || (a.hour == b.hour && a.minute < b.minute)
    || (a.hour == b.hour && a.minute == b.minute && a.second < b.second)
  }

  lemma TotalSecondsInverse(t: Reading)
    requires Ordinary(t)
    ensures FromSeconds(TotalSeconds(t)) == t
  {
    var x := TotalSeconds(t);
    var rest := t.minute * 60 + t.second;
    assert 0 <= rest < 3600;
    assert x / 3600 == t.hour && x % 3600 == rest;
    assert rest / 60 == t.minute && rest % 60 == t.second;
    assert x % 60 == rest % 60;
  }

  /** Seconds since midnight order readings exactly as the clock does. */
  lemma TotalSecondsOrder(a: Reading, b: Reading)
    requires Ordinary(a) && Ordinary(b)
    ensures Before(a, b) <==> TotalSeconds(a) < TotalSeconds(b)
    ensures a == b <==> TotalSeconds(a) == TotalSeconds(b)
  {
    var ra := a.minute * 60 + a.second;
    var rb := b.minute * 60 + b.second;
    assert 0 <= ra < 3600 && 0 <= rb < 3600;
    if a.hour < b.hour {
      assert a.hour * 3600 + 3600 <= b.hour * 3600;
    } else if b.hour < a.hour {
      assert b.hour * 3600 + 3600 <= a.hour * 3600;
    }
  }
}
