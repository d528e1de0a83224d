/** Words per minute, shown in the title bar. The screen computes it in
    single-precision floating point; here it is an exact `real`. */
module Metrics {

  const MillisPerMinute: int := 60000

  /** Minutes between the start reading and the clock reading. */
  function ElapsedMinutes(startTime: int, currentTime: int): (m: real)
    ensures m * MillisPerMinute as real == (currentTime - startTime) as real
    ensures m > 0.0 <==> startTime < currentTime
  {
    (currentTime - startTime) as real / MillisPerMinute as real
  }

  /** Typed words per elapsed minute, guarded to 0 when no time has elapsed
      or the clock reads earlier than the start. */
  function Wpm(typedCount: nat, startTime: int, currentTime: int): (w: real)
    ensures w >= 0.0
    ensures currentTime <= startTime ==> w == 0.0
    ensures startTime < currentTime ==>
      w * (currentTime - startTime) as real == (typedCount * MillisPerMinute) as real
  {
    var elapsed := ElapsedMinutes(startTime, currentTime);
    if elapsed > 0.0 then typedCount as real / elapsed else 0.0
  }

  /** With a fixed number of typed words, the rate only falls as time passes. */
  lemma WpmFallsAsTimePasses(typedCount: nat, startTime: int, t1: int, t2: int)
    requires typedCount > 0 && startTime < t1 < t2
    ensures Wpm(typedCount, startTime, t2) < Wpm(typedCount, startTime, t1)
  {
    var w1 := Wpm(typedCount, startTime, t1);
    var w2 := Wpm(typedCount, startTime, t2);
    var e1 := (t1 - startTime) as real;
    var e2 := (t2 - startTime) as real;
    var k := (typedCount * MillisPerMinute) as real;
    assert w1 * e1 == k && w2 * e2 == k;
    assert w2 > 0.0;
    calc {
      w2 * e1;
    <  { MulGrows(w2, e1, e2); }
      w2 * e2;
    ==
      w1 * e1;
    }
    CancelPositive(w2, w1, e1);
  }

  /** Multiplying by a positive factor keeps a strict order. */
  lemma MulGrows(a: real, b: real, c: real)
    requires a > 0.0 && b < c
    ensures a * b < a * c
  {
  }

  /** A positive factor common to both sides of a strict order can be cancelled. */
  lemma CancelPositive(a: real, b: real, c: real)
    requires c > 0.0 && a * c < b * c
    ensures a < b
  {
  }

  /** The worked figures: 30 words in one minute, 30 words in half a minute,
      and 5 words at the very start. */
  lemma WpmExamples()
    ensures Wpm(30, 0, 60000) == 30.0
    ensures Wpm(30, 0, 30000) == 60.0
    ensures Wpm(5, 0, 0) == 0.0
  {
  }
}
