/** The screen's events in one sequence: keystrokes and the two timer loops
    interleave on a single event loop, so a run of the screen after the
    initial fill is a fold of `Next` over a list of events. */
module SessionTrace {
  import opened WordSession

  datatype Event =
    | Typed(text: string, now: int, pick: string)   // onValueChange, with its clock reading and draw
    | ClockTicked(now: int)                         // body of the 1-second clock loop
    | IdleTicked(now: int, picks: seq<string>)      // body of the 5-second reshuffle loop

  /** The draws an event carries are draws from `pool`, one per displayed
      slot for a reshuffle of `width` slots. */
  predicate DrawnFrom(pool: seq<string>, width: nat, e: Event) {
    match e
    case Typed(_, _, pick) => FromPool(pool, pick)
    case ClockTicked(_) => true
    case IdleTicked(_, picks) =>
      |picks| == width && forall i :: 0 <= i < |picks| ==> FromPool(pool, picks[i])
  }

  /** One step of the event loop. */
  function Next(s: Session, e: Event): (r: Session)
    requires DrawnFrom(s.pool, |s.displayed|, e)
    ensures |r.displayed| == |s.displayed|
    ensures r.typedCount == s.typedCount || r.typedCount == s.typedCount + 1
    ensures r.pool == s.pool && r.startTime == s.startTime
    ensures Inv(s) ==> Inv(r)
  {
    match e
    case Typed(text, now, pick) =>
      InputKeepsPoolWords(s, text, now, pick);
      Input(s, text, now, pick)
    case ClockTicked(now) => ClockTick(s, now)
    case IdleTicked(now, picks) =>
      IdleTickKeepsPoolWords(s, now, picks);
      IdleTick(s, now, picks)
  }

  /** A keystroke keeps every displayed word a pool word, provided its draw
      is one. */
  lemma InputKeepsPoolWords(s: Session, text: string, now: int, pick: string)
    requires Inv(s) ==> FromPool(s.pool, pick)
    ensures Inv(s) ==> Inv(Input(s, text, now, pick))
  {
    var r := Input(s, text, now, pick);
    var i := MatchAt(s.displayed, text);
    if Inv(s) && 0 <= i {
      assert s.displayed[i] in s.pool;
      forall w | w in r.displayed ensures w in s.pool {
        assert w in multiset(r.displayed);
        assert w in multiset(s.displayed) + multiset{pick};
      }
    }
  }

  /** A reshuffle keeps every displayed word a pool word, provided its draws
      are. */
  lemma IdleTickKeepsPoolWords(s: Session, now: int, picks: seq<string>)
    requires ShouldReshuffle(s, now) ==> |picks| == |s.displayed|
    requires forall i :: 0 <= i < |picks| ==> FromPool(s.pool, picks[i])
    ensures Inv(s) ==> Inv(IdleTick(s, now, picks))
  {
    var r := IdleTick(s, now, picks);
    if Inv(s) && ShouldReshuffle(s, now) {
      assert s.displayed[0] in s.pool;
      forall w | w in r.displayed ensures w in s.pool {
        var i :| 0 <= i < |r.displayed| && r.displayed[i] == w;
        assert FromPool(s.pool, picks[i]);
      }
    }
  }

  /** Every draw of every event is from the pool. */
  predicate AllDrawnFrom(pool: seq<string>, width: nat, es: seq<Event>) {
    forall k :: 0 <= k < |es| ==> DrawnFrom(pool, width, es[k])
  }

  /** The session after handling `es` in order. */
  function Run(s: Session, es: seq<Event>): (r: Session)
    requires AllDrawnFrom(s.pool, |s.displayed|, es)
    ensures |r.displayed| == |s.displayed|
    ensures r.typedCount >= s.typedCount
    ensures r.typedCount <= s.typedCount + |es|
    ensures r.pool == s.pool && r.startTime == s.startTime
    ensures Inv(s) ==> Inv(r)
    decreases |es|
  {
    if |es| == 0 then s
    else
      var s' := Next(s, es[0]);
      assert AllDrawnFrom(s'.pool, |s'.displayed|, es[1..]) by {
        forall k | 0 <= k < |es[1..]| ensures DrawnFrom(s'.pool, |s'.displayed|, es[1..][k]) {
          assert es[1..][k] == es[k + 1];
        }
      }
      Run(s', es[1..])
  }
}
