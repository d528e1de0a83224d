/** The word session of the typing screen: the words on display, the number
    of words typed, the text in the input field and the three timestamps the
    screen keeps. Every transition is a pure function; the random draws and
    the clock readings the screen makes are passed in as arguments. */
module WordSession {
  import opened Text
  import opened WordList

  /** How many words the screen shows after the initial fill. */
  const InitialWordCount: nat := 5

  /** Idle time, in milliseconds, that must be exceeded before a reshuffle. */
  const IdleThresholdMs: int := 3000

  /** The state `TypingScreen` remembers. `pool` is the word list loaded once
      from the packaged resource and never changed afterwards. */
  datatype Session = Session(
    pool: seq<string>,
    displayed: seq<string>,
    typedCount: nat,
    text: string,
    startTime: int,
    currentTime: int,
    lastTypedTime: int)

  /** Every displayed word comes from the pool. */
  predicate Inv(s: Session) {
    forall w :: w in s.displayed ==> w in s.pool
  }

  /** A value `random()` can return from `pool`; an empty pool is never
      drawn from by a reachable session (see `DrawsNeedWords`). */
  predicate FromPool(pool: seq<string>, w: string) {
    |pool| == 0 || w in pool
  }

  /** The screen as first composed: nothing displayed or typed yet, and the
      three clock readings taken for the start, the clock and the last input. */
  function Start(pool: seq<string>, startTime: int, currentTime: int, lastTypedTime: int): (s: Session)
    ensures Inv(s) && s.displayed == [] && s.typedCount == 0 && s.text == ""
    ensures s.pool == pool && s.startTime == startTime
    ensures s.currentTime == currentTime && s.lastTypedTime == lastTypedTime
  {
    Session(pool, [], 0, "", startTime, currentTime, lastTypedTime)
  }

  /** The initial fill: append the first `InitialWordCount` words of
      `shuffled`, a permutation of the pool. */
  function Populate(s: Session, shuffled: seq<string>): (r: Session)
    requires multiset(shuffled) == multiset(s.pool)
    ensures |r.displayed| == |s.displayed| + Min(InitialWordCount, |s.pool|)
    ensures r.displayed[..|s.displayed|] == s.displayed
    ensures multiset(r.displayed[|s.displayed|..]) <= multiset(s.pool)
    ensures forall j :: |s.displayed| <= j < |r.displayed| ==> r.displayed[j] in s.pool
    ensures Inv(s) ==> Inv(r)
    ensures r.(displayed := s.displayed) == s
  {
    var added := Take(shuffled, InitialWordCount);
    var d := s.displayed + added;
    assert |shuffled| == |s.pool| by {
      assert |multiset(shuffled)| == |multiset(s.pool)|;
    }
    assert d[|s.displayed|..] == added;
    forall j | |s.displayed| <= j < |d| ensures d[j] in s.pool {
      assert d[j] in multiset(added);
    }
    s.(displayed := d)
  }

  /** The word a typed text selects: the lowest position whose word equals the
      trimmed text, or -1 when the text is blank or equals no displayed word. */
  function MatchAt(displayed: seq<string>, text: string): (i: int)
    ensures -1 <= i < |displayed|
    ensures 0 <= i <==> !IsBlank(text) && Trim(text) in displayed
    ensures 0 <= i ==> displayed[i] == Trim(text) && displayed[i] != ""
    ensures 0 <= i ==> forall j :: 0 <= j < i ==> displayed[j] != Trim(text)
  {
    if IsBlank(text) then -1 else IndexOf(displayed, Trim(text))
  }

  /** `checkMatch`: on a hit, drop the matched word, count it, append the
      drawn word `pick` and clear the text; otherwise change nothing. */
  function CheckMatch(s: Session, text: string, pick: string): (r: Session)
    ensures MatchAt(s.displayed, text) < 0 ==> r == s
    ensures var i := MatchAt(s.displayed, text);
      0 <= i ==>
        && |r.displayed| == |s.displayed|
        && r.displayed[..i] == s.displayed[..i]
        && r.displayed[i..|s.displayed| - 1] == s.displayed[i + 1..]
        && r.displayed[|s.displayed| - 1] == pick
        && multiset(r.displayed) + multiset{s.displayed[i]} == multiset(s.displayed) + multiset{pick}
        && r.typedCount == s.typedCount + 1
        && r.text == ""
        && r.(displayed := s.displayed, typedCount := s.typedCount, text := s.text) == s
  {
    var i := MatchAt(s.displayed, text);
    if 0 <= i then
      var d := RemoveAt(s.displayed, i) + [pick];
      assert d[..i] == s.displayed[..i];
      assert d[i..|s.displayed| - 1] == s.displayed[i + 1..];
      s.(displayed := d, typedCount := s.typedCount + 1, text := "")
    else
      s
  }

  /** The input handler: store the new text, stamp the input time with `now`,
      then run the match check on the new text. */
  function Input(s: Session, text: string, now: int, pick: string): (r: Session)
    ensures r.lastTypedTime == now
    ensures MatchAt(s.displayed, text) < 0 ==> r == s.(text := text, lastTypedTime := now)
    ensures 0 <= MatchAt(s.displayed, text) ==>
      && r.text == ""
      && r.typedCount == s.typedCount + 1
      && r.displayed == CheckMatch(s, text, pick).displayed
      && r.(displayed := s.displayed, typedCount := s.typedCount, text := s.text, lastTypedTime := s.lastTypedTime) == s
  {
    CheckMatch(s.(text := text, lastTypedTime := now), text, pick)
  }

  /** The reshuffle guard, evaluated afresh at every tick from the current
      state and the clock reading `now`. */
  predicate ShouldReshuffle(s: Session, now: int) {
    var idleTime := now - s.lastTypedTime;
    s.text == "" && idleTime > IdleThresholdMs && |s.displayed| > 0
  }

  /** The body of the reshuffle loop: when the guard holds, slot `i` is
      overwritten with the draw `picks[i]`; otherwise nothing changes. */
  function IdleTick(s: Session, now: int, picks: seq<string>): (r: Session)
    requires ShouldReshuffle(s, now) ==> |picks| == |s.displayed|
    ensures !ShouldReshuffle(s, now) ==> r == s
    ensures |r.displayed| == |s.displayed|
    ensures ShouldReshuffle(s, now) ==> forall i :: 0 <= i < |r.displayed| ==> r.displayed[i] == picks[i]
    ensures r.(displayed := s.displayed) == s
  {
    if ShouldReshuffle(s, now) then s.(displayed := picks) else s
  }

  /** The clock loop body: record the new clock reading. */
  function ClockTick(s: Session, now: int): (r: Session)
    ensures r.currentTime == now
    ensures r.(currentTime := s.currentTime) == s
  {
    s.(currentTime := now)
  }
}
