/** Properties of the word session that relate several transitions, or a
    transition and the state it leaves behind. */
module SessionProps {
  import opened Text
  import opened WordList
  import opened WordSession
  import opened SessionTrace

  /** The initial fill shows `min(5, |pool|)` words, the front of the
      shuffled pool: each one a pool word, and no word more often than the
      pool holds it. Nothing is typed or counted yet. */
  lemma InitialFill(pool: seq<string>, t0: int, t1: int, t2: int, shuffled: seq<string>)
    requires multiset(shuffled) == multiset(pool)
    ensures var s := Populate(Start(pool, t0, t1, t2), shuffled);
      && Inv(s)
      && |s.displayed| == Min(InitialWordCount, |pool|)
      && s.displayed == shuffled[..|s.displayed|]
      && multiset(s.displayed) <= multiset(pool)
      && s.typedCount == 0 && s.text == ""
  {
    var s := Populate(Start(pool, t0, t1, t2), shuffled);
    assert s.displayed[0..] == s.displayed;
  }

  /** Handling the same non-matching text twice is handling it once: only the
      input timestamp moves, and the draws offered are never used. */
  lemma NonMatchRepeatIsNoOp(s: Session, text: string, t1: int, t2: int, p1: string, p2: string)
    requires MatchAt(s.displayed, text) < 0
    ensures CheckMatch(CheckMatch(s, text, p1), text, p2) == s
    ensures Input(Input(s, text, t1, p1), text, t2, p2) == Input(s, text, t2, p2)
    ensures Input(s, text, t2, p2) == s.(text := text, lastTypedTime := t2)
  {
  }

  /** A typed word removes only its first occurrence: any later copy of the
      same word stays on display, one position earlier. */
  lemma OnlyFirstCopyRemoved(s: Session, text: string, pick: string, j: int)
    requires var i := MatchAt(s.displayed, text);
      0 <= i < j < |s.displayed| && s.displayed[j] == Trim(text)
    ensures CheckMatch(s, text, pick).displayed[j - 1] == Trim(text)
  {
    var i := MatchAt(s.displayed, text);
    var d := CheckMatch(s, text, pick).displayed;
    assert d[i..|s.displayed| - 1][j - 1 - i] == d[j - 1];
    assert s.displayed[i + 1..][j - 1 - i] == s.displayed[j];
  }

  /** In a session whose words come from the pool, a word is drawn from the
      pool only when the pool has words, so `random()` is never asked to pick
      from an empty list. */
  lemma DrawsNeedWords(s: Session, text: string, now: int)
    requires Inv(s)
    ensures 0 <= MatchAt(s.displayed, text) ==> |s.pool| > 0
    ensures ShouldReshuffle(s, now) ==> |s.pool| > 0
  {
    if 0 <= MatchAt(s.displayed, text) || ShouldReshuffle(s, now) {
      assert s.displayed[0] in s.pool;
    }
  }

  /** The guard keeps no memory of having fired: a session that was just
      reshuffled is reshuffled again at every later tick until the user types. */
  lemma ReshuffleIsLevelTriggered(s: Session, now: int, later: int, picks: seq<string>)
    requires ShouldReshuffle(s, now) && |picks| == |s.displayed| && now <= later
    ensures ShouldReshuffle(IdleTick(s, now, picks), later)
  {
  }

  /** The guard is strict: an idle time of exactly the threshold does not
      reshuffle, one millisecond more does. */
  lemma ReshuffleThresholdIsStrict(s: Session, picks: seq<string>)
    requires s.text == "" && |s.displayed| > 0 && |picks| == |s.displayed|
    ensures IdleTick(s, s.lastTypedTime + IdleThresholdMs, picks) == s
    ensures IdleTick(s, s.lastTypedTime + IdleThresholdMs + 1, picks).displayed == picks
  {
    var r := IdleTick(s, s.lastTypedTime + IdleThresholdMs + 1, picks);
    assert forall i :: 0 <= i < |picks| ==> r.displayed[i] == picks[i];
  }

  /** A typed word clears the field and stamps the input time, so the words
      are reshuffled at a later tick exactly when more than the threshold has
      passed since the keystroke. */
  lemma MatchRearmsReshuffle(s: Session, text: string, now: int, pick: string, later: int)
    requires 0 <= MatchAt(s.displayed, text)
    ensures ShouldReshuffle(Input(s, text, now, pick), later) <==> later - now > IdleThresholdMs
  {
  }

  /** The guard tests for an empty field, not a blank one: whitespace left in
      the field never matches a word, yet it stops every reshuffle. */
  lemma WhitespaceBlocksReshuffle(s: Session, text: string, now: int, pick: string, later: int)
    requires IsBlank(text) && text != ""
    ensures Input(s, text, now, pick).displayed == s.displayed
    ensures !ShouldReshuffle(Input(s, text, now, pick), later)
  {
  }

  /** After the initial fill, any interleaving of keystrokes and timer ticks
      keeps the same number of words on display, all of them pool words, and
      counts at most one word per event. */
  lemma SessionInvariant(pool: seq<string>, t0: int, t1: int, t2: int, shuffled: seq<string>, es: seq<Event>)
    requires multiset(shuffled) == multiset(pool)
    requires AllDrawnFrom(pool, Min(InitialWordCount, |pool|), es)
    ensures var s := Populate(Start(pool, t0, t1, t2), shuffled);
      var r := Run(s, es);
      && Inv(r)
      && |r.displayed| == Min(InitialWordCount, |pool|)
      && r.typedCount <= |es|
      && r.startTime == t0
  {
    InitialFill(pool, t0, t1, t2, shuffled);
  }

  /** The worked match: " cat " typed over ["cat", "dog", "sun"] selects
      "cat" at position 0, counts one word and clears the field. */
  lemma CatScenario(pool: seq<string>, now: int, pick: string)
    ensures var s := Session(pool, ["cat", "dog", "sun"], 0, "", 0, 0, 0);
      var r := Input(s, " cat ", now, pick);
      && MatchAt(s.displayed, " cat ") == 0
      && r.displayed == ["dog", "sun", pick]
      && r.typedCount == 1
      && r.text == ""
  {
    var d := ["cat", "dog", "sun"];
    CatSelected(d);
    HitAtFront(Session(pool, d, 0, "", 0, 0, 0), " cat ", now, pick);
  }

  /** A hit at the front of a three-word list leaves the other two words, then the draw. */
  lemma HitAtFront(s: Session, text: string, now: int, pick: string)
    requires |s.displayed| == 3 && MatchAt(s.displayed, text) == 0
    ensures Input(s, text, now, pick).displayed == [s.displayed[1], s.displayed[2], pick]
  {
    var d := CheckMatch(s, text, pick).displayed;
    assert d[0..2] == s.displayed[1..];
    assert d[0] == s.displayed[1] && d[1] == s.displayed[2] && d[2] == pick;
  }

  /** " cat " trims to "cat", which the list holds first at position 0. */
  lemma CatSelected(d: seq<string>)
    requires d == ["cat", "dog", "sun"]
    ensures MatchAt(d, " cat ") == 0
  {
    var t := " cat ";
    assert t[1..1 + 3] == "cat";
    assert TrimmedAt(t, "cat", 1);
    TrimCharacterized(t, "cat", 1);
    assert !IsBlank(t) by { assert !IsWhitespace(t[1]); }
    assert Trim(t) == d[0];
  }
}
