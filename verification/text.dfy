/** Whitespace classification, blank test and trimming of the typed text,
    as used by the match check (`isBlank()` and `trim()` of Kotlin strings). */
module Text {

  /** The character classes Kotlin's `Char.isWhitespace` accepts: the ASCII
      control separators and the Unicode space, line and paragraph separators.
      Nothing proved below depends on which characters are in this table. */
  predicate IsWhitespace(c: char) {
    || c == ' ' || c == '\t' || c == '\n' || c == '\r'
    || c == '\U{000B}' || c == '\U{000C}'
    || ('\U{001C}' <= c <= '\U{001F}')
    || c == '\U{00A0}' || c == '\U{1680}'
    || ('\U{2000}' <= c <= '\U{200A}')
    || c == '\U{2028}' || c == '\U{2029}' || c == '\U{202F}'
    || c == '\U{205F}' || c == '\U{3000}'
  }

  /** `isBlank()`: empty, or made of whitespace only, checked one character
      at a time from the front. */
  predicate IsBlank(s: string)
    ensures IsBlank(s) <==> forall i :: 0 <= i < |s| ==> IsWhitespace(s[i])
  {
    |s| == 0 || (IsWhitespace(s[0]) && IsBlank(s[1..]))
  }

  /** Number of whitespace characters at the front of `s`. */
  function LeadingSpace(s: string): (k: nat)
    ensures k <= |s|
    ensures forall i :: 0 <= i < k ==> IsWhitespace(s[i])
    ensures k < |s| ==> !IsWhitespace(s[k])
  {
    if |s| == 0 || !IsWhitespace(s[0]) then 0 else 1 + LeadingSpace(s[1..])
  }

  /** Number of whitespace characters at the back of `s`. */
  function TrailingSpace(s: string): (k: nat)
    ensures k <= |s|
    ensures forall i :: |s| - k <= i < |s| ==> IsWhitespace(s[i])
    ensures k < |s| ==> !IsWhitespace(s[|s| - 1 - k])
  {
    if |s| == 0 || !IsWhitespace(s[|s| - 1]) then 0
    else 1 + TrailingSpace(s[..|s| - 1])
  }

  /** `r` sits in `s` at offset `a`, with only whitespace on either side of it. */
  ghost predicate TrimmedAt(s: string, r: string, a: int) {
    && 0 <= a && a + |r| <= |s|
    && s[a..a + |r|] == r
    && (forall i :: 0 <= i < a ==> IsWhitespace(s[i]))
    && (forall i :: a + |r| <= i < |s| ==> IsWhitespace(s[i]))
  }

  /** Neither end of `r` is whitespace. */
  predicate Tight(r: string) {
    r == "" || (!IsWhitespace(r[0]) && !IsWhitespace(r[|r| - 1]))
  }

  /** `trim()`: drop the leading and the trailing whitespace; what is between
      (inner whitespace included) is kept as it is. */
  function Trim(s: string): (r: string)
    ensures IsBlank(s) <==> r == ""
    ensures Tight(r)
    ensures exists a :: TrimmedAt(s, r, a)
  {
    var a := LeadingSpace(s);
    if a == |s| then
      assert TrimmedAt(s, "", a);
      ""
    else
      var b := |s| - TrailingSpace(s);
      assert a < b;
      var r := s[a..b];
      assert TrimmedAt(s, r, a);
      r
  }

  /** The description of `Trim` pins it down: any whitespace-free-ended
      infix of `s` with only whitespace around it is `Trim(s)`. */
  lemma TrimCharacterized(s: string, r: string, a: int)
    requires TrimmedAt(s, r, a) && Tight(r)
    ensures r == Trim(s)
  {
    var t := Trim(s);
    var c :| TrimmedAt(s, t, c);
    if r == "" {
      assert IsBlank(s) by {
        forall i | 0 <= i < |s| ensures IsWhitespace(s[i]) {
          if i >= a { assert a + |r| <= i; }
        }
      }
    } else {
      assert s[a] == r[0] && s[a + |r| - 1] == r[|r| - 1];
      assert !IsWhitespace(s[a]) && !IsWhitespace(s[a + |r| - 1]);
      assert t != "";
      assert s[c] == t[0] && s[c + |t| - 1] == t[|t| - 1];
      assert !IsWhitespace(s[c]) && !IsWhitespace(s[c + |t| - 1]);
      // both offsets are the first non-whitespace position of `s`, and both
      // ends the last one
      assert a == c;
      assert a + |r| == c + |t|;
      assert r == s[a..a + |r|] == s[c..c + |t|] == t;
    }
  }

  /** Trimming twice is trimming once. */
  lemma TrimIdempotent(s: string)
    ensures Trim(Trim(s)) == Trim(s)
  {
    var t := Trim(s);
    assert t[0..0 + |t|] == t;
    TrimCharacterized(t, t, 0);
  }
}
