/** The list operations the word session uses on its displayed words:
    `indexOf`, `removeAt` and `take`, with Kotlin's conventions
    (`indexOf` answers -1 when the element is absent). */
module WordList {

  function Min(a: int, b: int): int {
    if a <= b then a else b
  }

  /** `indexOf`: the lowest position holding `x`, or -1 when there is none. */
  function IndexOf<T(==)>(xs: seq<T>, x: T): (r: int)
    ensures -1 <= r < |xs|
    ensures r == -1 <==> x !in xs
    ensures 0 <= r ==> xs[r] == x
    ensures 0 <= r ==> forall j :: 0 <= j < r ==> xs[j] != x
  {
    if |xs| == 0 then -1
    else if xs[0] == x then 0
    else
      var k := IndexOf(xs[1..], x);
      if k < 0 then -1 else k + 1
  }

  /** `removeAt`: the list without its element at `i`; every element before
      `i` stays where it was and every element after it moves down by one. */
  function RemoveAt<T>(xs: seq<T>, i: nat): (r: seq<T>)
    requires i < |xs|
    ensures |r| == |xs| - 1
    ensures forall j :: 0 <= j < i ==> r[j] == xs[j]
    ensures forall j :: i <= j < |r| ==> r[j] == xs[j + 1]
    ensures multiset(r) + multiset{xs[i]} == multiset(xs)
  {
    assert xs == xs[..i] + [xs[i]] + xs[i + 1..];
    xs[..i] + xs[i + 1..]
  }

  /** `take(n)`: the first `n` elements, or all of them when there are fewer;
      never more of any word than the list holds. */
  function Take<T>(xs: seq<T>, n: nat): (r: seq<T>)
    ensures |r| == Min(n, |xs|)
    ensures forall j :: 0 <= j < |r| ==> r[j] == xs[j]
    ensures multiset(r) <= multiset(xs)
  {
    var k := Min(n, |xs|);
    assert xs == xs[..k] + xs[k..];
    xs[..k]
  }
}
