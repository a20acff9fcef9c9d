/**
 * Numbers and labels the card grid and the floating panel are drawn from:
 * the `clamp` that keeps the panel on screen and the genre badges of a card
 * (the first three genres and a `+N` marker for the rest).
 */
module CardLayout {
  import opened Wrappers
  import opened Strings

  /** `Math.max(min, Math.min(max, n))`. */
  function Clamp(n: int, lo: int, hi: int): (r: int)
    ensures r >= lo
    ensures lo <= hi ==> r <= hi
    ensures lo <= n <= hi ==> r == n
    ensures n < lo ==> r == lo
    ensures lo <= hi < n ==> r == hi
    ensures hi < lo ==> r == lo
  {
    var m := if hi < n then hi else n;
    if lo < m then m else lo
  }

  function Max(a: int, b: int): (r: int)
    ensures r >= a && r >= b && (r == a || r == b)
  {
    if a < b then b else a
  }

  /** The panel is kept 8 pixels inside the window, or pinned at 8 when the window is too small for it. */
  function PanelOffset(pos: int, size: int, window: int): (r: int)
    ensures r >= 8
    ensures size + 16 <= window ==> r + size + 8 <= window
    ensures 8 <= pos && pos + size + 8 <= window ==> r == pos
  {
    Clamp(pos, 8, Max(8, window - size - 8))
  }

  /** Clamping is the nearest point of the interval: no point of it is closer to `n`. */
  lemma ClampNearest(n: int, lo: int, hi: int, p: int)
    requires lo <= p <= hi
    ensures var r := Clamp(n, lo, hi);
            (if r <= n then n - r else r - n) <= (if p <= n then n - p else p - n)
  {
  }

  /** Clamping twice is clamping once. */
  lemma ClampIdempotent(n: int, lo: int, hi: int)
    ensures Clamp(Clamp(n, lo, hi), lo, hi) == Clamp(n, lo, hi)
  {
  }

  /** The badges on a card: up to three genre names and the count of the rest. */
  datatype Badges = Badges(shown: seq<string>, more: Option<string>)

  /** `genres.slice(0, 3)` and `` `+${genres.length - 3}` `` when there are more than three. */
  function GenreBadges(genres: seq<string>): (b: Badges)
    ensures |b.shown| == if |genres| < 3 then |genres| else 3
    ensures b.shown == genres[..|b.shown|]
    ensures b.more.None? <==> |genres| <= 3
  {
    var shown := if |genres| < 3 then genres else genres[..3];
    var more := if |genres| > 3 then Some("+" + Decimal(|genres| - 3)) else None;
    Badges(shown, more)
  }

  /** The number a `+N` marker spells, or 0 without a marker. */
  function MoreCount(more: Option<string>): nat {
    if more.Some? && |more.value| >= 2 && more.value[0] == '+' && IsDigits(more.value[1..])
    then DigitsValue(more.value[1..])
    else 0
  }

  /** Nothing is lost: the badges shown and the number in the marker add up to every genre of the row. */
  lemma BadgesAccountForAll(genres: seq<string>)
    ensures var b := GenreBadges(genres);
            |b.shown| + MoreCount(b.more) == |genres|
  {
    var b := GenreBadges(genres);
    if |genres| > 3 {
      var d := Decimal(|genres| - 3);
      assert b.more.value[1..] == d;
    }
  }

  /** The marker is written without leading zeros, so it never reads `+0`. */
  lemma MarkerNeverZero(genres: seq<string>)
    requires |genres| > 3
    ensures var m := GenreBadges(genres).more.value;
            m[0] == '+' && m[1] != '0'
  {
    var d := Decimal(|genres| - 3);
    assert GenreBadges(genres).more.value == "+" + d;
  }
}
