/**
 * Genre handling of the userscript: finding a row's genre text, parsing it
 * into genre names, the filter predicate that decides a row's visibility,
 * the pass that applies it to every row, and the scan that collects the
 * sorted list of all genres on the page.
 *
 * A listing row is modelled by the texts of its `font.small` elements, in
 * document order; a row's visibility (`style.display` and
 * `data-fl-visible`) by one boolean.
 */
module Genres {
  import opened Wrappers
  import opened Strings

  // ---------------------------------------------------------------------------
  // findGenreFont
  // ---------------------------------------------------------------------------

  predicate HasBrackets(text: string) {
    '[' in text && ']' in text
  }

  /** The first small-font text that holds both `[` and `]`, if any. */
  function FindGenreFont(fonts: seq<string>): (r: Option<string>)
    ensures r.None? <==> forall k :: 0 <= k < |fonts| ==> !HasBrackets(fonts[k])
    ensures r.Some? ==> exists i :: 0 <= i < |fonts| && fonts[i] == r.value && HasBrackets(fonts[i])
                                    && forall k :: 0 <= k < i ==> !HasBrackets(fonts[k])
  {
    if fonts == [] then None
    else if HasBrackets(fonts[0]) then Some(fonts[0])
    else
      var r := FindGenreFont(fonts[1..]);
      assert forall k :: 1 <= k < |fonts| ==> fonts[k] == fonts[1..][k - 1];
      r
  }

  // ---------------------------------------------------------------------------
  // extractGenres
  // ---------------------------------------------------------------------------

  /** `replace(/[\[\]]/g, '')`: every bracket removed, every other character kept. */
  function RemoveBrackets(s: string): (r: string)
    ensures '[' !in r && ']' !in r
    ensures forall c :: c != '[' && c != ']' ==> (c in r <==> c in s)
  {
    if s == [] then []
    else
      var rest := RemoveBrackets(s[1..]);
      assert forall c :: c in s <==> c == s[0] || c in s[1..];
      if s[0] == '[' || s[0] == ']' then rest else [s[0]] + rest
  }

  /** No character that the parser uses as markup. */
  predicate NoMarkup(s: string) {
    '[' !in s && ']' !in s && ',' !in s
  }

  /** What a parsed genre looks like: non-empty, trimmed, no markup character. */
  predicate WellFormedGenre(g: string) {
    g != [] && Trimmed(g) && NoMarkup(g)
  }

  /** `.map(g => g.trim()).filter(Boolean)`. */
  function TrimAndDropEmpty(pieces: seq<string>): seq<string> {
    if pieces == [] then []
    else
      var g := Trim(pieces[0]);
      (if g == [] then [] else [g]) + TrimAndDropEmpty(pieces[1..])
  }

  /**
   * What survives trimming and dropping is non-empty and trimmed, and holds
   * no markup character when no piece did.
   */
  lemma {:induction false} CleanPieces(pieces: seq<string>)
    ensures forall g :: g in TrimAndDropEmpty(pieces) ==> g != [] && Trimmed(g)
    ensures (forall p :: p in pieces ==> NoMarkup(p)) ==> forall g :: g in TrimAndDropEmpty(pieces) ==> NoMarkup(g)
  {
    if pieces != [] {
      var p := pieces[0];
      assert p in pieces;
      TrimSlice(p);
      TrimKeepsOut(p, '[');
      TrimKeepsOut(p, ']');
      TrimKeepsOut(p, ',');
      assert forall q :: q in pieces[1..] ==> q in pieces;
      CleanPieces(pieces[1..]);
    }
  }

  /** No piece of a split has a character that the string does not have. */
  lemma {:induction false} SplitKeepsOut(s: string, sep: char, c: char)
    requires c !in s
    ensures forall p :: p in Split(s, sep) ==> c !in p
  {
    if s != [] {
      SplitKeepsOut(s[1..], sep, c);
    }
  }

  /**
   * `extractGenres(text)`: the genre names of a genre text such as
   * `[Action, Comedy]` (a missing text is the empty string).
   */
  function ExtractGenres(text: string): seq<string> {
    TrimAndDropEmpty(Split(RemoveBrackets(text), ','))
  }

  /** Every parsed genre is non-empty, trimmed and free of `[`, `]` and `,`. */
  lemma ExtractedWellFormed(text: string)
    ensures forall g :: g in ExtractGenres(text) ==> WellFormedGenre(g)
  {
    var stripped := RemoveBrackets(text);
    SplitKeepsOut(stripped, ',', '[');
    SplitKeepsOut(stripped, ',', ']');
    CleanPieces(Split(stripped, ','));
  }

  /** The genres of a row: those of its genre text, none when it has no genre text. */
  function RowGenres(fonts: seq<string>): seq<string> {
    match FindGenreFont(fonts)
    case None => []
    case Some(text) => ExtractGenres(text)
  }

  // --- Round trip with the site's rendering ---------------------------------

  /** A genre text of the form `[g1, g2, ...]`. */
  function RenderGenres(genres: seq<string>): string {
    "[" + Join(genres, ", ") + "]"
  }

  lemma {:induction false} RemoveBracketsConcat(a: string, b: string)
    ensures RemoveBrackets(a + b) == RemoveBrackets(a) + RemoveBrackets(b)
  {
    if a != [] {
      assert (a + b)[1..] == a[1..] + b;
      RemoveBracketsConcat(a[1..], b);
    } else {
      assert a + b == b;
    }
  }

  lemma {:induction false} RemoveBracketsNone(s: string)
    requires '[' !in s && ']' !in s
    ensures RemoveBrackets(s) == s
  {
    if s != [] {
      assert s[0] in s;
      RemoveBracketsNone(s[1..]);
      assert [s[0]] + s[1..] == s;
    }
  }

  lemma {:induction false} JoinKeepsOut(parts: seq<string>, sep: string, c: char)
    requires c !in sep
    requires forall k :: 0 <= k < |parts| ==> c !in parts[k]
    ensures c !in Join(parts, sep)
  {
    if |parts| > 1 {
      JoinKeepsOut(parts[1..], sep, c);
    }
  }

  /** Splitting and cleaning `pad + "g1, g2, ..."` gives back the genres. */
  lemma {:induction false} CleanJoined(pad: string, genres: seq<string>)
    requires AllSpace(pad) && ',' !in pad
    requires |genres| >= 1
    requires forall k :: 0 <= k < |genres| ==> WellFormedGenre(genres[k])
    ensures TrimAndDropEmpty(Split(pad + Join(genres, ", "), ',')) == genres
    decreases |genres|
  {
    if |genres| == 1 {
      assert genres == [genres[0]];
      CleanSingle(pad, genres[0]);
    } else {
      var more := genres[1..];
      assert AllSpace(" ") && ',' !in " ";
      assert forall k :: 0 <= k < |more| ==> WellFormedGenre(more[k]) by {
        forall k | 0 <= k < |more| ensures WellFormedGenre(more[k]) {
          assert more[k] == genres[k + 1];
        }
      }
      CleanJoined(" ", more);
      assert TrimAndDropEmpty(Split(pad + Join(genres, ", "), ',')) == [genres[0]] + more by {
        CleanStep(pad, genres);
      }
      assert [genres[0]] + more == genres;
    }
  }

  lemma CleanSingle(pad: string, g: string)
    requires AllSpace(pad) && ',' !in pad && WellFormedGenre(g)
    ensures TrimAndDropEmpty(Split(pad + Join([g], ", "), ',')) == [g]
  {
    TrimPadded(pad, g);
    assert ',' !in pad + g;
    SplitNone(pad + g, ',');
    assert TrimAndDropEmpty([pad + g]) == [Trim(pad + g)] + TrimAndDropEmpty([pad + g][1..]);
  }

  /** The first genre splits off, and the rest starts with the blank after its comma. */
  lemma CleanStep(pad: string, genres: seq<string>)
    requires AllSpace(pad) && ',' !in pad
    requires |genres| >= 2 && WellFormedGenre(genres[0])
    ensures TrimAndDropEmpty(Split(pad + Join(genres, ", "), ','))
            == [genres[0]] + TrimAndDropEmpty(Split(" " + Join(genres[1..], ", "), ','))
  {
    var g := genres[0];
    var tail := Join(genres[1..], ", ");
    var rest := Split(" " + tail, ',');
    assert Split(pad + Join(genres, ", "), ',') == [pad + g] + rest by {
      assert pad + Join(genres, ", ") == (pad + g) + [','] + (" " + tail);
      assert ',' !in pad + g;
      SplitCons(pad + g, ',', " " + tail);
    }
    assert Trim(pad + g) == g by {
      TrimPadded(pad, g);
    }
    assert ([pad + g] + rest)[1..] == rest;
  }

  /** Parsing the site's rendering of well-formed genres gives back exactly those genres. */
  lemma ExtractRendered(genres: seq<string>)
    requires forall k :: 0 <= k < |genres| ==> WellFormedGenre(genres[k])
    ensures ExtractGenres(RenderGenres(genres)) == genres
  {
    var joined := Join(genres, ", ");
    JoinKeepsOut(genres, ", ", '[');
    JoinKeepsOut(genres, ", ", ']');
    RemoveBracketsConcat("[" + joined, "]");
    RemoveBracketsConcat("[", joined);
    RemoveBracketsNone(joined);
    assert RemoveBrackets(RenderGenres(genres)) == joined;
    if genres == [] {
      ExtractEmpty();
      assert RenderGenres(genres) == "[]";
    } else {
      CleanJoined("", genres);
      assert "" + joined == joined;
    }
  }

  /** A missing or empty genre text has no genres. */
  lemma ExtractEmpty()
    ensures ExtractGenres("") == []
  {
    assert RemoveBrackets("") == "";
    assert Split("", ',') == [[]];
    assert Trim("") == "";
    assert TrimAndDropEmpty([""]) == [];
  }

  // ---------------------------------------------------------------------------
  // The filter predicate and applyFilter
  // ---------------------------------------------------------------------------

  /** `genres.some(g => selected[g])`. */
  function AnySelected(genres: seq<string>, selected: set<string>): (b: bool)
    ensures b <==> exists k :: 0 <= k < |genres| && genres[k] in selected
  {
    if genres == [] then false
    else if genres[0] in selected then true
    else
      var b := AnySelected(genres[1..], selected);
      assert forall k :: 1 <= k < |genres| ==> genres[k] == genres[1..][k - 1];
      b
  }

  /**
   * Whether a row with these genres is shown: with no genre selected every
   * row is, otherwise exactly the rows with at least one selected genre.
   */
  function Shown(genres: seq<string>, selected: set<string>): (show: bool)
    ensures selected == {} ==> show
    ensures selected != {} ==> (show <==> exists k :: 0 <= k < |genres| && genres[k] in selected)
  {
    selected == {} || AnySelected(genres, selected)
  }

  /** Selecting more genres, starting from a non-empty selection, never hides a shown row. */
  lemma SelectMoreKeepsShown(genres: seq<string>, selected: set<string>, more: set<string>)
    requires selected != {} && selected <= more
    requires Shown(genres, selected)
    ensures Shown(genres, more)
  {
    var k :| 0 <= k < |genres| && genres[k] in selected;
    assert genres[k] in more;
  }

  /** Under a non-empty selection, a row without genres is hidden. */
  lemma NoGenresHidden(selected: set<string>)
    requires selected != {}
    ensures !Shown([], selected)
  {
  }

  /** The visibility `applyFilter` gives a row: rows without a genre text keep theirs. */
  function RowVisibility(fonts: seq<string>, selected: set<string>, was: bool): bool {
    match FindGenreFont(fonts)
    case None => was
    case Some(text) => Shown(ExtractGenres(text), selected)
  }

  /** `applyFilter(selected)` over the rows of the page. */
  method ApplyFilter(rows: seq<seq<string>>, visible: array<bool>, selected: set<string>)
    requires visible.Length == |rows|
    modifies visible
    ensures forall i :: 0 <= i < |rows| ==> visible[i] == RowVisibility(rows[i], selected, old(visible[i]))
  {
    var hasSelection := selected != {};
    var i := 0;
    while i < |rows|
      invariant 0 <= i <= |rows|
      invariant forall k :: 0 <= k < i ==> visible[k] == RowVisibility(rows[k], selected, old(visible[k]))
      invariant forall k :: i <= k < |rows| ==> visible[k] == old(visible[k])
    {
      var font := FindGenreFont(rows[i]);
      if font.Some? {
        var genres := ExtractGenres(font.value);
        var show := !hasSelection || AnySelected(genres, selected);
        visible[i] := show;
      }
      i := i + 1;
    }
  }

  // ---------------------------------------------------------------------------
  // scanGenres
  // ---------------------------------------------------------------------------

  /** Every genre of every row. */
  function GenresOfRows(rows: seq<seq<string>>): set<string> {
    if rows == [] then {}
    else GenresOfRows(rows[..|rows| - 1]) + Elements(RowGenres(rows[|rows| - 1]))
  }

  function Elements(s: seq<string>): set<string> {
    set g | g in s
  }

  predicate Distinct(s: seq<string>) {
    forall i, j :: 0 <= i < j < |s| ==> s[i] != s[j]
  }

  /** Sorted in increasing order, hence also without duplicates. */
  predicate StrictlySorted(s: seq<string>) {
    forall i, j :: 0 <= i < j < |s| ==> Less(s[i], s[j])
  }

  lemma {:induction false} BelowAll(x: string, s: seq<string>)
    requires StrictlySorted(s) && s != [] && Less(x, s[0])
    ensures forall j :: 0 <= j < |s| ==> Less(x, s[j])
  {
    forall j | 0 < j < |s| {
      LessTransitive(x, s[0], s[j]);
    }
  }

  /** Inserts `x` in front of the first element that is not below it. */
  function Insert(x: string, s: seq<string>): seq<string> {
    if s == [] || Less(x, s[0]) then [x] + s
    else [s[0]] + Insert(x, s[1..])
  }

  /** Inserting a new string into a sorted sequence keeps it sorted and adds just that string. */
  lemma {:induction false} InsertSorted(x: string, s: seq<string>)
    requires StrictlySorted(s) && x !in s
    ensures StrictlySorted(Insert(x, s))
    ensures multiset(Insert(x, s)) == multiset(s) + multiset{x}
  {
    if s == [] {
    } else if Less(x, s[0]) {
      BelowAll(x, s);
    } else {
      assert s[0] in s;
      LessTotal(x, s[0]);
      assert s == [s[0]] + s[1..];
      assert x !in s[1..];
      InsertSorted(x, s[1..]);
      ConsSorted(x, s, Insert(x, s[1..]));
    }
  }

  /**
   * A strictly sorted sequence is fixed by its elements: two of them holding
   * the same genres are equal, so the list `scanGenres` returns is the only
   * sorted list of the page's genres.
   */
  lemma {:induction false} SortedUnique(s: seq<string>, t: seq<string>)
    requires StrictlySorted(s) && StrictlySorted(t)
    requires forall g :: g in s <==> g in t
    ensures s == t
    decreases |s|
  {
    assert s == [] <==> t == [] by {
      if s != [] {
        assert s[0] in s;
      }
      if t != [] {
        assert t[0] in t;
      }
    }
    if s != [] {
      assert s[0] in t && t[0] in s;
      if s[0] != t[0] {
        var i :| 0 <= i < |t| && t[i] == s[0];
        var j :| 0 <= j < |s| && s[j] == t[0];
        assert Less(t[0], s[0]) && Less(s[0], t[0]);
        LessAsymmetric(t[0], s[0]);
      }
      forall g
        ensures g in s[1..] <==> g in t[1..]
      {
        if g in s[1..] {
          var k :| 0 <= k < |s[1..]| && s[1..][k] == g;
          assert Less(s[0], s[k + 1]);
          LessIrreflexive(g);
        }
        if g in t[1..] {
          var k :| 0 <= k < |t[1..]| && t[1..][k] == g;
          assert Less(t[0], t[k + 1]);
          LessIrreflexive(g);
        }
        assert g in s <==> g == s[0] || g in s[1..];
        assert g in t <==> g == t[0] || g in t[1..];
      }
      SortedUnique(s[1..], t[1..]);
      assert s == [s[0]] + s[1..] && t == [t[0]] + t[1..];
    }
  }

  /** The head of a sorted sequence stays in front of a sorted re-arrangement of its tail plus a larger `x`. */
  lemma ConsSorted(x: string, s: seq<string>, t: seq<string>)
    requires StrictlySorted(s) && s != [] && Less(s[0], x)
    requires StrictlySorted(t) && multiset(t) == multiset(s[1..]) + multiset{x}
    ensures StrictlySorted([s[0]] + t)
  {
    forall j | 0 <= j < |t|
      ensures Less(s[0], t[j])
    {
      assert t[j] in multiset(t);
      if t[j] != x {
        assert t[j] in multiset(s[1..]);
        var m :| 0 <= m < |s[1..]| && s[1..][m] == t[j];
        assert s[m + 1] == t[j];
      }
    }
    var r := [s[0]] + t;
    forall i, j | 0 <= i < j < |r|
      ensures Less(r[i], r[j])
    {
      if i > 0 {
        assert r[i] == t[i - 1] && r[j] == t[j - 1];
      }
    }
  }

  /** Sorts a sequence of distinct strings. */
  function SortDistinct(s: seq<string>): (r: seq<string>)
    requires Distinct(s)
    ensures StrictlySorted(r)
    ensures multiset(r) == multiset(s)
  {
    if s == [] then []
    else
      assert s == [s[0]] + s[1..];
      var sorted := SortDistinct(s[1..]);
      assert s[0] !in multiset(s[1..]);
      InsertSorted(s[0], sorted);
      Insert(s[0], sorted)
  }

  lemma ElementsSnoc(s: seq<string>, x: string)
    ensures Elements(s + [x]) == Elements(s) + {x}
  {
    assert forall g :: g in s + [x] <==> g in s || g == x;
  }

  /**
   * `forEach(g => set.add(g))` on a `Set`, kept as a sequence in insertion
   * order: the genres already there keep their places, and each new genre
   * is added once, after them.
   */
  method AddAll(seen: seq<string>, genres: seq<string>) returns (result: seq<string>)
    requires Distinct(seen)
    ensures Distinct(result)
    ensures |seen| <= |result| && result[..|seen|] == seen
    ensures Elements(result) == Elements(seen) + Elements(genres)
  {
    result := seen;
    var j := 0;
    while j < |genres|
      invariant 0 <= j <= |genres|
      invariant Distinct(result)
      invariant |seen| <= |result| && result[..|seen|] == seen
      invariant Elements(result) == Elements(seen) + Elements(genres[..j])
    {
      var g := genres[j];
      if g !in result {
        ElementsSnoc(result, g);
        result := result + [g];
      }
      ElementsSnoc(genres[..j], g);
      assert genres[..j + 1] == genres[..j] + [g];
      j := j + 1;
    }
    assert genres[..j] == genres;
  }

  /**
   * `scanGenres()`: every genre found on the page, each once, in increasing
   * order.
   */
  method ScanGenres(rows: seq<seq<string>>) returns (genres: seq<string>)
    ensures StrictlySorted(genres)
    ensures forall g :: g in genres <==> g in GenresOfRows(rows)
  {
    var seen: seq<string> := [];  // the Set, in insertion order
    var i := 0;
    while i < |rows|
      invariant 0 <= i <= |rows|
      invariant Distinct(seen)
      invariant Elements(seen) == GenresOfRows(rows[..i])
    {
      seen := AddAll(seen, RowGenres(rows[i]));
      assert rows[..i + 1][..i] == rows[..i];
      i := i + 1;
    }
    assert rows[..i] == rows;
    genres := SortDistinct(seen);
    assert forall g :: g in genres <==> g in multiset(seen);
  }
}
