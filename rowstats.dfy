/**
 * Seeders and leechers of a listing row: the texts of the row's bold
 * elements, trimmed, that consist of ASCII digits only are read as numbers,
 * and the last two of those are the seeders and the leechers.
 */
module RowStats {
  import opened Wrappers
  import opened Strings

  /** `/^\d+$/.test(x)` on the trimmed text. */
  predicate IsCount(t: string) {
    IsDigits(Trim(t))
  }

  /** The bold texts that are counts, as numbers, in row order. */
  function BoldNumbers(texts: seq<string>): seq<nat> {
    if texts == [] then []
    else
      var last := texts[|texts| - 1];
      var rest := BoldNumbers(texts[..|texts| - 1]);
      if IsCount(last) then rest + [DigitsValue(Trim(last))] else rest
  }

  datatype Peers = Peers(seeds: nat, leech: nat)

  /**
   * `seeds` and `leech`: both `null` unless at least two counts were found,
   * otherwise the values of the last two count texts of the row, in order.
   */
  function SeedsLeech(texts: seq<string>): (r: Option<Peers>)
    ensures r.None? <==> |BoldNumbers(texts)| < 2
    ensures r.Some? ==>
      exists i, j :: 0 <= i < j < |texts| && IsCount(texts[i]) && IsCount(texts[j])
        && (forall k :: i < k < |texts| && k != j ==> !IsCount(texts[k]))
        && r.value == Peers(DigitsValue(Trim(texts[i])), DigitsValue(Trim(texts[j])))
  {
    var nums := BoldNumbers(texts);
    if |nums| >= 2 then
      LastTwoCounts(texts);
      Some(Peers(nums[|nums| - 2], nums[|nums| - 1]))
    else None
  }

  /** The position of the row's last count text, or -1 when it has none. */
  function LastCountIndex(texts: seq<string>): (j: int)
    ensures -1 <= j < |texts|
  {
    if texts == [] then -1
    else if IsCount(texts[|texts| - 1]) then |texts| - 1
    else LastCountIndex(texts[..|texts| - 1])
  }

  /** The last number comes from the last count text of the row. */
  lemma {:induction false} LastCount(texts: seq<string>)
    requires BoldNumbers(texts) != []
    ensures var j := LastCountIndex(texts);
            && 0 <= j && IsCount(texts[j])
            && (forall k :: j < k < |texts| ==> !IsCount(texts[k]))
            && BoldNumbers(texts) == BoldNumbers(texts[..j]) + [DigitsValue(Trim(texts[j]))]
  {
    var n := |texts|;
    var init := texts[..n - 1];
    if !IsCount(texts[n - 1]) {
      LastCount(init);
      var j := LastCountIndex(init);
      assert init[..j] == texts[..j];
      assert forall k :: j < k < n ==> !IsCount(texts[k]) by {
        forall k | j < k < n ensures !IsCount(texts[k]) {
          if k < n - 1 {
            assert texts[k] == init[k];
          }
        }
      }
    }
  }

  /** The last two numbers come from the last two count texts of the row. */
  lemma {:induction false} LastTwoCounts(texts: seq<string>)
    requires |BoldNumbers(texts)| >= 2
    ensures var nums := BoldNumbers(texts);
      exists i, j :: 0 <= i < j < |texts| && IsCount(texts[i]) && IsCount(texts[j])
        && (forall k :: i < k < |texts| && k != j ==> !IsCount(texts[k]))
        && nums[|nums| - 2] == DigitsValue(Trim(texts[i]))
        && nums[|nums| - 1] == DigitsValue(Trim(texts[j]))
  {
    var nums := BoldNumbers(texts);
    LastCount(texts);
    var j := LastCountIndex(texts);
    var front := texts[..j];
    assert BoldNumbers(front) == nums[..|nums| - 1];
    LastCount(front);
    var i := LastCountIndex(front);
    assert texts[i] == front[i];
    assert nums[|nums| - 2] == DigitsValue(Trim(texts[i])) by {
      assert nums[|nums| - 2] == BoldNumbers(front)[|BoldNumbers(front)| - 1];
    }
    assert forall k :: i < k < |texts| && k != j ==> !IsCount(texts[k]) by {
      forall k | i < k < |texts| && k != j ensures !IsCount(texts[k]) {
        if k < j {
          assert texts[k] == front[k];
        }
      }
    }
    assert 0 <= i < j < |texts| && IsCount(texts[i]) && IsCount(texts[j]);
  }

  /** The numbers kept are exactly the count texts, in order. */
  lemma {:induction false} BoldNumbersAppend(a: seq<string>, b: seq<string>)
    ensures BoldNumbers(a + b) == BoldNumbers(a) + BoldNumbers(b)
    decreases |b|
  {
    if b == [] {
      assert a + b == a;
    } else {
      var b' := b[..|b| - 1];
      assert (a + b)[..|a + b| - 1] == a + b';
      BoldNumbersAppend(a, b');
    }
  }

  lemma BoldNumbersOne(t: string)
    ensures BoldNumbers([t]) == if IsCount(t) then [DigitsValue(Trim(t))] else []
  {
    assert [t][..0] == [];
  }

  /** How many numbers a row yields: never more than it has bold elements. */
  lemma {:induction false} BoldNumbersBound(texts: seq<string>)
    ensures |BoldNumbers(texts)| <= |texts|
  {
    if texts != [] {
      BoldNumbersBound(texts[..|texts| - 1]);
    }
  }

  /** A number printed in decimal reads back as a count of the same value. */
  lemma DecimalIsCount(n: nat)
    ensures IsCount(Decimal(n)) && DigitsValue(Trim(Decimal(n))) == n
  {
    var d := Decimal(n);
    assert !IsSpace(d[0]) && !IsSpace(d[|d| - 1]);
    TrimPadded([], d);
    assert [] + d == d;
  }

  /**
   * When the row's last two bold elements print the seeders and the
   * leechers, those are what the row reports, whatever precedes them.
   */
  lemma LastTwoAreRead(before: seq<string>, seeds: nat, leech: nat)
    ensures SeedsLeech(before + [Decimal(seeds), Decimal(leech)]) == Some(Peers(seeds, leech))
  {
    DecimalIsCount(seeds);
    DecimalIsCount(leech);
    BoldNumbersOne(Decimal(seeds));
    BoldNumbersOne(Decimal(leech));
    assert [Decimal(seeds), Decimal(leech)] == [Decimal(seeds)] + [Decimal(leech)];
    BoldNumbersAppend([Decimal(seeds)], [Decimal(leech)]);
    BoldNumbersAppend(before, [Decimal(seeds), Decimal(leech)]);
  }

  /** A bold text that is not a count does not move the pick, wherever it stands in the row. */
  lemma NonCountIgnored(before: seq<string>, t: string, after: seq<string>)
    requires !IsCount(t)
    ensures SeedsLeech(before + [t] + after) == SeedsLeech(before + after)
  {
    BoldNumbersOne(t);
    BoldNumbersAppend(before, [t]);
    BoldNumbersAppend(before + [t], after);
    BoldNumbersAppend(before, after);
  }

  /** Any two count texts in a row are enough for a pair to be reported. */
  lemma TwoCountsGivePair(texts: seq<string>, i: nat, j: nat)
    requires i < j < |texts| && IsCount(texts[i]) && IsCount(texts[j])
    ensures SeedsLeech(texts).Some?
  {
    var a, b, c := texts[..i], texts[i + 1..j], texts[j + 1..];
    assert texts == a + [texts[i]] + b + [texts[j]] + c;
    BoldNumbersOne(texts[i]);
    BoldNumbersOne(texts[j]);
    BoldNumbersAppend(a, [texts[i]]);
    BoldNumbersAppend(a + [texts[i]], b);
    BoldNumbersAppend(a + [texts[i]] + b, [texts[j]]);
    BoldNumbersAppend(a + [texts[i]] + b + [texts[j]], c);
  }

  /** Fewer than two bold elements never yield a pair. */
  lemma TooFewBold(texts: seq<string>)
    requires |texts| < 2
    ensures SeedsLeech(texts).None?
  {
    BoldNumbersBound(texts);
  }
}
