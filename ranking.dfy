/** `process_rank_data`: pandas' `rank(method="min", na_option="keep")`
    over a numeric column, turned into English ordinals by `get_ordinal`. */
module Ranking {
  import opened Common
  import opened Tables

  // -------------------------------------------------------------- ordinals

  /** `get_ordinal(n)` for a present rank. */
  function Ordinal(n: nat): string
  {
    if 11 <= n % 100 <= 13 then NatToString(n) + "th"
    else NatToString(n) + (if n % 10 == 1 then "st" else if n % 10 == 2 then "nd" else if n % 10 == 3 then "rd" else "th")
  }

  /** The English rule read off the written number: "th" after a tens digit
      of 1 (eleventh, twelfth, thirteenth, ... nineteenth), otherwise "st",
      "nd" and "rd" after a last digit 1, 2 and 3, and "th" after any other. */
  function EnglishSuffix(digits: string): string
    requires |digits| >= 1
  {
    if |digits| >= 2 && digits[|digits| - 2] == '1' then "th"
    else if digits[|digits| - 1] == '1' then "st"
    else if digits[|digits| - 1] == '2' then "nd"
    else if digits[|digits| - 1] == '3' then "rd"
    else "th"
  }

  lemma {:induction false} LastDigits(n: nat)
    ensures var s := NatToString(n); s[|s| - 1] == DigitChar(n % 10)
    ensures n >= 10 ==> var s := NatToString(n); s[|s| - 2] == DigitChar(n / 10 % 10)
  {
    if n >= 10 {
      var s := NatToString(n);
      var head := NatToString(n / 10);
      assert s == head + [DigitChar(n % 10)];
      LastDigits(n / 10);
      assert s[|s| - 2] == head[|head| - 1];
    }
  }

  lemma TensAndUnits(n: nat)
    ensures n % 100 == 10 * (n / 10 % 10) + n % 10
  {
    var q, r := n / 100, n % 100;
    assert n == 100 * q + r;
    assert n / 10 == 10 * q + r / 10;
    assert n % 10 == r % 10;
  }

  /** `get_ordinal` agrees with the written-out English rule. */
  lemma OrdinalSpelledOut(n: nat)
    ensures Ordinal(n) == NatToString(n) + EnglishSuffix(NatToString(n))
  {
    var s := NatToString(n);
    LastDigits(n);
    TensAndUnits(n);
    assert forall d: nat :: d < 10 ==> (DigitChar(d) == '1' <==> d == 1);
    assert forall d: nat :: d < 10 ==> (DigitChar(d) == '2' <==> d == 2);
    assert forall d: nat :: d < 10 ==> (DigitChar(d) == '3' <==> d == 3);
    if n < 10 {
      assert |s| == 1;
    }
  }

  /** An ordinal is the number's digits followed by a two-letter suffix, so
      the rank can be read back from it. */
  lemma OrdinalDigits(n: nat)
    ensures var s := Ordinal(n);
            |s| >= 3 && IsDigit(s[0]) && AllDigits(s[..|s| - 2]) && DigitsValue(s[..|s| - 2]) == n
  {
    var s := Ordinal(n);
    assert s[..|s| - 2] == NatToString(n);
    DigitsValueOfNatToString(n);
  }

  /** An ordinal never reads as the texts the blurbs put in its place. */
  lemma OrdinalIsNotAWord(n: nat)
    ensures Ordinal(n) != "N/A" && Ordinal(n) != "single" && Ordinal(n) != "the highest"
  {
    OrdinalDigits(n);
  }

  lemma OrdinalExamplesUnits()
    ensures Ordinal(1) == "1st" && Ordinal(2) == "2nd" && Ordinal(3) == "3rd" && Ordinal(4) == "4th"
  {
  }

  lemma OrdinalExamplesTeens()
    ensures Ordinal(11) == "11th" && Ordinal(12) == "12th" && Ordinal(13) == "13th"
  {
    assert NatToString(11) == "11";
    assert NatToString(12) == "12";
    assert NatToString(13) == "13";
  }

  lemma OrdinalExamplesTwenties()
    ensures Ordinal(21) == "21st" && Ordinal(22) == "22nd"
  {
    assert NatToString(21) == "21";
    assert NatToString(22) == "22";
  }

  lemma OrdinalExampleHundreds()
    ensures Ordinal(112) == "112th"
  {
    assert NatToString(11) == "11";
    assert NatToString(112) == "112";
  }

  // ----------------------------------------------------------------- ranks

  /** The numbers in a column; anything else is a missing value to `rank`. */
  function Numbers(col: seq<Value>): (xs: seq<Option<real>>)
    ensures |xs| == |col| && forall i :: 0 <= i < |col| ==> xs[i] == AsNumber(col[i])
  {
    seq(|col|, i requires 0 <= i < |col| => AsNumber(col[i]))
  }

  /** `y` ranks ahead of `x`: larger when descending, smaller when ascending. */
  predicate Better(y: real, x: real, ascending: bool)
  {
    if ascending then y < x else y > x
  }

  predicate BetterCell(c: Option<real>, x: real, ascending: bool)
  {
    c.Some? && Better(c.value, x, ascending)
  }

  /** How many present values rank strictly ahead of `x`. */
  function CountBetter(xs: seq<Option<real>>, x: real, ascending: bool): (k: nat)
    ensures k <= |xs|
  {
    if xs == [] then 0
    else (if BetterCell(xs[0], x, ascending) then 1 else 0) + CountBetter(xs[1..], x, ascending)
  }

  function CountPresent(xs: seq<Option<real>>): (k: nat)
    ensures k <= |xs|
  {
    if xs == [] then 0 else (if xs[0].Some? then 1 else 0) + CountPresent(xs[1..])
  }

  /** The min-method rank of row `i`: one more than the number of present
      values strictly ahead of it, shared by all tied rows; missing stays missing. */
  function RankAt(xs: seq<Option<real>>, i: nat, ascending: bool): Option<nat>
    requires i < |xs|
  {
    if xs[i].None? then None else Some(1 + CountBetter(xs, xs[i].value, ascending))
  }

  /** `get_ordinal` over a rank, "N/A" for a missing one. */
  function RankText(rank: Option<nat>): string
  {
    match rank
    case None => "N/A"
    case Some(n) => Ordinal(n)
  }

  /** `process_rank_data(df, column, ascending)` over the column's values. */
  function RankColumn(col: seq<Value>, ascending: bool): (r: seq<Value>)
    ensures |r| == |col|
  {
    var xs := Numbers(col);
    seq(|col|, i requires 0 <= i < |col| => Text(RankText(RankAt(xs, i, ascending))))
  }

  // ------------------------------------------------------------ properties

  /** A rank reads "N/A" exactly when the value is missing. */
  lemma RankMissingIff(col: seq<Value>, ascending: bool, i: nat)
    requires i < |col|
    ensures RankColumn(col, ascending)[i] == Text("N/A") <==> AsNumber(col[i]).None?
  {
    var rank := RankAt(Numbers(col), i, ascending);
    if rank.Some? {
      OrdinalIsNotAWord(rank.value);
    }
  }

  /** A present value never ranks ahead of itself, so it counts strictly
      fewer better values than there are present values. */
  lemma {:induction false} CountBetterBelowPresent(xs: seq<Option<real>>, i: nat, ascending: bool)
    requires i < |xs| && xs[i].Some?
    ensures CountBetter(xs, xs[i].value, ascending) < CountPresent(xs)
  {
    CountBetterAtMostPresent(xs[1..], xs[i].value, ascending);
    if i > 0 {
      assert xs[1..][i - 1] == xs[i];
      CountBetterBelowPresent(xs[1..], i - 1, ascending);
    }
  }

  lemma {:induction false} CountBetterAtMostPresent(xs: seq<Option<real>>, x: real, ascending: bool)
    ensures CountBetter(xs, x, ascending) <= CountPresent(xs)
  {
    if xs != [] {
      CountBetterAtMostPresent(xs[1..], x, ascending);
    }
  }

  /** Ranks run from 1 to the number of present values. */
  lemma RankBounds(xs: seq<Option<real>>, i: nat, ascending: bool)
    requires i < |xs| && xs[i].Some?
    ensures RankAt(xs, i, ascending).Some?
    ensures 1 <= RankAt(xs, i, ascending).value <= CountPresent(xs)
  {
    CountBetterBelowPresent(xs, i, ascending);
  }

  /** Tied values share a rank. */
  lemma RankTies(xs: seq<Option<real>>, i: nat, j: nat, ascending: bool)
    requires i < |xs| && j < |xs| && xs[i] == xs[j]
    ensures RankAt(xs, i, ascending) == RankAt(xs, j, ascending)
  {
  }

  lemma {:induction false} CountBetterMonotone(xs: seq<Option<real>>, x: real, y: real, ascending: bool)
    requires Better(x, y, ascending)
    ensures CountBetter(xs, x, ascending) <= CountBetter(xs, y, ascending)
  {
    if xs != [] {
      CountBetterMonotone(xs[1..], x, y, ascending);
    }
  }

  lemma {:induction false} CountBetterStrict(xs: seq<Option<real>>, i: nat, y: real, ascending: bool)
    requires i < |xs| && xs[i].Some? && Better(xs[i].value, y, ascending)
    ensures CountBetter(xs, xs[i].value, ascending) < CountBetter(xs, y, ascending)
  {
    if i == 0 {
      CountBetterMonotone(xs[1..], xs[0].value, y, ascending);
    } else {
      assert xs[1..][i - 1] == xs[i];
      CountBetterStrict(xs[1..], i - 1, y, ascending);
    }
  }

  /** A value strictly ahead of another gets a strictly smaller rank. */
  lemma RankStrictlyBetter(xs: seq<Option<real>>, i: nat, j: nat, ascending: bool)
    requires i < |xs| && j < |xs| && xs[i].Some? && xs[j].Some? && Better(xs[i].value, xs[j].value, ascending)
    ensures RankAt(xs, i, ascending).value < RankAt(xs, j, ascending).value
  {
    CountBetterStrict(xs, i, xs[j].value, ascending);
  }

  lemma {:induction false} CountBetterAppend(a: seq<Option<real>>, b: seq<Option<real>>, x: real, ascending: bool)
    ensures CountBetter(a + b, x, ascending) == CountBetter(a, x, ascending) + CountBetter(b, x, ascending)
  {
    if a == [] {
      assert a + b == b;
    } else {
      assert (a + b)[1..] == a[1..] + b;
      CountBetterAppend(a[1..], b, x, ascending);
    }
  }

  /** Taking one element out of the list takes its share out of the count. */
  lemma CountBetterRemove(ys: seq<Option<real>>, k: nat, x: real, ascending: bool)
    requires k < |ys|
    ensures CountBetter(ys, x, ascending) ==
            CountBetter([ys[k]], x, ascending) + CountBetter(ys[..k] + ys[k + 1..], x, ascending)
  {
    assert ys == ys[..k] + [ys[k]] + ys[k + 1..];
    CountBetterAppend(ys[..k] + [ys[k]], ys[k + 1..], x, ascending);
    CountBetterAppend(ys[..k], [ys[k]], x, ascending);
    CountBetterAppend(ys[..k], ys[k + 1..], x, ascending);
  }

  /** The first element of a list occurs in every permutation of it, and
      what is left on both sides is again a permutation. */
  lemma MatchFirst(xs: seq<Option<real>>, ys: seq<Option<real>>) returns (k: nat)
    requires xs != [] && multiset(xs) == multiset(ys)
    ensures k < |ys| && ys[k] == xs[0]
    ensures multiset(xs[1..]) == multiset(ys[..k] + ys[k + 1..])
  {
    assert xs[0] in multiset(ys);
    k :| 0 <= k < |ys| && ys[k] == xs[0];
    assert xs == [xs[0]] + xs[1..];
    assert multiset(xs[1..]) == multiset(xs) - multiset{xs[0]};
    assert ys == ys[..k] + [ys[k]] + ys[k + 1..];
    assert multiset(ys[..k] + ys[k + 1..]) == multiset(ys) - multiset{ys[k]};
  }

  /** The count of better values depends only on the multiset of values. */
  lemma {:induction false} CountBetterPermutation(xs: seq<Option<real>>, ys: seq<Option<real>>, x: real, ascending: bool)
    requires multiset(xs) == multiset(ys)
    ensures CountBetter(xs, x, ascending) == CountBetter(ys, x, ascending)
    decreases |xs|
  {
    if xs != [] {
      var k := MatchFirst(xs, ys);
      CountBetterPermutation(xs[1..], ys[..k] + ys[k + 1..], x, ascending);
      CountBetterRemove(ys, k, x, ascending);
    }
  }

  /** Reordering the rows does not change any row's rank. */
  lemma RankPermutation(xs: seq<Option<real>>, ys: seq<Option<real>>, i: nat, j: nat, ascending: bool)
    requires multiset(xs) == multiset(ys) && i < |xs| && j < |ys| && xs[i] == ys[j]
    ensures RankAt(xs, i, ascending) == RankAt(ys, j, ascending)
  {
    if xs[i].Some? {
      CountBetterPermutation(xs, ys, xs[i].value, ascending);
    }
  }

  /** Two regions tied for the top both rank "1st" and the next one "3rd". */
  lemma RankExample()
    ensures RankColumn([Int(300000), Int(300000), Int(200000), NA], false) ==
            [Text("1st"), Text("1st"), Text("3rd"), Text("N/A")]
  {
    var xs := Numbers([Int(300000), Int(300000), Int(200000), NA]);
    assert xs == [Some(300000.0), Some(300000.0), Some(200000.0), None];
    assert xs[1..] == [Some(300000.0), Some(200000.0), None];
    assert xs[2..] == [Some(200000.0), None];
    assert xs[3..] == [None];
    assert CountBetter(xs, 300000.0, false) == 0;
    assert CountBetter(xs[3..], 200000.0, false) == 0;
    assert CountBetter(xs[2..], 200000.0, false) == 0;
    assert CountBetter(xs[1..], 200000.0, false) == 1;
    assert CountBetter(xs, 200000.0, false) == 2;
    assert NatToString(1) == "1" && NatToString(3) == "3";
    assert Ordinal(1) == "1st" && Ordinal(3) == "3rd";
  }
}
