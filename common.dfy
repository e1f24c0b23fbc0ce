/** Shared vocabulary of the model: optional values, the Python exceptions the
    pipeline can raise, and the text conversions it applies to cell strings
    (`str.replace`, `int(...)`, `float(...)`, `int(float(...))`). */
module Common {

  datatype Option<+T> = None | Some(value: T)

  /** The exceptions the modelled code raises, by their Python names. */
  datatype Error =
    | KeyError(name: string)  // a column label that the table does not have
    | IndexError               // `.iloc[0]` or `columns[-1]` on an empty selection
    | TypeError                // `None + str`, `~` on a missing mask entry, arithmetic on text
    | AttributeError           // `.replace` called on a missing (NaN) cell
    | ValueError               // `int`/`float` of unparsable text; column length mismatch
    | ZeroDivisionError        // integer division by a zero income
    | NameError                // `keys_df` used before any keys file was read
    | NoInputFiles             // the input directory holds no .csv/.tsv file

  datatype Result<+T> = Ok(value: T) | Err(error: Error) {
    predicate IsFailure() { Err? }
    function PropagateFailure<U>(): Result<U> requires Err? { Err(error) }
    function Extract(): T requires Ok? { value }
  }

  // ---------------------------------------------------------------- digits

  predicate IsDigit(c: char) { '0' <= c <= '9' }

  predicate AllDigits(s: string) { forall i :: 0 <= i < |s| ==> IsDigit(s[i]) }

  function DigitChar(d: nat): (c: char)
    requires d < 10
    ensures IsDigit(c)
  {
    ('0' as int + d) as char
  }

  function DigitValue(c: char): (d: nat)
    requires IsDigit(c)
    ensures d < 10 && DigitChar(d) == c
  {
    c as int - '0' as int
  }

  /** Python's `str(n)` for a natural number: decimal digits, no leading zero. */
  function NatToString(n: nat): (s: string)
    ensures |s| >= 1 && AllDigits(s)
    ensures n >= 10 <==> |s| >= 2
    decreases n
  {
    if n < 10 then [DigitChar(n)] else NatToString(n / 10) + [DigitChar(n % 10)]
  }

  /** Python's `str(i)` for an integer. */
  function IntToString(i: int): (s: string)
    ensures |s| >= 1
  {
    if i < 0 then "-" + NatToString(-i) else NatToString(i)
  }

  /** The number a string of decimal digits denotes (0 for the empty string). */
  function DigitsValue(s: string): nat
    requires AllDigits(s)
  {
    if s == [] then 0 else DigitsValue(s[..|s| - 1]) * 10 + DigitValue(s[|s| - 1])
  }

  lemma {:induction false} DigitsValueOfNatToString(n: nat)
    ensures DigitsValue(NatToString(n)) == n
    decreases n
  {
    if n >= 10 {
      var s := NatToString(n);
      assert s[..|s| - 1] == NatToString(n / 10);
      DigitsValueOfNatToString(n / 10);
    }
  }

  /** Appending digits multiplies the value of the prefix by a power of ten. */
  lemma {:induction false} DigitsValueAppendZeros(s: string)
    requires AllDigits(s)
    ensures AllDigits(s + "000") && DigitsValue(s + "000") == DigitsValue(s) * 1000
  {
    var t := s + "000";
    assert AllDigits(t) by { assert forall i :: |s| <= i < |t| ==> t[i] == '0'; }
    assert t[..|t| - 1] == s + "00";
    assert (s + "00")[..|s| + 1] == s + "0";
    assert (s + "0")[..|s|] == s;
    assert DigitsValue(s + "0") == DigitsValue(s) * 10;
    assert DigitsValue(s + "00") == DigitsValue(s + "0") * 10;
  }

  /** Python's `int(s)`, for an optional sign followed by decimal digits. */
  function ParseInt(s: string): (r: Option<int>)
    ensures r.Some? ==> |s| >= 1
  {
    if |s| >= 2 && (s[0] == '-' || s[0] == '+') && AllDigits(s[1..]) then
      var magnitude: int := DigitsValue(s[1..]);
      Some(if s[0] == '-' then -magnitude else magnitude)
    else if |s| >= 1 && AllDigits(s) then
      Some(DigitsValue(s))
    else
      None
  }

  lemma ParseIntOfIntToString(i: int)
    ensures ParseInt(IntToString(i)) == Some(i)
  {
    if i < 0 {
      ParseIntOfNegative(-i);
    } else {
      ParseIntOfNat(i);
    }
  }

  lemma ParseIntOfNat(n: nat)
    ensures ParseInt(NatToString(n)) == Some(n)
  {
    var digits := NatToString(n);
    assert IsDigit(digits[0]);
    DigitsValueOfNatToString(n);
  }

  lemma ParseIntOfNegative(n: nat)
    ensures ParseInt("-" + NatToString(n)) == Some(-(n as int))
  {
    var digits := NatToString(n);
    var s := "-" + digits;
    assert s[0] == '-' && s[1..] == digits;
    DigitsValueOfNatToString(n);
  }

  // ------------------------------------------------------- replace / search

  /** `s.replace(c, rep)` for a one-character pattern: every `c` becomes `rep`. */
  function Replace(s: string, c: char, rep: string): (r: string)
    ensures c !in rep ==> c !in r
    ensures c !in s ==> r == s
  {
    if s == [] then []
    else (if s[0] == c then rep else [s[0]]) + Replace(s[1..], c, rep)
  }

  lemma {:induction false} ReplaceKeepsAbsent(s: string, c: char, rep: string, d: char)
    requires d !in s && d !in rep
    ensures d !in Replace(s, c, rep)
  {
    if s != [] {
      ReplaceKeepsAbsent(s[1..], c, rep, d);
    }
  }

  lemma {:induction false} ReplaceAppend(a: string, b: string, c: char, rep: string)
    ensures Replace(a + b, c, rep) == Replace(a, c, rep) + Replace(b, c, rep)
  {
    if a != [] {
      var head := if a[0] == c then rep else [a[0]];
      assert (a + b)[0] == a[0] && (a + b)[1..] == a[1..] + b;
      ReplaceAppend(a[1..], b, c, rep);
      calc {
        Replace(a + b, c, rep);
        head + Replace(a[1..] + b, c, rep);
        head + (Replace(a[1..], c, rep) + Replace(b, c, rep));
        { AppendAssociative(head, Replace(a[1..], c, rep), Replace(b, c, rep)); }
        head + Replace(a[1..], c, rep) + Replace(b, c, rep);
      }
    } else {
      assert a + b == b;
    }
  }

  /** Concatenation regroups freely; stated as a lemma so that a proof can
      name the one regrouping it needs. */
  lemma AppendAssociative<T>(x: seq<T>, y: seq<T>, z: seq<T>)
    ensures x + (y + z) == x + y + z
  {
  }

  /** `needle in haystack` for strings (also `str.contains` with a literal pattern). */
  predicate Contains(haystack: string, needle: string)
    decreases |haystack|
  {
    needle <= haystack || (haystack != [] && Contains(haystack[1..], needle))
  }

  /** An occurrence at position `i` makes `needle in haystack` true. */
  lemma {:induction false} ContainsAt(haystack: string, needle: string, i: nat)
    requires i + |needle| <= |haystack| && haystack[i..i + |needle|] == needle
    ensures Contains(haystack, needle)
    decreases i
  {
    if i > 0 {
      assert haystack[1..][i - 1..i - 1 + |needle|] == needle;
      ContainsAt(haystack[1..], needle, i - 1);
    } else {
      assert needle <= haystack;
    }
  }

  /** Conversely, `needle in haystack` names a position where it occurs. */
  lemma {:induction false} ContainsPosition(haystack: string, needle: string) returns (i: nat)
    requires Contains(haystack, needle)
    ensures i + |needle| <= |haystack| && haystack[i..i + |needle|] == needle
    decreases |haystack|
  {
    if needle <= haystack {
      i := 0;
    } else {
      var j := ContainsPosition(haystack[1..], needle);
      i := j + 1;
      assert haystack[i..i + |needle|] == haystack[1..][j..j + |needle|];
    }
  }

  // ------------------------------------------------ thousands separators

  function ThreeDigits(k: nat): (s: string)
    requires k < 1000
    ensures |s| == 3 && AllDigits(s)
  {
    [DigitChar(k / 100), DigitChar(k / 10 % 10), DigitChar(k % 10)]
  }

  /** A count as the census tables print it: a comma between every group of
      three digits ("39,538,223"). */
  function WithThousandsSeparators(n: nat): string
    decreases n
  {
    if n < 1000 then NatToString(n)
    else WithThousandsSeparators(n / 1000) + "," + ThreeDigits(n % 1000)
  }

  lemma NatToStringSplitsThousands(n: nat)
    requires n >= 1000
    ensures NatToString(n) == NatToString(n / 1000) + ThreeDigits(n % 1000)
  {
    ThousandsDigits(n);
    var a, b, c := DigitChar(n / 100 % 10), DigitChar(n / 10 % 10), DigitChar(n % 10);
    var head := NatToString(n / 1000);
    assert NatToString(n / 100) == head + [a];
    assert NatToString(n / 10) == head + [a] + [b];
    assert NatToString(n) == head + [a] + [b] + [c];
    assert ThreeDigits(n % 1000) == [a] + [b] + [c];
    AppendAssociative(head + [a], [b], [c]);
    AppendAssociative(head, [a], [b] + [c]);
    AppendAssociative([a], [b], [c]);
  }

  /** The last three digits of `n` are the digits of `n % 1000`. */
  lemma ThousandsDigits(n: nat)
    ensures n / 10 / 10 == n / 100 && n / 100 / 10 == n / 1000
    ensures n % 1000 / 100 == n / 100 % 10 && n % 1000 / 10 % 10 == n / 10 % 10 && n % 1000 % 10 == n % 10
  {
  }

  /** Deleting the separators gives back the plain decimal form. */
  lemma {:induction false} StripThousandsSeparators(n: nat)
    ensures Replace(WithThousandsSeparators(n), ',', "") == NatToString(n)
    decreases n
  {
    if n >= 1000 {
      var head := WithThousandsSeparators(n / 1000);
      var tail := ThreeDigits(n % 1000);
      ReplaceAppend(head + ",", tail, ',', "");
      ReplaceAppend(head, ",", ',', "");
      assert Replace(",", ',', "") == "";
      StripThousandsSeparators(n / 1000);
      assert ',' !in tail;
      NatToStringSplitsThousands(n);
    }
  }

  // ------------------------------------------------------- decimal numbers

  function Pow10(k: nat): (p: nat)
    ensures p >= 1
  {
    if k == 0 then 1 else 10 * Pow10(k - 1)
  }

  /** Index of the first `c` in `s`, or `|s|` when there is none. */
  function IndexOf(s: string, c: char): (k: nat)
    ensures k <= |s| && (k < |s| ==> s[k] == c)
    ensures forall i :: 0 <= i < k ==> s[i] != c
  {
    if s == [] then 0 else if s[0] == c then 0 else 1 + IndexOf(s[1..], c)
  }

  /** An unsigned decimal literal: digits, optionally a point and more digits,
      with at least one digit somewhere ("12", "1.5", "1.", ".5"). */
  function ParseUnsignedDecimal(s: string): Option<real>
  {
    var k := IndexOf(s, '.');
    if k == |s| then
      if |s| >= 1 && AllDigits(s) then Some(DigitsValue(s) as real) else None
    else
      var whole, fraction := s[..k], s[k + 1..];
      if AllDigits(whole) && AllDigits(fraction) && |whole| + |fraction| >= 1 then
        Some(DigitsValue(whole) as real + DigitsValue(fraction) as real / Pow10(|fraction|) as real)
      else
        None
  }

  /** Python's `float(s)` and pandas' `to_numeric`, for an optional sign and a
      decimal literal. */
  function ParseDecimal(s: string): Option<real>
  {
    if |s| >= 1 && (s[0] == '-' || s[0] == '+') then
      match ParseUnsignedDecimal(s[1..])
      case None => None
      case Some(x) => Some(if s[0] == '-' then -x else x)
    else
      ParseUnsignedDecimal(s)
  }

  lemma IndexOfPointInDigits(s: string)
    requires AllDigits(s)
    ensures IndexOf(s, '.') == |s|
  {
    assert forall i :: 0 <= i < |s| ==> s[i] != '.' by {
      forall i | 0 <= i < |s| ensures s[i] != '.' { assert IsDigit(s[i]); }
    }
  }

  lemma ParseDecimalOfDigits(s: string)
    requires |s| >= 1 && AllDigits(s)
    ensures ParseDecimal(s) == Some(DigitsValue(s) as real)
  {
    IndexOfPointInDigits(s);
    assert !(s[0] == '-' || s[0] == '+') by { assert IsDigit(s[0]); }
  }

  lemma ParseDecimalOfNatToString(n: nat)
    ensures ParseDecimal(NatToString(n)) == Some(n as real)
  {
    ParseDecimalOfDigits(NatToString(n));
    DigitsValueOfNatToString(n);
  }

  /** Python's `int(x)` for a number: truncation toward zero. */
  function TruncateToInt(x: real): (r: int)
    ensures 0.0 <= x ==> r as real <= x < r as real + 1.0
    ensures x < 0.0 ==> r as real - 1.0 < x <= r as real
  {
    if x >= 0.0 then x.Floor else -((-x).Floor)
  }

  // --------------------------------------------------------------- prices

  /** `s.replace("$", "").replace("K", "000")`, the textual price clean-up used
      by both the sale-price reader and the time-series loader. */
  function PriceText(s: string): (r: string)
    ensures '$' !in r && 'K' !in r
  {
    ReplaceKeepsAbsent(Replace(s, '$', ""), 'K', "000", '$');
    Replace(Replace(s, '$', ""), 'K', "000")
  }

  /** Removing the dollar sign from "$<digits>K". */
  lemma DollarStripped(digits: string)
    requires AllDigits(digits)
    ensures Replace("$" + digits + "K", '$', "") == digits + "K"
  {
    ReplaceAppend("$" + digits, "K", '$', "");
    ReplaceAppend("$", digits, '$', "");
    assert '$' !in digits by { assert forall i :: 0 <= i < |digits| ==> IsDigit(digits[i]); }
    assert Replace("$", '$', "") == "";
    assert Replace("K", '$', "") == "K";
  }

  /** Expanding the thousands suffix of "<digits>K". */
  lemma ThousandsSuffixExpanded(digits: string)
    requires AllDigits(digits)
    ensures Replace(digits + "K", 'K', "000") == digits + "000"
  {
    ReplaceAppend(digits, "K", 'K', "000");
    assert 'K' !in digits by { assert forall i :: 0 <= i < |digits| ==> IsDigit(digits[i]); }
    assert Replace("K", 'K', "000") == "000";
  }

  /** A price written "$<n>K" means n thousand. */
  lemma PriceTextOfThousands(n: nat)
    ensures ParseDecimal(PriceText("$" + NatToString(n) + "K")) == Some((n * 1000) as real)
  {
    var digits := NatToString(n);
    DollarStripped(digits);
    ThousandsSuffixExpanded(digits);
    DigitsValueAppendZeros(digits);
    ParseDecimalOfDigits(digits + "000");
    DigitsValueOfNatToString(n);
  }

  /** The substitution is textual, so a fractional thousands figure loses its
      scale: "$1.5K" reads as 1.5, not 1500. */
  lemma FractionalThousandsReadLiterally()
    ensures PriceText("$1.5K") == "1.5000"
    ensures ParseDecimal(PriceText("$1.5K")) == Some(1.5)
  {
    PriceTextOfFractionalThousands();
    ParseOneAndAHalf();
  }

  lemma PriceTextOfFractionalThousands()
    ensures PriceText("$1.5K") == "1.5000"
  {
    DollarRemoved();
    ThousandsExpanded();
  }

  lemma DollarRemoved()
    ensures Replace("$1.5K", '$', "") == "1.5K"
  {
    assert '$' !in "1.5K";
    assert "$1.5K"[1..] == "1.5K";
  }

  lemma ThousandsExpanded()
    ensures Replace("1.5K", 'K', "000") == "1.5000"
  {
    assert "1.5K"[1..] == ".5K" && ".5K"[1..] == "5K" && "5K"[1..] == "K" && "K"[1..] == "";
  }

  lemma ParseOneAndAHalf()
    ensures ParseDecimal("1.5000") == Some(1.5)
  {
    var s := "1.5000";
    PointAtOne();
    FiveThousand();
    assert s[..1] == "1" && s[2..] == "5000";
    assert DigitsValue("1") == 1;
    assert Pow10(4) == 10000;
  }

  lemma PointAtOne()
    ensures IndexOf("1.5000", '.') == 1
  {
    assert "1.5000"[1..] == ".5000";
  }

  lemma FiveThousand()
    ensures AllDigits("5000") && DigitsValue("5000") == 5000
  {
    assert "5000"[..3] == "500" && "500"[..2] == "50" && "50"[..1] == "5";
  }
}
