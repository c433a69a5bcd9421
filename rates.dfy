/**
 * Currency text to a number: every '$' and every ',' is removed, then the
 * rest is read as a decimal number: the decimal notation float() reads,
 * without exponents, infinities, NaN and digit separators. Also the
 * inverse direction, currency text written with a '$' and thousands
 * separators, so that the parse can be shown to undo it.
 */
module Rates {
  import opened Wrappers
  import Text

  /** `s` with every occurrence of `c` removed and all other characters kept in order. */
  function Remove(s: string, c: char): (r: string)
    ensures |r| <= |s|
  {
    if s == [] then [] else (if s[0] == c then [] else [s[0]]) + Remove(s[1..], c)
  }

  /** No `c` is left after removing `c`. */
  lemma {:induction false} RemoveGone(s: string, c: char)
    ensures c !in Remove(s, c)
  {
    if s != [] {
      RemoveGone(s[1..], c);
    }
  }

  /** Every character other than `c` occurs as often after the removal as before. */
  lemma {:induction false} RemoveKeeps(s: string, c: char, d: char)
    requires d != c
    ensures multiset(Remove(s, c))[d] == multiset(s)[d]
  {
    if s != [] {
      assert s == [s[0]] + s[1..];
      RemoveKeeps(s[1..], c, d);
    }
  }

  /** Removing a character distributes over concatenation. */
  lemma {:induction false} RemoveConcat(a: string, b: string, c: char)
    ensures Remove(a + b, c) == Remove(a, c) + Remove(b, c)
  {
    if a == [] {
      assert a + b == b;
    } else {
      assert (a + b)[0] == a[0];
      assert (a + b)[1..] == a[1..] + b;
      RemoveConcat(a[1..], b, c);
    }
  }

  /** Removing a character that does not occur changes nothing. */
  lemma {:induction false} RemoveAbsent(s: string, c: char)
    requires c !in s
    ensures Remove(s, c) == s
  {
    if s != [] {
      RemoveAbsent(s[1..], c);
    }
  }

  /** The cleaning of a rate cell: '$' removed, then ',' removed. */
  function CleanRate(s: string): (r: string)
    ensures |r| <= |s|
  {
    Remove(Remove(s, '$'), ',')
  }

  /** The cleaned text holds no '$' and no ','. */
  lemma CleanRateRemoves(s: string)
    ensures '$' !in CleanRate(s) && ',' !in CleanRate(s)
  {
    var noDollar := Remove(s, '$');
    RemoveGone(s, '$');
    RemoveGone(noDollar, ',');
    RemoveKeeps(noDollar, ',', '$');
    assert multiset(noDollar)['$'] == 0;
  }

  /** Cleaning keeps every character other than '$' and ',' as often as it occurs. */
  lemma CleanRateKeeps(s: string, d: char)
    requires d != '$' && d != ','
    ensures multiset(CleanRate(s))[d] == multiset(s)[d]
  {
    RemoveKeeps(s, '$', d);
    RemoveKeeps(Remove(s, '$'), ',', d);
  }

  /** Cleaning a cleaned string changes nothing. */
  lemma CleanRateIdempotent(s: string)
    ensures CleanRate(CleanRate(s)) == CleanRate(s)
  {
    var r := CleanRate(s);
    CleanRateRemoves(s);
    RemoveAbsent(r, '$');
    RemoveAbsent(r, ',');
  }

  /** Cleaning distributes over concatenation. */
  lemma CleanRateConcat(a: string, b: string)
    ensures CleanRate(a + b) == CleanRate(a) + CleanRate(b)
  {
    RemoveConcat(a, b, '$');
    RemoveConcat(Remove(a, '$'), Remove(b, '$'), ',');
  }

  predicate IsDigit(c: char) {
    '0' <= c <= '9'
  }

  predicate AllDigits(s: string) {
    forall i :: 0 <= i < |s| ==> IsDigit(s[i])
  }

  /** A character that may appear in text float() accepts, as modelled here. */
  predicate NumericChar(c: char) {
    Text.IsFloatSpace(c) || IsDigit(c) || c == '.' || c == '+' || c == '-'
  }

  /** The value of a string of decimal digits, most significant first. */
  function DigitsValue(s: string): nat
    requires AllDigits(s)
  {
    if s == [] then 0 else 10 * DigitsValue(s[..|s| - 1]) + (s[|s| - 1] as int - '0' as int)
  }

  /** The value of the digits after a decimal point: the first counts tenths. */
  function FracValue(s: string): (v: real)
    requires AllDigits(s)
    ensures 0.0 <= v
  {
    if s == [] then 0.0 else ((s[0] as int - '0' as int) as real + FracValue(s[1..])) / 10.0
  }

  /** The position of the first `c` in `s`, or |s| when there is none. */
  function IndexOf(s: string, c: char): (i: nat)
    ensures i <= |s|
  {
    if s == [] || s[0] == c then 0 else 1 + IndexOf(s[1..], c)
  }

  /** IndexOf finds the first `c`: every character before it differs. */
  lemma {:induction false} IndexOfFirst(s: string, c: char)
    ensures IndexOf(s, c) < |s| ==> s[IndexOf(s, c)] == c
    ensures forall j :: 0 <= j < IndexOf(s, c) ==> s[j] != c
  {
    if s != [] && s[0] != c {
      IndexOfFirst(s[1..], c);
      assert forall j :: 0 < j < |s| ==> s[j] == s[1..][j - 1];
    }
  }

  /** The number written with digits `whole` before the point and `frac` after it. */
  function DecimalValue(whole: string, frac: string): (v: real)
    requires AllDigits(whole) && AllDigits(frac)
    ensures v >= 0.0
  {
    DigitsValue(whole) as real + FracValue(frac)
  }

  /**
   * An unsigned decimal: digits, optionally followed by a point and more
   * digits, with at least one digit in all.
   */
  function ParseUnsigned(t: string): (r: Option<real>)
    ensures r.Some? ==> r.value >= 0.0
  {
    var p := IndexOf(t, '.');
    var whole := t[..p];
    var frac := if p < |t| then t[p + 1..] else [];
    if AllDigits(whole) && AllDigits(frac) && |whole| + |frac| > 0 then
      Some(DecimalValue(whole, frac))
    else None
  }

  /** An unsigned decimal holds only digits and a point. */
  lemma ParseUnsignedChars(t: string)
    ensures ParseUnsigned(t).Some? ==> forall i :: 0 <= i < |t| ==> IsDigit(t[i]) || t[i] == '.'
  {
    var p := IndexOf(t, '.');
    if ParseUnsigned(t).Some? {
      IndexOfFirst(t, '.');
      var whole := t[..p];
      var frac := if p < |t| then t[p + 1..] else [];
      forall i | 0 <= i < |t| ensures IsDigit(t[i]) || t[i] == '.' {
        if i < p {
          assert t[i] == whole[i];
        } else if p < i {
          assert t[i] == frac[i - p - 1];
        }
      }
    }
  }

  /** `s` without the whitespace float() skips around a number. */
  function Trim(s: string): (r: string)
    ensures |r| <= |s|
  {
    Text.Strip(s, Text.IsFloatSpace)
  }

  /**
   * The number read from `s` in float()'s decimal notation: whitespace
   * around it, an optional sign, then an unsigned decimal. Text holding
   * any other character is refused. ParseDecimalIff states which number.
   */
  function ParseDecimal(s: string): (r: Option<real>)
    ensures Trim(s) == [] ==> r.None?
    ensures r.Some? && Trim(s)[0] != '-' ==> r.value >= 0.0
  {
    ParseSigned(Trim(s))
  }

  /** An optional leading sign, then an unsigned decimal; a '-' negates it. */
  function ParseSigned(t: string): (r: Option<real>)
    ensures r.Some? ==> t != [] && (t[0] != '-' ==> r.value >= 0.0)
  {
    if t == [] then None
    else
      var body := if t[0] == '-' || t[0] == '+' then t[1..] else t;
      match ParseUnsigned(body)
      case None => None
      case Some(v) => Some(if t[0] == '-' then -v else v)
  }

  /** Stripped text that reads as a decimal holds only digits, a point and a leading sign. */
  lemma StrippedNumericChars(t: string)
    requires t != []
    requires ParseUnsigned(if t[0] == '-' || t[0] == '+' then t[1..] else t).Some?
    ensures forall i :: 0 <= i < |t| ==> NumericChar(t[i])
  {
    var body := if t[0] == '-' || t[0] == '+' then t[1..] else t;
    ParseUnsignedChars(body);
    forall i | 0 <= i < |t| ensures NumericChar(t[i]) {
      if body != t && i > 0 {
        assert t[i] == body[i - 1];
      }
    }
  }

  /** Text that float() reads holds only whitespace, digits, a point and signs. */
  lemma ParseDecimalChars(s: string)
    ensures ParseDecimal(s).Some? ==> forall i :: 0 <= i < |s| ==> NumericChar(s[i])
  {
    var t := Trim(s);
    if ParseDecimal(s).Some? {
      assert forall i :: 0 <= i < |t| ==> NumericChar(t[i]) by {
        StrippedNumericChars(t);
      }
      var lead := Text.LeadLen(s, Text.IsFloatSpace);
      forall i | 0 <= i < |s| ensures NumericChar(s[i]) {
        if lead <= i < lead + |t| {
          assert s[i] == t[i - lead];
        }
      }
    }
  }

  // ---- The number read, stated on the shape of the text ----

  /**
   * The parts of a number in decimal notation are well formed: no sign,
   * '+' or '-'; digits before the point; digits after it only if there is
   * a point; and at least one digit in all.
   */
  predicate DecimalForm(sign: string, whole: string, point: bool, frac: string) {
    (sign == [] || sign == "+" || sign == "-") &&
    AllDigits(whole) && AllDigits(frac) && (point || frac == []) && |whole| + |frac| > 0
  }

  /** The text a number in decimal notation is written as, such as "-12.50", "+5" or ".5". */
  function DecimalText(sign: string, whole: string, point: bool, frac: string): string {
    sign + (whole + PointPart(point, frac))
  }

  /** The value a number in decimal notation denotes. */
  function SignedValue(sign: string, whole: string, frac: string): real
    requires AllDigits(whole) && AllDigits(frac)
  {
    if sign == "-" then -DecimalValue(whole, frac) else DecimalValue(whole, frac)
  }

  /** The point and the fractional digits of a decimal text, if it has a point. */
  function PointPart(point: bool, frac: string): string {
    if point then "." + frac else []
  }

  /** The first point in the digits and fractional part is the one after the digits. */
  lemma WholeEndsAtPoint(whole: string, point: bool, frac: string)
    requires AllDigits(whole)
    ensures IndexOf(whole + PointPart(point, frac), '.') == |whole|
  {
    assert '.' !in whole by {
      assert forall j :: 0 <= j < |whole| ==> IsDigit(whole[j]);
    }
    IndexOfAfter(whole, PointPart(point, frac), '.');
  }

  /** Well-formed unsigned digits, with or without a point, read as the decimal they denote. */
  lemma ParseUnsignedForm(whole: string, point: bool, frac: string)
    requires DecimalForm([], whole, point, frac)
    ensures ParseUnsigned(whole + PointPart(point, frac)) == Some(DecimalValue(whole, frac))
  {
    var body := whole + PointPart(point, frac);
    WholeEndsAtPoint(whole, point, frac);
    assert body[..|whole|] == whole;
    if point {
      assert body[|whole| + 1..] == frac;
    }
  }

  /** A decimal text neither starts nor ends with whitespace, and starts with its sign if it has one. */
  lemma DecimalTextEnds(sign: string, whole: string, point: bool, frac: string)
    requires DecimalForm(sign, whole, point, frac)
    ensures var t := DecimalText(sign, whole, point, frac);
      t != [] && !Text.IsFloatSpace(t[0]) && !Text.IsFloatSpace(t[|t| - 1])
  {
    var body := whole + PointPart(point, frac);
    var t := sign + body;
    assert DecimalForm([], whole, point, frac);
    UnsignedStart(whole, point, frac);
    UnsignedEnd(whole, point, frac);
    assert DecimalText(sign, whole, point, frac) == t;
    assert t[|t| - 1] == body[|body| - 1];
    assert t[0] == if sign == [] then body[0] else sign[0];
  }

  /** An unsigned decimal text ends with a digit or the point. */
  lemma UnsignedEnd(whole: string, point: bool, frac: string)
    requires DecimalForm([], whole, point, frac)
    ensures var body := whole + PointPart(point, frac); body != [] && (IsDigit(body[|body| - 1]) || body[|body| - 1] == '.')
  {
    var body := whole + PointPart(point, frac);
    if point && frac != [] {
      assert body[|body| - 1] == frac[|frac| - 1];
    } else if !point {
      assert body == whole;
    }
  }

  /** A sign, then an unsigned decimal not starting with a sign, reads as the signed decimal. */
  lemma ParseSignedSplit(sign: string, body: string, u: real)
    requires sign == [] || sign == "+" || sign == "-"
    requires body != [] && body[0] != '-' && body[0] != '+'
    requires ParseUnsigned(body) == Some(u)
    ensures ParseSigned(sign + body) == Some(if sign == "-" then -u else u)
  {
    var t := sign + body;
    if sign == [] {
      assert t == body;
    } else {
      assert t[0] == sign[0] && t[1..] == body;
    }
  }

  /** A decimal text with no whitespace around it reads as the number it denotes. */
  lemma ParseSignedText(sign: string, whole: string, point: bool, frac: string)
    requires DecimalForm(sign, whole, point, frac)
    ensures ParseSigned(DecimalText(sign, whole, point, frac)) == Some(SignedValue(sign, whole, frac))
  {
    var body := whole + PointPart(point, frac);
    var u := DecimalValue(whole, frac);
    assert DecimalForm([], whole, point, frac);
    UnsignedStart(whole, point, frac);
    ParseUnsignedForm(whole, point, frac);
    ParseSignedSplit(sign, body, u);
    assert DecimalText(sign, whole, point, frac) == sign + body;
    assert SignedValue(sign, whole, frac) == if sign == "-" then -u else u;
  }

  /** An unsigned decimal text is not empty and starts with a digit or the point. */
  lemma UnsignedStart(whole: string, point: bool, frac: string)
    requires DecimalForm([], whole, point, frac)
    ensures var body := whole + PointPart(point, frac); body != [] && (IsDigit(body[0]) || body[0] == '.')
  {
    if whole != [] {
      assert (whole + PointPart(point, frac))[0] == whole[0];
    }
  }

  /** Stripped text that ParseSigned reads is a decimal text, and ParseSigned gives its number. */
  lemma ParsedDecimalForm(t: string) returns (sign: string, whole: string, point: bool, frac: string)
    requires ParseSigned(t).Some?
    ensures DecimalForm(sign, whole, point, frac) && t == DecimalText(sign, whole, point, frac)
  {
    sign := if t[0] == '-' || t[0] == '+' then [t[0]] else [];
    var body := t[|sign|..];
    assert ParseUnsigned(body).Some?;
    whole, point, frac := UnsignedParts(body);
    assert t == sign + body;
  }

  /** Text that ParseUnsigned reads is digits with or without a point and more digits. */
  lemma UnsignedParts(body: string) returns (whole: string, point: bool, frac: string)
    requires ParseUnsigned(body).Some?
    ensures DecimalForm([], whole, point, frac) && body == whole + PointPart(point, frac)
  {
    var p := IndexOf(body, '.');
    whole := body[..p];
    point := p < |body|;
    frac := if point then body[p + 1..] else [];
    IndexOfFirst(body, '.');
    if point {
      assert body == whole + ("." + frac);
    } else {
      assert body == whole;
    }
  }

  /** A decimal text, with any whitespace float() skips around it, reads as the number it denotes. */
  lemma ParseDecimalText(pre: string, sign: string, whole: string, point: bool, frac: string, post: string)
    requires forall k :: 0 <= k < |pre| ==> Text.IsFloatSpace(pre[k])
    requires forall k :: 0 <= k < |post| ==> Text.IsFloatSpace(post[k])
    requires DecimalForm(sign, whole, point, frac)
    ensures ParseDecimal(pre + DecimalText(sign, whole, point, frac) + post) == Some(SignedValue(sign, whole, frac))
  {
    DecimalTextEnds(sign, whole, point, frac);
    Text.StripPadded(pre, DecimalText(sign, whole, point, frac), post, Text.IsFloatSpace);
    ParseSignedText(sign, whole, point, frac);
  }

  /**
   * ParseDecimal reads exactly the decimal texts, with the whitespace
   * float() skips around them, and gives the number they denote.
   */
  lemma ParseDecimalIff(s: string, v: real)
    ensures ParseDecimal(s) == Some(v) <==>
      exists sign, whole, point, frac :: DecimalText(sign, whole, point, frac) == Trim(s) &&
        DecimalForm(sign, whole, point, frac) && v == SignedValue(sign, whole, frac)
  {
    var t := Trim(s);
    if ParseDecimal(s) == Some(v) {
      var sign, whole, point, frac := ParsedDecimalForm(t);
      ParseSignedText(sign, whole, point, frac);
    }
    if exists sign, whole, point, frac :: DecimalText(sign, whole, point, frac) == t &&
        DecimalForm(sign, whole, point, frac) && v == SignedValue(sign, whole, frac) {
      var sign, whole, point, frac :| DecimalText(sign, whole, point, frac) == t &&
        DecimalForm(sign, whole, point, frac) && v == SignedValue(sign, whole, frac);
      ParseSignedText(sign, whole, point, frac);
    }
  }

  /**
   * A rate cell holds a number exactly when its cleaned text, without the
   * whitespace around it, is a decimal text; the number is the one it denotes.
   */
  lemma ParseRateIff(cell: string, v: real)
    ensures ParseRate(cell) == Some(v) <==>
      exists sign, whole, point, frac :: DecimalText(sign, whole, point, frac) == Trim(CleanRate(cell)) &&
        DecimalForm(sign, whole, point, frac) && v == SignedValue(sign, whole, frac)
  {
    ParseDecimalIff(CleanRate(cell), v);
  }

  /** A cell that cleans to a decimal text, with whitespace around it, holds the number it denotes. */
  lemma ParseRateText(cell: string, pre: string, sign: string, whole: string, point: bool, frac: string, post: string)
    requires forall k :: 0 <= k < |pre| ==> Text.IsFloatSpace(pre[k])
    requires forall k :: 0 <= k < |post| ==> Text.IsFloatSpace(post[k])
    requires DecimalForm(sign, whole, point, frac)
    requires CleanRate(cell) == pre + DecimalText(sign, whole, point, frac) + post
    ensures ParseRate(cell) == Some(SignedValue(sign, whole, frac))
  {
    ParseDecimalText(pre, sign, whole, point, frac, post);
  }

  /** The number a rate cell holds: its cleaned text read as a decimal. */
  function ParseRate(cell: string): (r: Option<real>)
    ensures Trim(CleanRate(cell)) == [] ==> r.None?
  {
    ParseDecimal(CleanRate(cell))
  }

  /** Text whose cleaned form keeps any character float() cannot read fails to parse. */
  lemma MalformedResidueFails(cell: string, c: char)
    requires c in CleanRate(cell) && !NumericChar(c)
    ensures ParseRate(cell).None?
  {
    ParseDecimalChars(CleanRate(cell));
  }

  // ---- Currency text, the inverse direction ----

  function DigitChar(d: nat): (c: char)
    requires d < 10
    ensures IsDigit(c) && c as int - '0' as int == d
  {
    ('0' as int + d) as char
  }

  /** The decimal digits of `n`, most significant first, with no leading zero. */
  function NatDigits(n: nat): (s: string)
    ensures |s| > 0 && AllDigits(s)
    decreases n
  {
    if n < 10 then [DigitChar(n)] else NatDigits(n / 10) + [DigitChar(n % 10)]
  }

  lemma {:induction false} NatDigitsValue(n: nat)
    ensures DigitsValue(NatDigits(n)) == n
    decreases n
  {
    var s := NatDigits(n);
    if n >= 10 {
      NatDigitsValue(n / 10);
      assert s[..|s| - 1] == NatDigits(n / 10);
    }
  }

  /** Digits separated into groups of three by commas, from the right. */
  function Group(d: string): (r: string)
    decreases |d|
  {
    if |d| <= 3 then d else Group(d[..|d| - 3]) + "," + d[|d| - 3..]
  }

  /** Cleaning leaves a string of digits as it is. */
  lemma CleanDigits(d: string)
    requires AllDigits(d)
    ensures CleanRate(d) == d
  {
    assert '$' !in d && ',' !in d;
    RemoveAbsent(d, '$');
    RemoveAbsent(d, ',');
  }

  /** Removing the separators gives the digits back. */
  lemma {:induction false} CleanGroup(d: string)
    requires AllDigits(d)
    ensures CleanRate(Group(d)) == d
    decreases |d|
  {
    if |d| <= 3 {
      CleanDigits(d);
    } else {
      var head, tail := d[..|d| - 3], d[|d| - 3..];
      assert head + tail == d;
      CleanGroup(head);
      CleanSeparated(Group(head), head, tail);
    }
  }

  /** Cleaning a group, a separator and digits joins the group's digits to the rest. */
  lemma CleanSeparated(g: string, digits: string, tail: string)
    requires CleanRate(g) == digits && AllDigits(tail)
    ensures CleanRate(g + "," + tail) == digits + tail
  {
    assert CleanRate(",") == [] by {
      RemoveAbsent([], ',');
    }
    CleanDigits(tail);
    CleanRateConcat(g, ",");
    CleanRateConcat(g + ",", tail);
  }

  /** A non-negative amount of cents as currency text, such as "$1,250.00". */
  function FormatCurrency(cents: nat): string {
    var c := cents % 100;
    "$" + Group(NatDigits(cents / 100)) + "." + [DigitChar(c / 10), DigitChar(c % 10)]
  }

  /** The cleaned form of currency text: the digits, a point and the two cent digits. */
  lemma CleanFormatCurrency(cents: nat)
    ensures CleanRate(FormatCurrency(cents)) ==
      NatDigits(cents / 100) + ("." + [DigitChar(cents % 100 / 10), DigitChar(cents % 100 % 10)])
  {
    var c := cents % 100;
    var whole := NatDigits(cents / 100);
    var rest := "." + [DigitChar(c / 10), DigitChar(c % 10)];
    assert FormatCurrency(cents) == "$" + (Group(whole) + rest);
    assert CleanRate("$") == [] by {
      RemoveAbsent([], ',');
    }
    assert CleanRate(Group(whole)) == whole by {
      CleanGroup(whole);
    }
    assert CleanRate(rest) == rest by {
      assert '$' !in rest && ',' !in rest;
      RemoveAbsent(rest, '$');
      RemoveAbsent(rest, ',');
    }
    CleanRateConcat("$", Group(whole) + rest);
    CleanRateConcat(Group(whole), rest);
  }

  /** The first `c` of `a + b` lies in `b` when `a` has none. */
  lemma {:induction false} IndexOfAfter(a: string, b: string, c: char)
    requires c !in a
    ensures IndexOf(a + b, c) == |a| + IndexOf(b, c)
  {
    if a == [] {
      assert a + b == b;
    } else {
      assert (a + b)[0] == a[0];
      assert (a + b)[1..] == a[1..] + b;
      IndexOfAfter(a[1..], b, c);
    }
  }

  /** Digits, a point and digits form an unsigned decimal. */
  lemma ParseUnsignedPlain(whole: string, frac: string)
    requires AllDigits(whole) && AllDigits(frac) && whole != []
    ensures ParseUnsigned(whole + ("." + frac)) == Some(DecimalValue(whole, frac))
  {
    var plain := whole + ("." + frac);
    assert '.' !in whole by {
      assert forall j :: 0 <= j < |whole| ==> IsDigit(whole[j]);
    }
    IndexOfAfter(whole, "." + frac, '.');
    assert IndexOf("." + frac, '.') == 0;
    var p := IndexOf(plain, '.');
    assert p == |whole| && p < |plain|;
    assert plain[..p] == whole;
    assert plain[p + 1..] == frac;
  }

  /** Unpadded text starting with a digit is read as an unsigned decimal. */
  lemma ParseDecimalUnsigned(t: string)
    requires Trim(t) == t && t != [] && IsDigit(t[0])
    ensures ParseDecimal(t) == ParseUnsigned(t)
  {
  }

  /** Digits, a point and digits read as the decimal they denote. */
  lemma ParsePlainDecimal(whole: string, frac: string)
    requires AllDigits(whole) && AllDigits(frac) && whole != []
    ensures ParseDecimal(whole + ("." + frac)) == Some(DecimalValue(whole, frac))
  {
    var plain := whole + ("." + frac);
    assert plain[0] == whole[0];
    assert Trim(plain) == plain by {
      assert plain[|plain| - 1] == if frac == [] then '.' else frac[|frac| - 1];
      Text.StripUnpadded(plain, Text.IsFloatSpace);
    }
    assert ParseUnsigned(plain) == Some(DecimalValue(whole, frac)) by {
      ParseUnsignedPlain(whole, frac);
    }
    ParseDecimalUnsigned(plain);
  }

  /** The two cent digits of an amount denote its cents. */
  lemma CentDigitsValue(c: nat)
    requires c < 100
    ensures FracValue([DigitChar(c / 10), DigitChar(c % 10)]) == c as real / 100.0
  {
    var a, b := c / 10, c % 10;
    var frac := [DigitChar(a), DigitChar(b)];
    assert FracValue([DigitChar(b)]) == b as real / 10.0 by {
      assert [DigitChar(b)][1..] == [];
    }
    assert FracValue(frac) == (a as real + b as real / 10.0) / 10.0 by {
      assert frac[1..] == [DigitChar(b)];
    }
    assert c as real == 10.0 * a as real + b as real;
  }

  /** Whole units and two cent digits make up the amount in cents. */
  lemma DecimalCents(whole: string, frac: string, cents: nat)
    requires AllDigits(whole) && AllDigits(frac)
    requires DigitsValue(whole) == cents / 100 && FracValue(frac) == (cents % 100) as real / 100.0
    ensures DecimalValue(whole, frac) == cents as real / 100.0
  {
    assert cents == 100 * (cents / 100) + cents % 100;
  }

  /** A cell that cleans to digits, a point and digits has the rate they denote. */
  lemma ParsePlainCell(cell: string, whole: string, frac: string)
    requires AllDigits(whole) && whole != [] && AllDigits(frac)
    requires CleanRate(cell) == whole + ("." + frac)
    ensures ParseRate(cell) == Some(DecimalValue(whole, frac))
  {
    ParsePlainDecimal(whole, frac);
  }

  /** Currency text cleans to the digits of its amount, a point and two cent digits. */
  lemma FormatCurrencyParts(cents: nat) returns (whole: string, frac: string)
    ensures AllDigits(whole) && whole != [] && AllDigits(frac)
    ensures CleanRate(FormatCurrency(cents)) == whole + ("." + frac)
    ensures DecimalValue(whole, frac) == cents as real / 100.0
  {
    var c := cents % 100;
    whole := NatDigits(cents / 100);
    frac := [DigitChar(c / 10), DigitChar(c % 10)];
    assert DecimalValue(whole, frac) == cents as real / 100.0 by {
      NatDigitsValue(cents / 100);
      CentDigitsValue(c);
      DecimalCents(whole, frac, cents);
    }
    CleanFormatCurrency(cents);
  }

  /** Parsing currency text gives back the amount it was written from. */
  lemma ParseFormatCurrency(cents: nat)
    ensures ParseRate(FormatCurrency(cents)) == Some(cents as real / 100.0)
  {
    var whole, frac := FormatCurrencyParts(cents);
    ParsePlainCell(FormatCurrency(cents), whole, frac);
  }
}

/** Rate cells read to the numbers they hold, and one that float() refuses. */
module RateExamples {
  import opened Wrappers
  import opened Rates

  /** "125" is a decimal text denoting 125. */
  lemma Digits125()
    ensures AllDigits("125") && DigitsValue("125") == 125
    ensures "125" == [] + DecimalText([], "125", false, []) + []
  {
    assert DigitsValue("1") == 1 by {
      assert "1"[..0] == [];
    }
    assert DigitsValue("12") == 12 by {
      assert "12"[..1] == "1";
    }
    assert "125"[..2] == "12";
  }

  /** "$125" cleans to "125". */
  lemma WholeDollarsClean()
    ensures CleanRate("$125") == "125"
  {
    assert Remove("$125", '$') == "125";
    RemoveAbsent("125", ',');
  }

  /** A cell without a decimal point: "$125" reads as 125. */
  lemma WholeDollars()
    ensures ParseRate("$125") == Some(125.0)
  {
    WholeDollarsClean();
    Digits125();
    ParseRateText("$125", [], [], "125", false, [], []);
  }

  /** " $12.5" cleans to " 12.5". */
  lemma PaddedCellClean()
    ensures CleanRate(" $12.5") == " 12.5"
  {
    assert Remove(" $12.5", '$') == " 12.5";
    RemoveAbsent(" 12.5", ',');
  }

  /** " 12.5" is the decimal text "12.5" after a space, which denotes 12.5. */
  lemma Value12Point5()
    ensures " 12.5" == " " + DecimalText([], "12", true, "5") + []
    ensures DecimalForm([], "12", true, "5") && SignedValue([], "12", "5") == 12.5
  {
    assert DigitsValue("1") == 1 by {
      assert "1"[..0] == [];
    }
    assert DigitsValue("12") == 12 by {
      assert "12"[..1] == "1";
    }
    assert FracValue("5") == 0.5 by {
      assert "5"[1..] == [];
    }
  }

  /** A cell led by a space, with one decimal digit: " $12.5" reads as 12.5. */
  lemma PaddedCell()
    ensures ParseRate(" $12.5") == Some(12.5)
  {
    PaddedCellClean();
    Value12Point5();
    ParseRateText(" $12.5", " ", [], "12", true, "5", []);
  }

  /** "-$5.00" cleans to "-5.00". */
  lemma NegativeAmountClean()
    ensures CleanRate("-$5.00") == "-5.00"
  {
    assert Remove("-$5.00", '$') == "-5.00";
    RemoveAbsent("-5.00", ',');
  }

  /** "-5.00" is a decimal text denoting -5. */
  lemma ValueMinus5()
    ensures "-5.00" == [] + DecimalText("-", "5", true, "00") + []
    ensures DecimalForm("-", "5", true, "00") && SignedValue("-", "5", "00") == -5.0
  {
    assert DigitsValue("5") == 5 by {
      assert "5"[..0] == [];
    }
    assert FracValue("0") == 0.0 by {
      assert "0"[1..] == [];
    }
    assert FracValue("00") == 0.0 by {
      assert "00"[1..] == "0";
    }
  }

  /** A negative amount: "-$5.00" reads as -5. */
  lemma NegativeAmount()
    ensures ParseRate("-$5.00") == Some(-5.0)
  {
    NegativeAmountClean();
    ValueMinus5();
    ParseRateText("-$5.00", [], "-", "5", true, "00", []);
  }

  /** "\U{1C}$5.00" cleans to text that keeps the separator U+001C. */
  lemma SeparatorKept()
    ensures CleanRate("\U{1C}$5.00") == "\U{1C}5.00"
  {
    assert Remove("\U{1C}$5.00", '$') == "\U{1C}5.00";
    RemoveAbsent("\U{1C}5.00", ',');
  }

  /** float() does not skip the ASCII separator U+001C, so a cell led by one is malformed. */
  lemma SeparatorNotPadding()
    ensures ParseRate("\U{1C}$5.00").None?
  {
    SeparatorKept();
    assert "\U{1C}5.00"[0] == '\U{1C}' && !NumericChar('\U{1C}');
    MalformedResidueFails("\U{1C}$5.00", '\U{1C}');
  }
}
