/** The numeric half of the literal coercion: a recognizer for plain decimal
    literals standing in for Python's `float(value)`, with exact `real` values. */
module Numbers {
  import opened Outcomes

  predicate IsDigit(c: char)
  {
    '0' <= c <= '9'
  }

  predicate AllDigits(s: string)
  {
    forall k :: 0 <= k < |s| ==> IsDigit(s[k])
  }

  /** The characters a decimal literal is made of. */
  predicate IsNumeral(c: char)
  {
    IsDigit(c) || c == '.' || c == '-' || c == '+'
  }

  /** Value of a digit string read in base ten (empty string reads as 0). */
  function DigitsValue(ds: string): nat
    requires AllDigits(ds)
  {
    if |ds| == 0 then 0
    else 10 * DigitsValue(ds[..|ds| - 1]) + ((ds[|ds| - 1] as int) - ('0' as int))
  }

  function Pow10(n: nat): (p: nat)
    ensures p >= 1
  {
    if n == 0 then 1 else 10 * Pow10(n - 1)
  }

  /** `n` divided by ten to the power `k`: the digits of `n` read with `k` of them after the point. */
  function Scale(n: nat, k: nat): real
  {
    n as real / Pow10(k) as real
  }

  /** Position of the first `c` in `s`, or `|s|` when there is none. */
  function IndexOf(s: string, c: char): (i: nat)
    ensures i <= |s|
    ensures i < |s| ==> s[i] == c
    ensures forall k :: 0 <= k < i ==> s[k] != c
  {
    if |s| == 0 || s[0] == c then 0 else 1 + IndexOf(s[1..], c)
  }

  /** The digits before and after the point read together: both parts made of
      digits, at least one digit in all. */
  function ParseParts(whole: string, frac: string): (r: Option<real>)
    ensures r.Some? <==> AllDigits(whole) && AllDigits(frac) && |whole| + |frac| > 0
    ensures r.Some? ==> r.value >= 0.0
  {
    if AllDigits(whole) && AllDigits(frac) && |whole| + |frac| > 0 then
      Some(DigitsValue(whole) as real + Scale(DigitsValue(frac), |frac|))
    else None
  }

  /** An unsigned decimal literal: digits, optionally a point and more digits,
      with at least one digit in all ("5", "5.", ".5", "05.50"). */
  function ParseUnsigned(body: string): (r: Option<real>)
    ensures r.Some? ==> r.value >= 0.0
    ensures r.Some? ==> 0 < |body| && forall k :: 0 <= k < |body| ==> IsDigit(body[k]) || body[k] == '.'
    ensures r.Some? ==> forall k, l :: 0 <= k < l < |body| && body[k] == '.' ==> body[l] != '.'
  {
    var dot := IndexOf(body, '.');
    var whole := body[..dot];
    var frac := if dot < |body| then body[dot + 1..] else "";
    var r := ParseParts(whole, frac);
    if r.Some? then
      assert forall k :: dot < k < |body| ==> body[k] == frac[k - dot - 1];
      assert forall k :: 0 <= k < dot ==> body[k] == whole[k];
      r
    else r
  }

  /** `float(value)` restricted to decimal literals with an optional sign:
      `Some(x)` when the token reads as the number `x`, `None` otherwise. */
  function ParseNumber(tok: string): (r: Option<real>)
    ensures r.Some? ==> 0 < |tok| && forall k :: 0 <= k < |tok| ==> IsNumeral(tok[k])
    ensures r.Some? ==> forall k :: 0 < k < |tok| ==> tok[k] != '-' && tok[k] != '+'
  {
    var signed := |tok| > 0 && (tok[0] == '-' || tok[0] == '+');
    var body := if signed then tok[1..] else tok;
    match ParseUnsigned(body)
    case None => None
    case Some(x) => Some(if signed && tok[0] == '-' then -x else x)
  }

  // ------------------------------------------------- integers written out

  function DigitChar(d: nat): (c: char)
    requires d < 10
  {
    ('0' as int + d) as char
  }

  /** Base-ten digits of `n`, most significant first, without leading zeros. */
  function NatToString(n: nat): (s: string)
    ensures |s| > 0 && AllDigits(s)
  {
    if n < 10 then [DigitChar(n)] else NatToString(n / 10) + [DigitChar(n % 10)]
  }

  /** An integer written as a decimal literal, with a leading `-` when negative. */
  function IntToString(n: int): string
  {
    if n < 0 then "-" + NatToString(-n) else NatToString(n)
  }

  lemma {:induction false} NatToStringValue(n: nat)
    ensures DigitsValue(NatToString(n)) == n
  {
    var s := NatToString(n);
    if n >= 10 {
      NatToStringValue(n / 10);
      assert s[..|s| - 1] == NatToString(n / 10);
    }
  }

  /** A digit string with no point reads as its integer value. */
  lemma {:induction false} ParseUnsignedDigits(ds: string)
    requires |ds| > 0 && AllDigits(ds)
    ensures ParseUnsigned(ds) == Some(DigitsValue(ds) as real)
  {
    var dot := IndexOf(ds, '.');
    assert dot < |ds| ==> IsDigit(ds[dot]);
    assert dot == |ds|;
    assert ds[..dot] == ds;
    assert DigitsValue("") == 0 && Pow10(0) == 1;
  }

  /** A digit string reads as its value. */
  lemma {:induction false} ParseNumberDigits(ds: string)
    requires |ds| > 0 && AllDigits(ds)
    ensures ParseNumber(ds) == Some(DigitsValue(ds) as real)
  {
    ParseUnsignedDigits(ds);
    assert IsDigit(ds[0]);
    assert !(ds[0] == '-' || ds[0] == '+');
  }

  /** A digit string after a minus reads as the negated value. */
  lemma {:induction false} ParseNumberNegDigits(tok: string)
    requires |tok| > 1 && tok[0] == '-' && AllDigits(tok[1..])
    ensures ParseNumber(tok) == Some(-(DigitsValue(tok[1..]) as real))
  {
    ParseUnsignedDigits(tok[1..]);
  }

  lemma Shift(a: int, p: int, b: int, d: int)
    ensures 10 * (a * p + b) + d == a * (10 * p) + (10 * b + d)
  {
  }

  lemma RealOfProduct(a: nat, p: nat)
    ensures (a * p) as real == a as real * p as real
  {
  }

  lemma AddFraction(x: real, y: real, p: real)
    requires p > 0.0
    ensures x + y / p == (x * p + y) / p
  {
  }

  /** Adding a whole number to a scaled fraction is scaling their shifted sum. */
  lemma ScaleSplit(a: nat, b: nat, k: nat)
    ensures a as real + Scale(b, k) == Scale(a * Pow10(k) + b, k)
  {
    var p := Pow10(k);
    RealOfProduct(a, p);
    AddFraction(a as real, b as real, p as real);
  }

  /** Appending digits shifts the value of the leading ones by a power of ten. */
  lemma {:induction false} DigitsValueAppend(w: string, f: string)
    requires AllDigits(w) && AllDigits(f)
    ensures AllDigits(w + f)
    ensures DigitsValue(w + f) == DigitsValue(w) * Pow10(|f|) + DigitsValue(f)
  {
    var wf := w + f;
    assert forall k :: 0 <= k < |wf| ==> wf[k] == (if k < |w| then w[k] else f[k - |w|]);
    if |f| > 0 {
      var n := |f| - 1;
      var d := (f[n] as int) - ('0' as int);
      assert wf[..|wf| - 1] == w + f[..n];
      assert wf[|wf| - 1] == f[n];
      DigitsValueAppend(w, f[..n]);
      assert DigitsValue(wf) == 10 * DigitsValue(w + f[..n]) + d;
      assert DigitsValue(f) == 10 * DigitsValue(f[..n]) + d;
      Shift(DigitsValue(w), Pow10(n), DigitsValue(f[..n]), d);
    } else {
      assert wf == w;
    }
  }

  /** The point of `w.f` splits it into its whole part `w` and fraction `f`. */
  lemma {:induction false} ParseUnsignedDecimal(w: string, f: string)
    requires AllDigits(w)
    ensures ParseUnsigned(w + "." + f) == ParseParts(w, f)
  {
    var tok := w + "." + f;
    assert IndexOf(tok, '.') == |w| by {
      assert tok[|w|] == '.';
      assert forall k :: 0 <= k < |w| ==> tok[k] == w[k];
    }
    assert tok[..|w|] == w && tok[|w| + 1..] == f;
  }

  /** A whole part and a fraction read as their digits together, scaled down
      by one power of ten per fractional digit. */
  lemma {:induction false} PartsValue(w: string, f: string)
    requires AllDigits(w) && AllDigits(f) && |w| + |f| > 0
    ensures AllDigits(w + f)
    ensures ParseParts(w, f) == Some(Scale(DigitsValue(w + f), |f|))
  {
    var a, b, k := DigitsValue(w), DigitsValue(f), |f|;
    assert ParseParts(w, f) == Some(a as real + Scale(b, k));
    DigitsValueAppend(w, f);
    var n := DigitsValue(w + f);
    assert n == a * Pow10(k) + b;
    ScaleSplit(a, b, k);
    assert a as real + Scale(b, k) == Scale(n, k);
  }

  /** A token that starts with neither sign is read as an unsigned literal. */
  lemma {:induction false} ParseNumberUnsigned(tok: string)
    requires tok == [] || (tok[0] != '-' && tok[0] != '+')
    ensures ParseNumber(tok) == ParseUnsigned(tok)
  {
  }

  /** A literal with a point, `w.f`, reads as the digits `wf` scaled down by
      one power of ten per fractional digit ("2.5" is 25 / 10, ".5" is 5 / 10,
      "5." is 5 / 1). */
  lemma {:induction false} ParseDecimal(w: string, f: string)
    requires AllDigits(w) && AllDigits(f) && |w| + |f| > 0
    ensures AllDigits(w + f)
    ensures ParseNumber(w + "." + f) == Some(Scale(DigitsValue(w + f), |f|))
  {
    var tok := w + "." + f;
    assert tok[0] != '-' && tok[0] != '+' by {
      if |w| > 0 { assert tok[0] == w[0]; } else { assert tok[0] == '.'; }
    }
    ParseNumberUnsigned(tok);
    ParseUnsignedDecimal(w, f);
    PartsValue(w, f);
  }

  /** An optional number that is present with value `x` is `Some(x)`. */
  lemma SomeValue(r: Option<real>, x: real)
    requires r.Some? && r.value == x
    ensures r == Some(x)
  {
  }

  /** A leading sign is read off before the unsigned literal: a minus negates
      its value, a plus keeps it, and the token fails exactly when the rest does. */
  lemma {:induction false} ParseNumberSigned(tok: string)
    requires |tok| > 0 && (tok[0] == '-' || tok[0] == '+')
    ensures ParseUnsigned(tok[1..]).None? ==> ParseNumber(tok).None?
    ensures ParseUnsigned(tok[1..]).Some? ==>
      ParseNumber(tok) == Some(if tok[0] == '-' then -ParseUnsigned(tok[1..]).value else ParseUnsigned(tok[1..]).value)
  {
    var u := ParseUnsigned(tok[1..]);
    if u.Some? {
      var x := if tok[0] == '-' then -u.value else u.value;
      assert ParseNumber(tok).Some? && ParseNumber(tok).value == x;
      SomeValue(ParseNumber(tok), x);
    }
  }

  /** Putting a minus sign in front of an unsigned literal negates the number it reads as. */
  lemma {:induction false} NegatedLiteral(u: string)
    requires ParseUnsigned(u).Some?
    ensures ParseNumber("-" + u) == Some(-ParseUnsigned(u).value)
  {
    var tok := "-" + u;
    assert tok[0] == '-' && tok[1..] == u;
    ParseNumberSigned(tok);
    assert ParseNumber(tok).Some? && ParseNumber(tok).value == -ParseUnsigned(u).value;
    SomeValue(ParseNumber(tok), -ParseUnsigned(u).value);
  }

  /** An unsigned literal with a point, `w.f`, reads as the digits `wf` scaled down
      by one power of ten per fractional digit. */
  lemma {:induction false} UnsignedDecimalValue(w: string, f: string)
    requires AllDigits(w) && AllDigits(f) && |w| + |f| > 0
    ensures AllDigits(w + f)
    ensures ParseUnsigned(w + "." + f) == Some(Scale(DigitsValue(w + f), |f|))
  {
    ParseUnsignedDecimal(w, f);
    PartsValue(w, f);
  }

  /** A negative literal with a point, `-w.f`, reads as the negated value of `w.f`
      ("-2.5" is -25 / 10, "-.5" is -5 / 10). */
  lemma {:induction false} ParseNegDecimal(w: string, f: string)
    requires AllDigits(w) && AllDigits(f) && |w| + |f| > 0
    ensures AllDigits(w + f)
    ensures ParseNumber("-" + (w + "." + f)).Some?
    ensures ParseNumber("-" + (w + "." + f)).value == -Scale(DigitsValue(w + f), |f|)
  {
    UnsignedDecimalValue(w, f);
    NegatedLiteral(w + "." + f);
  }

  /** Writing an integer out and reading it back as a number gives the integer. */
  lemma {:induction false} ParseIntToString(n: int)
    ensures ParseNumber(IntToString(n)) == Some(n as real)
  {
    var r := ParseNumber(IntToString(n));
    if n < 0 {
      var ds := NatToString(-n);
      NatToStringValue(-n);
      ParseUnsignedDigits(ds);
      NegatedLiteral(ds);
      assert r.Some? && r.value == n as real;
    } else {
      NatToStringValue(n);
      ParseNumberDigits(NatToString(n));
      assert r.Some? && r.value == n as real;
    }
    SomeValue(r, n as real);
  }
}
