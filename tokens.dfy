/** The two string operations `filter` applies to its condition: splitting on the
    single-space character and stripping quote characters from both ends. */
module Tokens {

  /** Number of space characters in `s`. */
  function SpaceCount(s: string): nat
  {
    if |s| == 0 then 0 else (if s[0] == ' ' then 1 else 0) + SpaceCount(s[1..])
  }

  /** Tokens glued back together with one space between neighbours. */
  function JoinSpaces(ts: seq<string>): string
    requires |ts| > 0
  {
    if |ts| == 1 then ts[0] else ts[0] + " " + JoinSpaces(ts[1..])
  }

  /** Splitting on every single space: two adjacent spaces give an empty token,
      and the empty string gives one empty token. */
  function SplitSpaces(s: string): (r: seq<string>)
    ensures |r| == SpaceCount(s) + 1
    ensures forall k :: 0 <= k < |r| ==> ' ' !in r[k]
    ensures JoinSpaces(r) == s
  {
    if |s| == 0 then [""]
    else
      var rest := SplitSpaces(s[1..]);
      if s[0] == ' ' then [""] + rest
      else
        assert s == [s[0]] + s[1..];
        [[s[0]] + rest[0]] + rest[1..]
  }

  /** A token without spaces splits to itself. */
  lemma {:induction false} SplitWord(w: string)
    requires ' ' !in w
    ensures SplitSpaces(w) == [w]
  {
    if |w| > 0 {
      assert ' ' !in w[1..] by {
        forall k | 0 <= k < |w[1..]| ensures w[1..][k] != ' ' {
          assert w[1..][k] == w[k + 1];
        }
      }
      SplitWord(w[1..]);
      assert [w[0]] + w[1..] == w;
    }
  }

  /** A space-free token followed by a space starts the split with that token. */
  lemma {:induction false} SplitAfterWord(w: string, s: string)
    requires ' ' !in w
    ensures SplitSpaces(w + " " + s) == [w] + SplitSpaces(s)
  {
    var t := w + " " + s;
    if |w| == 0 {
      assert t == " " + s;
      assert t[1..] == s;
    } else {
      assert t[0] == w[0];
      assert t[1..] == w[1..] + " " + s;
      assert ' ' !in w[1..] by {
        forall k | 0 <= k < |w[1..]| ensures w[1..][k] != ' ' {
          assert w[1..][k] == w[k + 1];
        }
      }
      SplitAfterWord(w[1..], s);
      assert [w[0]] + w[1..] == w;
    }
  }

  /** Splitting undoes joining, for tokens that hold no space. */
  lemma {:induction false} SplitJoin(ts: seq<string>)
    requires |ts| > 0
    requires forall k :: 0 <= k < |ts| ==> ' ' !in ts[k]
    ensures SplitSpaces(JoinSpaces(ts)) == ts
  {
    if |ts| == 1 {
      SplitWord(ts[0]);
    } else {
      SplitJoin(ts[1..]);
      SplitAfterWord(ts[0], JoinSpaces(ts[1..]));
      assert [ts[0]] + ts[1..] == ts;
    }
  }

  /** Three space-free tokens separated by single spaces split back into exactly those three. */
  lemma SplitThree(a: string, b: string, c: string)
    requires ' ' !in a && ' ' !in b && ' ' !in c
    ensures SplitSpaces(a + " " + b + " " + c) == [a, b, c]
  {
    var bc := b + " " + c;
    assert a + " " + b + " " + c == a + " " + bc;
    SplitAfterWord(a, bc);
    SplitAfterWord(b, c);
    SplitWord(c);
    assert SplitSpaces(bc) == [b] + [c];
    assert SplitSpaces(a + " " + bc) == [a] + ([b] + [c]);
    assert [a] + ([b] + [c]) == [a, b, c];
  }

  // ---------------------------------------------------------------- quotes

  predicate IsQuote(c: char)
  {
    c == '\'' || c == '"'
  }

  /** Neither the first nor the last character is a quote. */
  predicate NoEdgeQuotes(s: string)
  {
    s == [] || (!IsQuote(s[0]) && !IsQuote(s[|s| - 1]))
  }

  /** Scanning forward from `i`: the position of the first non-quote character
      (or `|s|`), with only quotes in between. */
  function SkipLeadingQuotes(s: string, i: nat): (n: nat)
    requires i <= |s|
    ensures i <= n <= |s|
    ensures forall k :: i <= k < n ==> IsQuote(s[k])
    ensures n < |s| ==> !IsQuote(s[n])
    decreases |s| - i
  {
    if i < |s| && IsQuote(s[i]) then SkipLeadingQuotes(s, i + 1) else i
  }

  /** Scanning backward from `j` but not below `lo`: the end of the last
      non-quote character, with only quotes after it. */
  function SkipTrailingQuotes(s: string, lo: nat, j: nat): (n: nat)
    requires lo <= j <= |s|
    ensures lo <= n <= j
    ensures forall k :: n <= k < j ==> IsQuote(s[k])
    ensures lo < n ==> !IsQuote(s[n - 1])
    decreases j
  {
    if lo < j && IsQuote(s[j - 1]) then SkipTrailingQuotes(s, lo, j - 1) else j
  }

  /** Python's `value.strip("'\"")`: the middle piece of `s` left once every
      leading and every trailing single or double quote is removed. */
  function StripQuotes(s: string): (r: string)
    ensures |r| <= |s| && NoEdgeQuotes(r)
    ensures exists i, j ::
      && 0 <= i <= j <= |s| && r == s[i..j]
      && (forall k :: 0 <= k < i ==> IsQuote(s[k]))
      && (forall k :: j <= k < |s| ==> IsQuote(s[k]))
  {
    var i := SkipLeadingQuotes(s, 0);
    var j := SkipTrailingQuotes(s, i, |s|);
    assert forall k :: 0 <= k < i ==> IsQuote(s[k]);
    s[i..j]
  }

  /** The piece kept by stripping is determined by the bounds alone: any split
      of `s` into a quote-only head, a middle with no edge quotes and a
      quote-only tail yields exactly `StripQuotes(s)` as its middle. */
  lemma StripQuotesUnique(s: string, i: nat, j: nat)
    requires i <= j <= |s|
    requires forall k :: 0 <= k < i ==> IsQuote(s[k])
    requires forall k :: j <= k < |s| ==> IsQuote(s[k])
    requires i < j ==> !IsQuote(s[i]) && !IsQuote(s[j - 1])
    ensures StripQuotes(s) == s[i..j]
  {
    var a := SkipLeadingQuotes(s, 0);
    if i == j {
      assert forall k :: 0 <= k < |s| ==> IsQuote(s[k]);
      assert a == |s|;
    } else {
      assert a == i;
    }
  }

  /** Stripping twice strips nothing more. */
  lemma StripQuotesIdempotent(s: string)
    ensures StripQuotes(StripQuotes(s)) == StripQuotes(s)
  {
    var r := StripQuotes(s);
    assert r[0..|r|] == r;
    StripQuotesUnique(r, 0, |r|);
  }

  /** A string with no quote at either end is left as it is. */
  lemma StripQuotesKeepsUnquoted(s: string)
    requires NoEdgeQuotes(s)
    ensures StripQuotes(s) == s
  {
    assert s[0..|s|] == s;
    StripQuotesUnique(s, 0, |s|);
  }

  /** Stripping undoes wrapping a literal in single quotes. */
  lemma StripQuotesUnwraps(lit: string)
    requires NoEdgeQuotes(lit)
    ensures StripQuotes("'" + lit + "'") == lit
  {
    var tok := "'" + lit + "'";
    assert tok[1..|tok| - 1] == lit;
    StripQuotesUnique(tok, 1, |tok| - 1);
  }
}
