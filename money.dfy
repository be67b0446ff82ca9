/** The `money` formatter of the dashboard.  Python formats the amount
    with `"{:,.2f}"` (comma thousands separator, dot decimal separator);
    that text is the input here.  The formatter then turns it into the
    Brazilian convention by three replacements through the marker "X":
    "," to "X", "." to ",", "X" to ".".  A missing amount, NaN, or a value
    that `float` refuses is shown as "R$ 0,00". */
module Money {

  /** `s.replace(a, b)` for one-character `a` and `b`. */
  function ReplaceChar(s: string, a: char, b: char): (r: string)
    ensures |r| == |s|
    ensures forall i :: 0 <= i < |s| ==> r[i] == (if s[i] == a then b else s[i])
    decreases |s|
  {
    if s == [] then []
    else [if s[0] == a then b else s[0]] + ReplaceChar(s[1..], a, b)
  }

  const Marker := 'X'

  /** `.replace(",", "X").replace(".", ",").replace("X", ".")`. */
  function SwapSeparators(s: string): string {
    ReplaceChar(ReplaceChar(ReplaceChar(s, ',', Marker), '.', ','), Marker, '.')
  }

  /** What the swap does to one character of a text without the marker. */
  function SwapChar(ch: char): char {
    if ch == ',' then '.' else if ch == '.' then ',' else ch
  }

  /** On a text without "X", every "," becomes ".", every "." becomes ","
      and every other character stays; the length is kept. */
  lemma SwapSeparatorsAt(s: string)
    requires Marker !in s
    ensures |SwapSeparators(s)| == |s|
    ensures forall i :: 0 <= i < |s| ==> SwapSeparators(s)[i] == SwapChar(s[i])
  {
  }

  /** A text that does contain the marker loses it: every "X" comes out
      as ".", and swapping twice does not give the text back. */
  lemma MarkerIsNotKept(s: string, i: int)
    requires 0 <= i < |s| && s[i] == Marker
    ensures SwapSeparators(s)[i] == '.'
    ensures SwapSeparators(SwapSeparators(s)) != s
  {
    var t := SwapSeparators(s);
    assert t[i] == '.';
    assert SwapSeparators(t)[i] == ',';
  }

  /** Swapping twice gives the text back, so no information is lost. */
  lemma SwapInvolutive(s: string)
    requires Marker !in s
    ensures SwapSeparators(SwapSeparators(s)) == s
  {
    var t := SwapSeparators(s);
    SwapSeparatorsAt(s);
    assert Marker !in t by {
      forall i | 0 <= i < |t| ensures t[i] != Marker {
        assert t[i] == SwapChar(s[i]);
      }
    }
    SwapSeparatorsAt(t);
  }

  // ---------------------------------------------------------------------
  // The shape of a formatted amount
  // ---------------------------------------------------------------------

  predicate IsDigit(ch: char) {
    '0' <= ch <= '9'
  }

  predicate Digits(s: string) {
    forall i :: 0 <= i < |s| ==> IsDigit(s[i])
  }

  /** An integer part written in groups of three digits separated by `t`:
      one to three leading digits, then zero or more `t` + three digits. */
  predicate Grouped(q: string, t: char)
    decreases |q|
  {
    (1 <= |q| <= 3 && Digits(q))
    || (|q| >= 5 && q[|q| - 4] == t && Digits(q[|q| - 3..]) && Grouped(q[..|q| - 4], t))
  }

  /** A fixed-point amount with two decimals, thousands separator `t` and
      decimal separator `d`, optionally negative: "1,234.56" is
      `Amount(_, ',', '.')`, "-1.234,56" is `Amount(_, '.', ',')`. */
  predicate Amount(s: string, t: char, d: char) {
    |s| >= 4 && s[|s| - 3] == d && Digits(s[|s| - 2..])
    && var ip := s[..|s| - 3];
       Grouped(ip, t) || (|ip| >= 2 && ip[0] == '-' && Grouped(ip[1..], t))
  }

  /** The swap commutes with taking a slice. */
  lemma SwapSlice(s: string, i: int, j: int)
    requires Marker !in s && 0 <= i <= j <= |s|
    ensures Marker !in s[i..j]
    ensures SwapSeparators(s[i..j]) == SwapSeparators(s)[i..j]
  {
    SwapSeparatorsAt(s);
    assert Marker !in s[i..j] by {
      forall k | i <= k < j ensures s[k] != Marker {
        assert s[k] in s;
      }
    }
    SwapSeparatorsAt(s[i..j]);
  }

  /** The swap keeps digits, so it keeps a digit group. */
  lemma SwapDigits(s: string)
    requires Marker !in s && Digits(s)
    ensures Digits(SwapSeparators(s))
  {
    SwapSeparatorsAt(s);
  }

  lemma {:induction false} GroupedSwap(q: string, t: char, t': char)
    requires Marker !in q && Grouped(q, t) && t' == SwapChar(t)
    ensures Grouped(SwapSeparators(q), t')
    decreases |q|
  {
    var r := SwapSeparators(q);
    SwapSeparatorsAt(q);
    if 1 <= |q| <= 3 && Digits(q) {
      SwapDigits(q);
    } else {
      var n := |q|;
      SwapSlice(q, 0, n - 4);
      SwapSlice(q, n - 3, n);
      SwapDigits(q[n - 3..]);
      GroupedSwap(q[..n - 4], t, t');
      assert r[..n - 4] == SwapSeparators(q[..n - 4]);
      assert r[n - 3..] == SwapSeparators(q[n - 3..]);
    }
  }

  /** The swap turns a "1,234.56"-style amount into a "1.234,56"-style one,
      and back. */
  lemma AmountSwap(s: string, t: char, d: char)
    requires Marker !in s && Amount(s, t, d) && {t, d} == {',', '.'}
    ensures Amount(SwapSeparators(s), SwapChar(t), SwapChar(d))
  {
    var r := SwapSeparators(s);
    var n := |s|;
    SwapSeparatorsAt(s);
    SwapSlice(s, 0, n - 3);
    SwapSlice(s, n - 2, n);
    SwapDigits(s[n - 2..]);
    var ip := s[..n - 3];
    if Grouped(ip, t) {
      GroupedSwap(ip, t, SwapChar(t));
    } else {
      SwapSlice(s, 1, n - 3);
      assert ip[1..] == s[1..n - 3];
      GroupedSwap(ip[1..], t, SwapChar(t));
      assert r[..n - 3][1..] == r[1..n - 3];
    }
  }

  /** A formatted amount never contains the marker. */
  lemma AmountHasNoMarker(s: string, t: char, d: char)
    requires Amount(s, t, d) && {t, d} == {',', '.'}
    ensures Marker !in s
  {
    if Marker in s {
      var i :| 0 <= i < |s| && s[i] == Marker;
      var n := |s|;
      if i < n - 3 {
        var ip := s[..n - 3];
        assert ip[i] == Marker;
        if Grouped(ip, t) {
          GroupedNoMarker(ip, t, i);
        } else {
          assert ip[1..][i - 1] == Marker;
          GroupedNoMarker(ip[1..], t, i - 1);
        }
      }
    }
  }

  lemma {:induction false} GroupedNoMarker(q: string, t: char, i: int)
    requires Grouped(q, t) && t != Marker && 0 <= i < |q|
    ensures q[i] != Marker
    decreases |q|
  {
    var n := |q|;
    if !(1 <= n <= 3 && Digits(q)) {
      if i < n - 4 {
        assert q[..n - 4][i] == q[i];
        GroupedNoMarker(q[..n - 4], t, i);
      } else if i > n - 4 {
        assert q[n - 3..][i - (n - 3)] == q[i];
      }
    }
  }

  /** A US-style amount and its Brazilian form correspond one to one:
      the swap maps each onto the other. */
  lemma AmountToBrazilian(s: string)
    requires Marker !in s
    ensures Amount(s, ',', '.') <==> Amount(SwapSeparators(s), '.', ',')
  {
    if Amount(s, ',', '.') {
      AmountSwap(s, ',', '.');
    }
    var r := SwapSeparators(s);
    if Amount(r, '.', ',') {
      AmountHasNoMarker(r, '.', ',');
      AmountSwap(r, '.', ',');
      SwapInvolutive(s);
    }
  }

  // ---------------------------------------------------------------------
  // money(x)
  // ---------------------------------------------------------------------

  /** The argument of `money`: `None`, a float NaN, a value whose
      `"{:,.2f}".format(float(x))` text is given, or one that
      `float` or the formatting refuses. */
  datatype MoneyInput = NoneValue | FloatNaN | Formatted(text: string) | Refused

  const Zero := "R$ 0,00"

  /** `money(x)`: the swap is applied to the whole text, prefix included. */
  function FormatMoney(x: MoneyInput): string {
    match x
    case Formatted(text) => SwapSeparators("R$ " + text)
    case _ => Zero
  }

  /** The swap works character by character, so it distributes over
      concatenation. */
  lemma SwapConcat(a: string, b: string)
    ensures SwapSeparators(a + b) == SwapSeparators(a) + SwapSeparators(b)
  {
    var l, r := SwapSeparators(a + b), SwapSeparators(a) + SwapSeparators(b);
    assert |l| == |r|;
    forall i | 0 <= i < |l| ensures l[i] == r[i] {
      if i < |a| {
        assert (a + b)[i] == a[i];
      } else {
        assert (a + b)[i] == b[i - |a|];
      }
    }
  }

  /** The prefix "R$ " holds no separator and no marker, so swapping the
      whole text is swapping the amount behind an unchanged prefix. */
  lemma FormatMoneyPrefix(text: string)
    ensures FormatMoney(Formatted(text)) == "R$ " + SwapSeparators(text)
  {
    SwapConcat("R$ ", text);
    assert SwapSeparators("R$ ") == "R$ " by {
      SwapSeparatorsAt("R$ ");
    }
  }

  /** The fallback shows exactly what a zero amount shows. */
  lemma FallbackIsZero()
    ensures FormatMoney(NoneValue) == FormatMoney(FloatNaN) == FormatMoney(Refused)
            == FormatMoney(Formatted("0.00")) == "R$ 0,00"
  {
    FormatMoneyPrefix("0.00");
    assert SwapSeparators("0.00") == "0,00" by {
      SwapSeparatorsAt("0.00");
    }
  }

  /** A formatted amount is shown as "R$ " followed by the same amount in
      the Brazilian convention, from which the original text is recovered. */
  lemma FormatMoneyBrazilian(text: string)
    requires Amount(text, ',', '.')
    ensures var r := FormatMoney(Formatted(text));
      |r| == |text| + 3 && r[..3] == "R$ "
      && Amount(r[3..], '.', ',') && SwapSeparators(r[3..]) == text
  {
    AmountHasNoMarker(text, ',', '.');
    AmountToBrazilian(text);
    SwapInvolutive(text);
    FormatMoneyPrefix(text);
    var r := FormatMoney(Formatted(text));
    assert r[3..] == SwapSeparators(text);
  }
}
