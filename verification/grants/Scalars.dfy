/** Printed scalars can be read back, and read only as far as they go. */
module Scalars {
  import opened Prelude
  import opened Text
  import opened Canonical

  // What can stand behind a printed value: nothing, a comma, or a closing bracket.
  predicate Stop(x: string) {
    x == "" || x[0] == ',' || x[0] == ']' || x[0] == '}'
  }

  // --- strings ---

  lemma ShortIsInjective(c: char, d: char)
    requires ShortEscape(c).Some? && ShortEscape(c) == ShortEscape(d)
    ensures c == d
  {
  }

  lemma EscapeCharIsPrefixFree(c: char, u: string, d: char, w: string)
    requires EscapeChar(c) + u == EscapeChar(d) + w
    ensures c == d && u == w
  {
    hide ShortEscape;
    var e, f := EscapeChar(c), EscapeChar(d);
    var s := e + u;
    assert s[0] == e[0] == f[0];
    SlashEscapes(c);
    SlashEscapes(d);
    if |e| > 1 && |f| > 1 {
      assert s[1] == e[1] == f[1];
      if ShortEscape(c).Some? {
        ShortIsInjective(c, d);
      } else {
        assert s[4] == e[4] == f[4] && s[5] == e[5] == f[5];
      }
    }
    assert s[|e|..] == u && s[|f|..] == w;
  }

  lemma SlashEscapes(c: char)
    ensures ShortEscape(c).Some? ==> ShortEscape(c).value != 'u'
    ensures c == '\\' ==> ShortEscape(c).Some?
  {
  }

  lemma {:induction false} EscapeIsPrefixFree(a: string, x: string, b: string, y: string)
    requires Escape(a) + ("\"" + x) == Escape(b) + ("\"" + y)
    ensures a == b && x == y
  {
    hide EscapeChar;
    var s, t := Escape(a) + ("\"" + x), Escape(b) + ("\"" + y);
    if a != "" {
      assert s == EscapeChar(a[0]) + (Escape(a[1..]) + ("\"" + x));
    }
    if b != "" {
      assert t == EscapeChar(b[0]) + (Escape(b[1..]) + ("\"" + y));
    }
    if a != "" && b != "" {
      EscapeCharIsPrefixFree(a[0], Escape(a[1..]) + ("\"" + x), b[0], Escape(b[1..]) + ("\"" + y));
      EscapeIsPrefixFree(a[1..], x, b[1..], y);
      assert a == [a[0]] + a[1..] && b == [b[0]] + b[1..];
    } else {
      EndsTogether(a, x, b, y);
    }
  }

  lemma EndsTogether(a: string, x: string, b: string, y: string)
    requires Escape(a) + ("\"" + x) == Escape(b) + ("\"" + y) && (a == "" || b == "")
    ensures a == b && x == y
  {
    var s, t := Escape(a) + ("\"" + x), Escape(b) + ("\"" + y);
    NotAQuote(a, "\"" + x);
    NotAQuote(b, "\"" + y);
    assert Escape("") + ("\"" + x) == "\"" + x && Escape("") + ("\"" + y) == "\"" + y;
    assert a == b == "";
    assert s[1..] == x && t[1..] == y;
  }

  lemma NotAQuote(a: string, x: string)
    ensures a != "" ==> (Escape(a) + x)[0] != '"'
  {
    if a != "" {
      assert (Escape(a) + x)[0] == EscapeChar(a[0])[0];
    }
  }

  lemma QuoteIsPrefixFree(a: string, x: string, b: string, y: string)
    requires QuoteString(a) + x == QuoteString(b) + y
    ensures a == b && x == y
  {
    var s := QuoteString(a) + x;
    assert s == "\"" + (Escape(a) + ("\"" + x)) == "\"" + (Escape(b) + ("\"" + y));
    assert s[1..] == Escape(a) + ("\"" + x) == Escape(b) + ("\"" + y);
    EscapeIsPrefixFree(a, x, b, y);
  }

  // --- integers ---

  // Text that does not go on with a digit.
  predicate NoDigit(x: string) {
    x == "" || !Digit(x[0])
  }

  lemma DigitsArePrefixFree(m: nat, x: string, n: nat, y: string)
    requires Decimal(m) + x == Decimal(n) + y && NoDigit(x) && NoDigit(y)
    ensures m == n && x == y
  {
    hide Decimal;
    var a, b := Decimal(m), Decimal(n);
    SameRun(a, x, b, y);
    NumberOfDecimal(m);
    NumberOfDecimal(n);
  }

  lemma SameRun(a: string, x: string, b: string, y: string)
    requires (forall i :: 0 <= i < |a| ==> Digit(a[i])) && forall i :: 0 <= i < |b| ==> Digit(b[i])
    requires NoDigit(x) && NoDigit(y) && a + x == b + y
    ensures a == b && x == y
  {
    var s := a + x;
    assert |a| < |s| ==> s[|a|] == x[0];
    assert |b| < |s| ==> s[|b|] == y[0];
    assert forall i :: 0 <= i < |a| ==> s[i] == a[i];
    assert forall i :: 0 <= i < |b| ==> s[i] == b[i];
    assert |a| == |b|;
    assert s[..|a|] == a && s[..|b|] == b && s[|a|..] == x && s[|b|..] == y;
  }

  lemma IntIsPrefixFree(m: int, x: string, n: int, y: string)
    requires PrintInt(m) + x == PrintInt(n) + y && Stop(x) && Stop(y)
    ensures m == n && x == y
  {
    hide Decimal;
    IntStarts(m);
    IntStarts(n);
    SameStart(PrintInt(m), x, PrintInt(n), y);
    if m < 0 {
      assert PrintInt(m)[1..] == Decimal(-m) && PrintInt(n)[1..] == Decimal(-n);
      DigitsArePrefixFree(-m, x, -n, y);
    } else {
      DigitsArePrefixFree(m, x, n, y);
    }
  }

  lemma SameStart(a: string, x: string, b: string, y: string)
    requires a != "" && b != "" && a + x == b + y
    ensures a[0] == b[0] && a[1..] + x == b[1..] + y
  {
    assert (a + x)[0] == a[0] && (b + y)[0] == b[0];
    assert (a + x)[1..] == a[1..] + x && (b + y)[1..] == b[1..] + y;
  }

  lemma IntStarts(n: int)
    ensures PrintInt(n) != ""
    ensures if n < 0 then PrintInt(n)[0] == '-' else Digit(PrintInt(n)[0])
  {
    hide Decimal;
  }
}
