/** Which quotes, backslashes and newlines a scan for the end of a string stops at. */
module Quotes {
  import opened Prelude
  import opened Lexer
  import opened Words

  // Quotes and newlines that are not escaped, in order; `esc` says that the first character is.
  function Marks(esc: bool, s: string): string
    decreases |s|
  {
    if s == "" then ""
    else if esc then Marks(false, s[1..])
    else if s[0] == '\\' then Marks(true, s[1..])
    else if s[0] in {'"', '\'', '\n'} then [s[0]] + Marks(false, s[1..])
    else Marks(false, s[1..])
  }

  // Does `s` end in an unfinished escape?
  predicate EndsEscaped(esc: bool, s: string)
    decreases |s|
  {
    if s == "" then esc
    else if esc then EndsEscaped(false, s[1..])
    else EndsEscaped(s[0] == '\\', s[1..])
  }

  lemma {:induction false} MarksConcat(esc: bool, a: string, b: string)
    ensures Marks(esc, a + b) == Marks(esc, a) + Marks(EndsEscaped(esc, a), b)
    ensures EndsEscaped(esc, a + b) == EndsEscaped(EndsEscaped(esc, a), b)
    decreases |a|
  {
    if a == "" {
      assert a + b == b;
    } else {
      assert (a + b)[1..] == a[1..] + b;
      MarksConcat(!esc && a[0] == '\\', a[1..], b);
    }
  }

  predicate StopsAt(quote: char, marks: string) {
    marks != "" && (marks[0] == quote || (marks[0] != '\n' && StopsAt(quote, marks[1..])))
  }

  // Whether a quote is closed on its line depends on the marks behind it only.
  lemma {:induction false} StringEndByMarks(quote: char, s: string)
    requires quote == '"' || quote == '\''
    ensures StringEnd(quote, s).Some? <==> StopsAt(quote, Marks(false, s))
    decreases |s|
  {
    if s == "" {
    } else if s[0] == '\\' {
      if |s| >= 2 {
        StringEndByMarks(quote, s[2..]);
        assert s[1..][1..] == s[2..];
        assert Marks(false, s) == Marks(true, s[1..]) == Marks(false, s[2..]);
      } else {
        assert Marks(true, s[1..]) == "";
      }
    } else {
      StringEndByMarks(quote, s[1..]);
    }
  }

  // No mark in the text between the quotes closes the string or breaks the line.
  predicate Clean(quote: char, inner: string) {
    && quote !in Marks(false, inner) && '\n' !in Marks(false, inner)
    && !EndsEscaped(false, inner)
  }

  lemma {:induction false} StringEndOfClean(quote: char, inner: string, tail: string)
    requires quote == '"' || quote == '\''
    requires Clean(quote, inner)
    ensures StringEnd(quote, inner + ([quote] + tail)) == Some(|inner| + 1)
    decreases |inner|
  {
    var s := inner + ([quote] + tail);
    if inner == "" {
      assert s[0] == quote;
    } else if inner[0] == '\\' {
      assert EndsEscaped(true, "");
      assert |inner| >= 2;
      assert EndsEscaped(true, inner[1..]) == EndsEscaped(false, inner[1..][1..]);
      assert inner[1..][1..] == inner[2..];
      assert Marks(true, inner[1..]) == Marks(false, inner[2..]);
      StringEndOfClean(quote, inner[2..], tail);
      assert s[2..] == inner[2..] + ([quote] + tail);
    } else {
      StringEndOfClean(quote, inner[1..], tail);
      assert s[1..] == inner[1..] + ([quote] + tail);
    }
  }

  lemma {:induction false} CleanOfStringEnd(quote: char, s: string)
    requires quote == '"' || quote == '\''
    requires StringEnd(quote, s).Some?
    ensures var n := StringEnd(quote, s).value;
            s[n - 1] == quote && Clean(quote, s[..n - 1])
    decreases |s|
  {
    var n := StringEnd(quote, s).value;
    var inner := s[..n - 1];
    if s[0] == '\\' {
      CleanOfStringEnd(quote, s[2..]);
      assert inner[2..] == s[2..][..n - 3];
      assert inner[1..][1..] == inner[2..];
      assert Marks(true, inner[1..]) == Marks(false, inner[2..]);
    } else if s[0] == quote {
      assert inner == "";
    } else {
      CleanOfStringEnd(quote, s[1..]);
      assert inner[1..] == s[1..][..n - 2];
    }
  }

  // The same marks, whatever stands before.
  ghost predicate SameMarks(a: string, b: string) {
    forall esc :: Marks(esc, a) == Marks(esc, b) && EndsEscaped(esc, a) == EndsEscaped(esc, b)
  }

  lemma SameMarksConcat(a: string, a': string, b: string, b': string)
    requires SameMarks(a, a') && SameMarks(b, b')
    ensures SameMarks(a + b, a' + b')
  {
    forall esc
      ensures Marks(esc, a + b) == Marks(esc, a' + b')
      ensures EndsEscaped(esc, a + b) == EndsEscaped(esc, a' + b')
    {
      MarksConcat(esc, a, b);
      MarksConcat(esc, a', b');
    }
  }

  lemma NoMarks(esc: bool, s: string)
    requires Unmarked(s) && (s != "" || !esc)
    ensures Marks(esc, s) == "" && !EndsEscaped(esc, s)
  {
  }

  lemma UnmarkedAlike(a: string, b: string)
    requires Unmarked(a) && Unmarked(b) && a != "" && b != ""
    ensures SameMarks(a, b)
  {
    forall esc
      ensures Marks(esc, a) == Marks(esc, b) && EndsEscaped(esc, a) == EndsEscaped(esc, b)
    {
      NoMarks(esc, a);
      NoMarks(esc, b);
    }
  }
}
