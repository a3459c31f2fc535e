/** Text: runs and occurrences, joining and repeating, decimal numbers. */
module Text {
  // Length of the longest prefix of `s` in a character class.
  function Run(p: char -> bool, s: string): (n: nat)
    ensures n <= |s|
    ensures forall i :: 0 <= i < n ==> p(s[i])
    ensures n < |s| ==> !p(s[n])
  {
    if s == "" || !p(s[0]) then 0 else 1 + Run(p, s[1..])
  }

  lemma RunIs(p: char -> bool, s: string, n: nat)
    requires n <= |s|
    requires forall i :: 0 <= i < n ==> p(s[i])
    requires n < |s| ==> !p(s[n])
    ensures Run(p, s) == n
  {
  }

  // --- occurrences ---

  predicate EndsWith(s: string, t: string) {
    |t| <= |s| && s[|s| - |t|..] == t
  }

  predicate OccursAt(s: string, m: string, i: nat) {
    i + |m| <= |s| && s[i..i + |m|] == m
  }

  // `indexOf`: the first occurrence at `from` or later, or -1.
  function IndexFrom(s: string, m: string, from: nat): (i: int)
    requires from <= |s|
    ensures i == -1 || from <= i <= |s| - |m|
    ensures i >= 0 ==> OccursAt(s, m, i)
    ensures forall j :: from <= j && OccursAt(s, m, j) ==> 0 <= i <= j
    decreases |s| - from
  {
    if OccursAt(s, m, from) then from
    else if from == |s| then -1
    else IndexFrom(s, m, from + 1)
  }

  function IndexOf(s: string, m: string): (i: int)
    ensures i == -1 || 0 <= i <= |s| - |m|
    ensures i >= 0 ==> OccursAt(s, m, i)
    ensures forall j :: OccursAt(s, m, j) ==> 0 <= i <= j
  {
    IndexFrom(s, m, 0)
  }

  // --- building text ---

  function JoinWith(parts: seq<string>, sep: string): string {
    if parts == [] then ""
    else if |parts| == 1 then parts[0]
    else parts[0] + (sep + JoinWith(parts[1..], sep))
  }

  function Split(s: string, c: char): (parts: seq<string>)
    ensures parts != []
  {
    if s == "" then [""]
    else
      var parts := Split(s[1..], c);
      if s[0] == c then [""] + parts else [[s[0]] + parts[0]] + parts[1..]
  }

  // Splitting and joining undo each other.
  lemma {:induction false} JoinOfSplit(s: string, c: char)
    ensures JoinWith(Split(s, c), [c]) == s
  {
    if s != "" {
      JoinOfSplit(s[1..], c);
      var parts := Split(s[1..], c);
      if s[0] == c {
        assert ([""] + parts)[1..] == parts;
        assert JoinWith([""] + parts, [c]) == "" + ([c] + JoinWith(parts, [c]));
      } else {
        LongerFirst(s[0], parts, [c]);
      }
      assert s == [s[0]] + s[1..];
    }
  }

  lemma LongerFirst(first: char, parts: seq<string>, sep: string)
    requires parts != []
    ensures JoinWith([[first] + parts[0]] + parts[1..], sep) == [first] + JoinWith(parts, sep)
  {
    var longer := [[first] + parts[0]] + parts[1..];
    assert longer[1..] == parts[1..];
  }

  lemma {:induction false} SplitOfPlain(s: string, c: char)
    requires c !in s
    ensures Split(s, c) == [s]
  {
    if s != "" {
      assert s == [s[0]] + s[1..] && s[0] in s;
      SplitOfPlain(s[1..], c);
    }
  }

  lemma {:induction false} SplitOfTwo(a: string, c: char, rest: string)
    requires c !in a
    ensures Split(a + ([c] + rest), c) == [a] + Split(rest, c)
    decreases |a|
  {
    var s := a + ([c] + rest);
    if a == "" {
      assert s[0] == c && s[1..] == rest;
    } else {
      assert a == [a[0]] + a[1..] && a[0] in a;
      assert s[0] == a[0] && s[1..] == a[1..] + ([c] + rest);
      SplitOfTwo(a[1..], c, rest);
      assert ([a[1..]] + Split(rest, c))[1..] == Split(rest, c);
    }
  }

  lemma {:induction false} SplitOfJoin(parts: seq<string>, c: char)
    requires parts != [] && forall i :: 0 <= i < |parts| ==> c !in parts[i]
    ensures Split(JoinWith(parts, [c]), c) == parts
  {
    if |parts| == 1 {
      SplitOfPlain(parts[0], c);
    } else {
      SplitOfJoin(parts[1..], c);
      SplitOfTwo(parts[0], c, JoinWith(parts[1..], [c]));
    }
  }

  lemma {:induction false} SplitLacks(s: string, sep: char, c: char)
    requires c !in s
    ensures forall i :: 0 <= i < |Split(s, sep)| ==> c !in Split(s, sep)[i]
  {
    if s != "" {
      assert s == [s[0]] + s[1..] && s[0] in s;
      SplitLacks(s[1..], sep, c);
    }
  }

  function Repeat(c: char, n: nat): string {
    if n == 0 then "" else [c] + Repeat(c, n - 1)
  }

  lemma {:induction false} RepeatIs(c: char, n: nat)
    ensures |Repeat(c, n)| == n && forall i :: 0 <= i < n ==> Repeat(c, n)[i] == c
  {
    if n > 0 {
      RepeatIs(c, n - 1);
    }
  }

  // --- letters ---

  // The letters, by their places in the alphabet.
  lemma LettersInOrder()
    ensures var capitals, letters := "ABCDEFGHIJKLMNOPQRSTUVWXYZ", "abcdefghijklmnopqrstuvwxyz";
            && (forall k :: 0 <= k < 26 ==> capitals[k] == 'A' + k as char && letters[k] == 'a' + k as char)
            && (forall c: char :: 'A' <= c <= 'Z' ==> c in capitals)
            && (forall c: char :: 'a' <= c <= 'z' ==> c in letters)
  {
  }

  // --- decimal numbers ---

  predicate Digit(c: char) {
    '0' <= c <= '9'
  }

  predicate Digits(s: string) {
    s != "" && forall i :: 0 <= i < |s| ==> Digit(s[i])
  }

  function Decimal(n: nat): (s: string)
    ensures Digits(s)
    ensures if n == 0 then s == "0" else s[0] != '0'
  {
    var last := [(n % 10) as char + '0'];
    if n < 10 then last else Decimal(n / 10) + last
  }

  function DigitValue(c: char): nat
    requires Digit(c)
  {
    c as int - '0' as int
  }

  function Number(s: string): nat
    requires forall i :: 0 <= i < |s| ==> Digit(s[i])
  {
    if s == "" then 0 else Number(s[..|s| - 1]) * 10 + DigitValue(s[|s| - 1])
  }

  // A printed number reads as itself.
  lemma {:induction false} NumberOfDecimal(n: nat)
    ensures Number(Decimal(n)) == n
  {
    var s := Decimal(n);
    if n >= 10 {
      NumberOfDecimal(n / 10);
      assert s[..|s| - 1] == Decimal(n / 10);
    } else {
      assert s[..|s| - 1] == "";
    }
  }
}
