/** Base64 as arithmetic: a text and its bytes are the same number, in base 64 and in base 256. */
module Base64Numbers {
  import opened Prelude
  import opened Text
  import opened Base64
  import opened Base64Laws

  function Value(base: nat, digits: seq<nat>): nat {
    if digits == [] then 0 else Value(base, digits[..|digits| - 1]) * base + digits[|digits| - 1]
  }

  function Pow(base: nat, n: nat): nat {
    if n == 0 then 1 else Pow(base, n - 1) * base
  }

  // What the zero bits that fill up the last sextet multiply by.
  function Fill(n: nat): nat {
    if n % 3 == 1 then 16 else if n % 3 == 2 then 4 else 1
  }

  lemma {:induction false} ValueOfTwo(base: nat, a: seq<nat>, b: seq<nat>)
    ensures Value(base, a + b) == Value(base, a) * Pow(base, |b|) + Value(base, b)
    decreases |b|
  {
    if b == [] {
      assert a + b == a;
    } else {
      var n := |b| - 1;
      assert (a + b)[..|a + b| - 1] == a + b[..n];
      ValueOfTwo(base, a, b[..n]);
      Spread(Value(base, a), Pow(base, n), Value(base, b[..n]), base);
    }
  }

  lemma Spread(a: nat, p: nat, b: nat, base: nat)
    ensures (a * p + b) * base == a * (p * base) + b * base
  {
  }

  // Three bytes take four sextets.
  lemma {:induction false} SamePowers(n: nat)
    ensures Pow(64, (8 * n + 5) / 6) == Pow(256, n) * Fill(n)
  {
    hide Pow;
    if n < 3 {
      FewPowers();
    } else {
      SamePowers(n - 3);
      FourMore((8 * (n - 3) + 5) / 6);
      ThreeMore(n - 3);
      assert (8 * n + 5) / 6 == (8 * (n - 3) + 5) / 6 + 4;
    }
  }

  lemma FewPowers()
    ensures Pow(64, 0) == 1 && Pow(64, 2) == 0x1000 && Pow(64, 3) == 0x4_0000
    ensures Pow(256, 0) == 1 && Pow(256, 1) == 0x100 && Pow(256, 2) == 0x1_0000
  {
    assert Pow(64, 1) == 64;
  }

  lemma FourMore(n: nat)
    ensures Pow(64, n + 4) == Pow(64, n) * 0x100_0000
  {
    assert Pow(64, n + 1) == Pow(64, n) * 64;
    assert Pow(64, n + 2) == Pow(64, n + 1) * 64;
    assert Pow(64, n + 3) == Pow(64, n + 2) * 64;
  }

  lemma ThreeMore(n: nat)
    ensures Pow(256, n + 3) == Pow(256, n) * 0x100_0000
  {
    assert Pow(256, n + 1) == Pow(256, n) * 256;
    assert Pow(256, n + 2) == Pow(256, n + 1) * 256;
  }

  lemma OneMoreDigit(base: nat, s: seq<nat>, d: nat)
    ensures Value(base, s + [d]) == Value(base, s) * base + d
  {
    assert (s + [d])[..|s + [d]| - 1] == s;
  }

  lemma FewDigits(base: nat, a: nat, b: nat, c: nat, d: nat)
    ensures Value(base, []) == 0
    ensures Value(base, [a]) == a
    ensures Value(base, [a, b]) == a * base + b
    ensures Value(base, [a, b, c]) == Value(base, [a, b]) * base + c
    ensures Value(base, [a, b, c, d]) == Value(base, [a, b, c]) * base + d
  {
    hide Value;
    NoDigits(base);
    OneMoreDigit(base, [], a);
    OneMoreDigit(base, [a], b);
    OneMoreDigit(base, [a, b], c);
    OneMoreDigit(base, [a, b, c], d);
    assert [] + [a] == [a] && [a] + [b] == [a, b] && [a, b] + [c] == [a, b, c] && [a, b, c] + [d] == [a, b, c, d];
  }

  lemma NoDigits(base: nat)
    ensures Value(base, []) == 0
  {
  }

  // --- groups ---

  lemma GroupValue(a: Byte, b: Byte, c: Byte)
    ensures Value(64, Group(a, b, c)) == Value(256, [a, b, c])
  {
    hide Group, Value;
    GroupParts(a, b, c);
    FewDigits(64, a / 4, a % 4 * 16 + b / 16, b % 16 * 4 + c / 64, c % 64);
    FewDigits(256, a, b, c, 0);
  }

  lemma UngroupValue(p: Sextet, q: Sextet, r: Sextet, s: Sextet)
    ensures Value(256, Ungroup(p, q, r, s)) == Value(64, [p, q, r, s])
  {
    hide Ungroup, Value;
    UngroupParts(p, q, r, s);
    FewDigits(256, p * 4 + q / 16, q % 16 * 16 + r / 4, r % 4 * 64 + s, 0);
    FewDigits(64, p, q, r, s);
  }

  // --- the sextets of bytes, the bytes of sextets ---

  lemma {:induction false} SextetsValue(b: seq<Byte>)
    ensures Value(64, Sextets(b)) == Value(256, b) * Fill(|b|)
  {
    hide Value, Pow, Sextets, Fill;
    if |b| == 0 {
      NoValue();
    } else if |b| == 1 {
      assert b == [b[0]];
      OneByte(b[0]);
    } else if |b| == 2 {
      assert b == [b[0], b[1]];
      TwoBytes(b[0], b[1]);
    } else {
      var rest := b[3..];
      SextetsValue(rest);
      BytesOfSextets(rest);
      SamePowers(|rest|);
      SameFill(|rest|);
      LongValue(b);
      Filled(Value(256, [b[0], b[1], b[2]]), Pow(256, |rest|), Value(256, rest), Fill(|rest|));
    }
  }

  lemma SameFill(n: nat)
    ensures Fill(n + 3) == Fill(n)
  {
  }

  lemma NoValue()
    ensures Value(64, Sextets([])) == Value(256, []) * Fill(0)
    ensures Value(64, []) == Value(256, Bytes([])) * Fill(0)
  {
  }

  lemma OneByte(a: Byte)
    ensures Value(64, Sextets([a])) == Value(256, [a]) * Fill(1)
  {
    hide Group, Value;
    GroupParts(a, 0, 0);
    var q, r := a / 4, a % 4 * 16;
    assert Group(a, 0, 0)[..2] == [q, r];
    FewDigits(64, q, r, 0, 0);
    FewDigits(256, a, 0, 0, 0);
  }

  lemma TwoBytes(a: Byte, b: Byte)
    ensures Value(64, Sextets([a, b])) == Value(256, [a, b]) * Fill(2)
  {
    hide Group, Value;
    GroupParts(a, b, 0);
    var p, q, r := a / 4, a % 4 * 16 + b / 16, b % 16 * 4;
    assert Group(a, b, 0)[..3] == [p, q, r];
    FewDigits(64, p, q, r, 0);
    FewDigits(256, a, b, 0, 0);
  }

  lemma LongValue(b: seq<Byte>)
    requires |b| >= 3
    ensures var v := Value(256, [b[0], b[1], b[2]]);
            && Value(256, b) == v * Pow(256, |b[3..]|) + Value(256, b[3..])
            && Value(64, Sextets(b)) == v * Pow(64, |Sextets(b[3..])|) + Value(64, Sextets(b[3..]))
  {
    hide Group, Value, Pow;
    assert b == [b[0], b[1], b[2]] + b[3..];
    GroupValue(b[0], b[1], b[2]);
    ValueOfTwo(256, [b[0], b[1], b[2]], b[3..]);
    ValueOfTwo(64, Group(b[0], b[1], b[2]), Sextets(b[3..]));
  }

  lemma Filled(v: nat, p: nat, r: nat, fill: nat)
    ensures v * (p * fill) + r * fill == (v * p + r) * fill
  {
  }

  // The last bits, which no byte takes up, are dropped.
  lemma {:induction false} BytesValue(q: seq<Sextet>)
    requires |q| % 4 != 1
    ensures |q| == (8 * |Bytes(q)| + 5) / 6
    ensures Cut(Value(64, q), Value(256, Bytes(q)), Fill(|Bytes(q)|))
  {
    hide Value, Pow, Bytes, Fill;
    if |q| == 0 {
      NoBytes();
    } else if |q| == 2 {
      assert q == [q[0], q[1]];
      TwoSextets(q[0], q[1]);
    } else if |q| == 3 {
      assert q == [q[0], q[1], q[2]];
      ThreeSextets(q[0], q[1], q[2]);
    } else {
      var rest := Bytes(q[4..]);
      BytesValue(q[4..]);
      SamePowers(|rest|);
      SameFill(|rest|);
      LongBytes(q);
      Filled(Value(64, [q[0], q[1], q[2], q[3]]), Pow(256, |rest|), Value(256, rest), Fill(|rest|));
    }
  }

  // `v` is `w` with bits behind it that make no whole `fill`.
  predicate Cut(v: nat, w: nat, fill: nat) {
    w * fill <= v < w * fill + fill
  }

  lemma NoBytes()
    ensures Bytes([]) == [] && Cut(Value(64, []), Value(256, []), Fill(0))
  {
  }

  lemma TwoSextets(p: Sextet, q: Sextet)
    ensures |Bytes([p, q])| == 1 && Cut(Value(64, [p, q]), Value(256, Bytes([p, q])), Fill(1))
  {
    hide Ungroup, Value;
    UngroupParts(p, q, 0, 0);
    var a: int := p;
    var b: int := q;
    assert Ungroup(p, q, 0, 0)[..1] == [a * 4 + b / 16];
    FewDigits(64, p, q, 0, 0);
    FewDigits(256, a * 4 + b / 16, 0, 0, 0);
  }

  lemma ThreeSextets(p: Sextet, q: Sextet, r: Sextet)
    ensures |Bytes([p, q, r])| == 2 && Cut(Value(64, [p, q, r]), Value(256, Bytes([p, q, r])), Fill(2))
  {
    hide Ungroup, Value;
    UngroupParts(p, q, r, 0);
    var a: int := p;
    var b: int := q;
    var c: int := r;
    assert Ungroup(p, q, r, 0)[..2] == [a * 4 + b / 16, b % 16 * 16 + c / 4];
    FewDigits(64, p, q, r, 0);
    FewDigits(256, a * 4 + b / 16, b % 16 * 16 + c / 4, 0, 0);
  }

  lemma LongBytes(q: seq<Sextet>)
    requires |q| >= 4
    ensures var v, rest := Value(64, [q[0], q[1], q[2], q[3]]), Bytes(q[4..]);
            && |Bytes(q)| == 3 + |rest|
            && Value(64, q) == v * Pow(64, |q[4..]|) + Value(64, q[4..])
            && Value(256, Bytes(q)) == v * Pow(256, |rest|) + Value(256, rest)
  {
    hide Ungroup, Value, Pow;
    assert q == [q[0], q[1], q[2], q[3]] + q[4..];
    UngroupValue(q[0], q[1], q[2], q[3]);
    ValueOfTwo(64, [q[0], q[1], q[2], q[3]], q[4..]);
    ValueOfTwo(256, Ungroup(q[0], q[1], q[2], q[3]), Bytes(q[4..]));
  }

  // --- texts ---

  // RFC 4648 section 5, table 2
  const ALPHABET := "ABCDEFGHIJKLMNOPQRSTUVWXYZ" + "abcdefghijklmnopqrstuvwxyz" + "0123456789-_"

  // `s` is `digits` in that alphabet.
  predicate Spells(s: string, digits: seq<Sextet>) {
    |ALPHABET| == 64 && |s| == |digits| && forall i :: 0 <= i < |s| ==> s[i] == ALPHABET[digits[i]]
  }

  lemma SymbolIsSpelled(q: Sextet)
    ensures |ALPHABET| == 64 && UrlSafe([Symbol(q)]) == [ALPHABET[q]]
  {
    LettersInOrder();
    var capitals, letters, others := "ABCDEFGHIJKLMNOPQRSTUVWXYZ", "abcdefghijklmnopqrstuvwxyz", "0123456789-_";
    assert UrlSafe([Symbol(q)])[0] == if q < 26 then capitals[q] else if q < 52 then letters[q - 26] else others[q - 52];
  }

  lemma SymbolsAreSpelled(q: seq<Sextet>)
    ensures Spells(UrlSafe(Symbols(q)), q)
  {
    forall i | 0 <= i < |q|
      ensures |ALPHABET| == 64 && UrlSafe(Symbols(q))[i] == ALPHABET[q[i]]
    {
      SymbolIsSpelled(q[i]);
      assert UrlSafe([Symbol(q[i])])[0] == UrlSafe(Symbols(q))[i];
    }
    SymbolIsSpelled(0);
  }

  // The text is, as a number in base 64, the bytes as a number in base 256, filled up with zero bits
  // to whole sextets.
  lemma EncodeIsExact(b: seq<Byte>) returns (digits: seq<Sextet>)
    ensures Spells(Encode(b), digits) && |digits| == (8 * |b| + 5) / 6
    ensures Value(64, digits) == Value(256, b) * Fill(|b|)
  {
    hide Sextets, Encode, UrlSafe, Symbols, Value;
    digits := Sextets(b);
    EncodeIs(b);
    BytesOfSextets(b);
    SymbolsAreSpelled(digits);
    SextetsValue(b);
  }

  // What is decoded is the number without the bits that fill it up, whatever they are.
  lemma DecodeIsExact(s: string) returns (digits: seq<Sextet>)
    requires UrlText(s) && |s| % 4 != 1
    ensures Spells(s, digits) && Decode(s).Some?
    ensures var b := Decode(s).value;
            && |s| == (8 * |b| + 5) / 6
            && Cut(Value(64, digits), Value(256, b), Fill(|b|))
  {
    hide Bytes, Decode, UrlSafe, Standard, Symbols, Codes, Value;
    DecodeIs(s);
    StandardIsCoded(s);
    digits := Codes(Standard(s));
    SymbolsOfCodes(Standard(s));
    SymbolsAreSpelled(digits);
    BytesValue(digits);
  }

  // The standard alphabet is decoded like the URL-safe one.
  lemma EitherAlphabetDecodes(s: string)
    ensures Decode(UrlSafe(s)) == Decode(s)
  {
    hide Atob, Repeat;
    assert Standard(UrlSafe(s)) == Standard(s);
  }

  // A character of neither alphabet that is no white space and no `=` is refused.
  lemma ForeignIsRefused(s: string, i: nat)
    requires i < |s| && !UrlSymbol(s[i]) && s[i] !in {'+', '/', '=', '\t', '\n', '\U{C}', '\r', ' '}
    ensures Decode(s).None?
  {
    hide WithoutWhiteSpace, Repeat, Bytes;
    var t := Repadded(s);
    assert t[i] == s[i] && Code(s[i]).None?;
    var j := KeptChar(t, i);
    var u := WithoutWhiteSpace(t);
    assert Unpadded(u)[j] == s[i] by { NotCut(u, j); }
  }

  lemma {:induction false} KeptChar(s: string, i: nat) returns (j: nat)
    requires i < |s| && !WhiteSpace(s[i])
    ensures j < |WithoutWhiteSpace(s)| && WithoutWhiteSpace(s)[j] == s[i]
  {
    if i == 0 {
      j := 0;
    } else {
      j := KeptChar(s[1..], i - 1);
      j := if WhiteSpace(s[0]) then j else j + 1;
    }
  }

  lemma NotCut(s: string, j: nat)
    requires j < |s| && s[j] != '='
    ensures j < |Unpadded(s)| && Unpadded(s)[j] == s[j]
  {
    assert EndsWith(s, "==") ==> s[|s| - 2..][0] == '=' && s[|s| - 2..][1] == '=';
    assert EndsWith(s, "=") ==> s[|s| - 1..][0] == '=';
  }
}
