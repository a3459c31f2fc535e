/** Laws of `Base64`: what encoding and decoding undo of each other. */
module Base64Laws {
  import opened Prelude
  import opened Text
  import opened Base64

  // --- sextets ---

  lemma Quotient(v: nat, d: nat, q: nat, r: nat)
    requires v == q * d + r && r < d
    ensures v / d == q && v % d == r
  {
    var k := v / d;
    assert v == k * d + v % d;
    assert (k + 1) * d == k * d + d && (q + 1) * d == q * d + d;
  }

  lemma GroupParts(a: Byte, b: Byte, c: Byte)
    ensures Group(a, b, c) == [a / 4, a % 4 * 16 + b / 16, b % 16 * 4 + c / 64, c % 64]
  {
    GroupDigits(a / 4, a % 4, b / 16, b % 16, c / 64, c % 64);
  }

  lemma GroupDigits(ah: nat, al: nat, bh: nat, bl: nat, ch: nat, cl: nat)
    requires ah < 64 && al < 4 && bh < 16 && bl < 16 && ch < 4 && cl < 64
    ensures Group(ah * 4 + al, bh * 16 + bl, ch * 64 + cl) == [ah, al * 16 + bh, bl * 4 + ch, cl]
  {
    var (b, c) := (bh * 16 + bl, ch * 64 + cl);
    var v := (ah * 4 + al) * 0x1_0000 + b * 0x100 + c;
    Quotient(v, 0x4_0000, ah, al * 0x1_0000 + b * 0x100 + c);
    Quotient(v, 0x1000, ah * 64 + al * 16 + bh, bl * 0x100 + c);
    Quotient(ah * 64 + al * 16 + bh, 64, ah, al * 16 + bh);
    Quotient(v, 64, ah * 0x1000 + (al * 16 + bh) * 64 + bl * 4 + ch, cl);
    Quotient(ah * 0x1000 + (al * 16 + bh) * 64 + bl * 4 + ch, 64, ah * 64 + al * 16 + bh, bl * 4 + ch);
  }

  lemma UngroupParts(p: Sextet, q: Sextet, r: Sextet, s: Sextet)
    ensures Ungroup(p, q, r, s) == [p * 4 + q / 16, q % 16 * 16 + r / 4, r % 4 * 64 + s]
  {
    UngroupDigits(p, q / 16, q % 16, r / 4, r % 4, s);
  }

  lemma UngroupDigits(p: nat, qh: nat, ql: nat, rh: nat, rl: nat, s: nat)
    requires p < 64 && qh < 4 && ql < 16 && rh < 16 && rl < 4 && s < 64
    ensures Ungroup(p, qh * 16 + ql, rh * 4 + rl, s) == [p * 4 + qh, ql * 16 + rh, rl * 64 + s]
  {
    var (q, r) := (qh * 16 + ql, rh * 4 + rl);
    var v := p * 0x4_0000 + q * 0x1000 + r * 64 + s;
    Quotient(v, 0x1_0000, p * 4 + qh, ql * 0x1000 + r * 64 + s);
    Quotient(v, 0x100, (p * 4 + qh) * 0x100 + ql * 16 + rh, rl * 64 + s);
    Quotient((p * 4 + qh) * 0x100 + ql * 16 + rh, 0x100, p * 4 + qh, ql * 16 + rh);
  }

  lemma GroupUngroup(a: Byte, b: Byte, c: Byte)
    ensures var q := Group(a, b, c); Ungroup(q[0], q[1], q[2], q[3]) == [a, b, c]
    ensures b == c == 0 ==> Group(a, b, c)[2] == 0
    ensures c == 0 ==> Group(a, b, c)[3] == 0
  {
    hide Group, Ungroup;
    GroupParts(a, b, c);
    UngroupParts(a / 4, a % 4 * 16 + b / 16, b % 16 * 4 + c / 64, c % 64);
    Carried(a % 4, b / 16, 16);
    Carried(b % 16, c / 64, 4);
  }

  lemma Carried(high: nat, low: nat, d: nat)
    requires low < d
    ensures (high * d + low) / d == high && (high * d + low) % d == low
  {
    Quotient(high * d + low, d, high, low);
  }

  lemma UngroupGroup(p: Sextet, q: Sextet, r: Sextet, s: Sextet)
    ensures var b := Ungroup(p, q, r, s); Group(b[0], b[1], b[2]) == [p, q, r, s]
  {
    hide Group, Ungroup;
    var b := Ungroup(p, q, r, s);
    UngroupParts(p, q, r, s);
    GroupParts(b[0], b[1], b[2]);
  }

  lemma {:induction false} BytesOfSextets(b: seq<Byte>)
    ensures Bytes(Sextets(b)) == b
    ensures |Sextets(b)| == (8 * |b| + 5) / 6
    ensures |Sextets(b)| % 4 != 1
  {
    hide Group, Ungroup;
    if |b| == 1 {
      GroupUngroup(b[0], 0, 0);
    } else if |b| == 2 {
      GroupUngroup(b[0], b[1], 0);
    } else if |b| >= 3 {
      GroupUngroup(b[0], b[1], b[2]);
      BytesOfSextets(b[3..]);
      var q := Sextets(b);
      assert q[4..] == Sextets(b[3..]);
      assert b == [b[0], b[1], b[2]] + b[3..];
    }
  }

  // The bits of a last group that no byte takes up.
  predicate NoStrayBits(q: seq<Sextet>) {
    && (|q| % 4 == 2 ==> q[|q| - 1] % 16 == 0)
    && (|q| % 4 == 3 ==> q[|q| - 1] % 4 == 0)
  }

  lemma {:induction false} SextetsOfBytes(q: seq<Sextet>)
    requires |q| % 4 != 1
    ensures |Sextets(Bytes(q))| == |q|
    ensures Sextets(Bytes(q)) == q <==> NoStrayBits(q)
  {
    hide Group, Ungroup;
    if |q| == 2 {
      ShortTail(q[0], q[1]);
      assert q == [q[0], q[1]];
    } else if |q| == 3 {
      LongTail(q[0], q[1], q[2]);
      assert q == [q[0], q[1], q[2]];
    } else if |q| >= 4 {
      SextetsOfBytes(q[4..]);
      FirstGroup(q);
      StrayTail(q);
      assert q == [q[0], q[1], q[2], q[3]] + q[4..];
    }
  }

  lemma FirstGroup(q: seq<Sextet>)
    requires |q| >= 4
    ensures Sextets(Bytes(q)) == [q[0], q[1], q[2], q[3]] + Sextets(Bytes(q[4..]))
  {
    hide Group, Ungroup, Sextets, Bytes;
    var b := Ungroup(q[0], q[1], q[2], q[3]);
    UngroupFirst(q);
    UngroupGroup(q[0], q[1], q[2], q[3]);
    GroupFirst(b, Bytes(q[4..]));
  }

  lemma UngroupFirst(q: seq<Sextet>)
    requires |q| >= 4
    ensures Bytes(q) == Ungroup(q[0], q[1], q[2], q[3]) + Bytes(q[4..])
  {
    hide Ungroup;
  }

  lemma GroupFirst(a: seq<Byte>, b: seq<Byte>)
    requires |a| == 3
    ensures Sextets(a + b) == Group(a[0], a[1], a[2]) + Sextets(b)
  {
    hide Group;
    assert (a + b)[3..] == b;
  }

  lemma StrayTail(q: seq<Sextet>)
    requires |q| >= 4 && |q| % 4 != 1
    ensures NoStrayBits(q) <==> NoStrayBits(q[4..])
  {
  }

  lemma ShortTail(p: Sextet, q: Sextet)
    ensures Sextets(Bytes([p, q])) == [p, q] <==> q % 16 == 0
    ensures |Sextets(Bytes([p, q]))| == 2
  {
    hide Group, Ungroup;
    var b := Ungroup(p, q, 0, 0);
    UngroupParts(p, q, 0, 0);
    GroupParts(b[0], 0, 0);
    assert Bytes([p, q]) == [b[0]];
    assert Sextets([b[0]]) == [p, q / 16 * 16];
  }

  lemma LongTail(p: Sextet, q: Sextet, r: Sextet)
    ensures Sextets(Bytes([p, q, r])) == [p, q, r] <==> r % 4 == 0
    ensures |Sextets(Bytes([p, q, r]))| == 3
  {
    hide Group, Ungroup;
    var b := Ungroup(p, q, r, 0);
    UngroupParts(p, q, r, 0);
    GroupParts(b[0], b[1], 0);
    assert Bytes([p, q, r]) == [b[0], b[1]];
    assert Sextets([b[0], b[1]]) == [p, q, r / 4 * 4];
  }

  // --- symbols ---

  lemma CodesOfSymbols(q: seq<Sextet>)
    ensures Coded(Symbols(q)) && Codes(Symbols(q)) == q
  {
    forall i | 0 <= i < |q|
      ensures Code(Symbols(q)[i]) == Some(q[i])
    {
    }
  }

  lemma SymbolsOfCodes(s: string)
    requires Coded(s)
    ensures Symbols(Codes(s)) == s
  {
    forall i | 0 <= i < |s|
      ensures Symbol(Code(s[i]).value) == s[i]
    {
    }
  }

  predicate UrlSymbol(c: char) {
    'A' <= c <= 'Z' || 'a' <= c <= 'z' || '0' <= c <= '9' || c == '-' || c == '_'
  }

  // The URL-safe alphabet of RFC 4648 section 5.
  predicate UrlText(s: string) {
    forall i :: 0 <= i < |s| ==> UrlSymbol(s[i])
  }

  lemma UrlSafeIsUrlText(s: string)
    requires Coded(s)
    ensures UrlText(UrlSafe(s)) && Standard(UrlSafe(s)) == s
  {
    forall i | 0 <= i < |s|
      ensures UrlSymbol(UrlSafe(s)[i]) && Standard(UrlSafe(s))[i] == s[i]
    {
      assert Code(s[i]).Some?;
    }
  }

  lemma StandardIsCoded(s: string)
    requires UrlText(s)
    ensures Coded(Standard(s)) && UrlSafe(Standard(s)) == s
  {
    forall i | 0 <= i < |s|
      ensures Code(Standard(s)[i]).Some? && UrlSafe(Standard(s))[i] == s[i]
    {
      assert UrlSymbol(s[i]);
    }
  }

  // --- padding ---

  lemma {:induction false} PaddingFalls(s: string, n: nat)
    requires s == "" || s[|s| - 1] != '='
    ensures WithoutPadding(s + Repeat('=', n)) == s
  {
    RepeatIs('=', n);
    var t := s + Repeat('=', n);
    if n == 0 {
      assert t == s;
    } else {
      RepeatIs('=', n - 1);
      assert t[..|t| - 1] == s + Repeat('=', n - 1);
      PaddingFalls(s, n - 1);
    }
  }

  lemma PaddedUrlSafe(s: string, n: nat)
    ensures UrlSafe(s + Repeat('=', n)) == UrlSafe(s) + Repeat('=', n)
  {
    RepeatIs('=', n);
  }

  lemma {:induction false} NoWhiteSpace(s: string)
    requires forall i :: 0 <= i < |s| ==> !WhiteSpace(s[i])
    ensures WithoutWhiteSpace(s) == s
  {
    if s != "" {
      NoWhiteSpace(s[1..]);
    }
  }

  lemma PaddedIsPlain(s: string, n: nat)
    requires Coded(s)
    ensures WithoutWhiteSpace(s + Repeat('=', n)) == s + Repeat('=', n)
  {
    hide WithoutWhiteSpace, Repeat;
    RepeatIs('=', n);
    var t := s + Repeat('=', n);
    forall i | 0 <= i < |t|
      ensures !WhiteSpace(t[i])
    {
      assert i < |s| ==> Code(s[i]).Some?;
    }
    NoWhiteSpace(t);
  }

  // What was missing is what the decoder takes off; a lone last symbol leaves a `=` behind.
  lemma PaddedUnpadded(s: string)
    requires Coded(s)
    ensures var t := Unpadded(s + Repeat('=', Missing(|s|)));
            if |s| % 4 == 1 then !Coded(t) else t == s
  {
    hide Coded, Repeat;
    var n := Missing(|s|);
    RepeatIs('=', n);
    var p := s + Repeat('=', n);
    if s != "" {
      LastIsNoEquals(s);
    }
    if |s| % 4 == 0 {
      assert p == s;
    } else if |s| % 4 == 1 {
      assert p[|p| - 2..] == "==";
      EqualsIsNotCoded(p[..|p| - 2], |s|);
    } else if |s| % 4 == 2 {
      assert p[|p| - 2..] == "==";
    } else {
      assert p[|p| - 2] == s[|s| - 1] && p[|p| - 1..] == "=";
      assert p[|p| - 2..][0] != '=';
    }
  }

  lemma LastIsNoEquals(s: string)
    requires Coded(s) && s != ""
    ensures s[|s| - 1] != '='
  {
    assert Code(s[|s| - 1]).Some?;
  }

  lemma EqualsIsNotCoded(s: string, i: nat)
    requires i < |s| && s[i] == '='
    ensures !Coded(s)
  {
    assert Code(s[i]).None?;
  }

  // --- the two directions ---

  lemma EncodeIs(b: seq<Byte>)
    ensures Coded(Symbols(Sextets(b)))
    ensures Encode(b) == UrlSafe(Symbols(Sextets(b)))
  {
    hide Sextets, Repeat, UrlSafe, Standard, Symbols;
    var s := Symbols(Sextets(b));
    CodesOfSymbols(Sextets(b));
    PaddedUrlSafe(s, Missing(|s|));
    UrlSafeIsUrlText(s);
    var t := UrlSafe(s);
    assert t != "" ==> UrlSymbol(t[|t| - 1]);
    PaddingFalls(t, Missing(|s|));
  }

  lemma DecodeIs(s: string)
    requires UrlText(s)
    ensures Coded(Standard(s))
    ensures Decode(s) == if |s| % 4 == 1 then None else Some(Bytes(Codes(Standard(s))))
  {
    hide Bytes, Repeat, Standard, WithoutWhiteSpace, Unpadded, AsText, AsBytes, Coded, UrlText, Codes, Missing;
    StandardIsCoded(s);
    PaddedIsPlain(Standard(s), Missing(|s|));
    PaddedUnpadded(Standard(s));
  }

  // --- main results ---

  // Every buffer survives the trip; its text has no padding and restoring it gives `btoa`'s.
  lemma RoundTrip(b: seq<Byte>)
    ensures Decode(Encode(b)) == Some(b)
    ensures UrlText(Encode(b)) && |Encode(b)| == (8 * |b| + 5) / 6 && |Encode(b)| % 4 != 1
    ensures Repadded(Encode(b)) == Btoa(AsText(b))
  {
    hide Sextets, Encode, Decode, Symbols, Codes, Bytes, Standard, UrlSafe, Repeat;
    var q := Sextets(b);
    BytesOfSextets(b);
    EncodeIs(b);
    CodesOfSymbols(q);
    UrlSafeIsUrlText(Symbols(q));
    DecodeIs(Encode(b));
  }

  // A URL-safe text decodes unless one symbol stands alone at its end, and it is what its bytes
  // encode to just when the bits that no byte takes up are zero.
  lemma DecodeThenEncode(s: string)
    requires UrlText(s)
    ensures Decode(s).Some? <==> |s| % 4 != 1
    ensures Coded(Standard(s))
    ensures Decode(s).Some? ==> |Encode(Decode(s).value)| == |s|
    ensures Decode(s).Some? ==> (Encode(Decode(s).value) == s <==> NoStrayBits(Codes(Standard(s))))
  {
    hide Sextets, Encode, Decode, Symbols, Codes, Bytes, Standard, UrlSafe, Repeat, NoStrayBits;
    DecodeIs(s);
    if |s| % 4 != 1 {
      var q := Codes(Standard(s));
      var q' := Sextets(Bytes(q));
      SextetsOfBytes(q);
      EncodeIs(Bytes(q));
      SymbolsOfCodes(Standard(s));
      StandardIsCoded(s);
      CodesOfSymbols(q');
      UrlSafeIsUrlText(Symbols(q'));
    }
  }
}
