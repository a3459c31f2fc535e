/** `btoa` and `atob` (RFC 4648 section 4), and the URL-safe form built on them (section 5). */
module Base64 {
  import opened Prelude
  import opened Text

  type Byte = x: int | 0 <= x < 256

  type Sextet = x: int | 0 <= x < 64

  // --- groups of 24 bits ---

  function Group(a: Byte, b: Byte, c: Byte): (q: seq<Sextet>)
    ensures |q| == 4
  {
    var v := a * 0x1_0000 + b * 0x100 + c;
    [v / 0x4_0000, v / 0x1000 % 64, v / 64 % 64, v % 64]
  }

  function Ungroup(p: Sextet, q: Sextet, r: Sextet, s: Sextet): (b: seq<Byte>)
    ensures |b| == 3
  {
    var v := p * 0x4_0000 + q * 0x1000 + r * 64 + s;
    [v / 0x1_0000, v / 0x100 % 256, v % 256]
  }

  // A last group of one or two bytes is filled with zero bits, and cut to the sextets they reach.
  function Sextets(b: seq<Byte>): seq<Sextet> {
    if |b| == 0 then []
    else if |b| == 1 then Group(b[0], 0, 0)[..2]
    else if |b| == 2 then Group(b[0], b[1], 0)[..3]
    else Group(b[0], b[1], b[2]) + Sextets(b[3..])
  }

  // A last group of two or three sextets drops its last bits; a single one holds no byte.
  function Bytes(q: seq<Sextet>): seq<Byte> {
    if |q| <= 1 then []
    else if |q| == 2 then Ungroup(q[0], q[1], 0, 0)[..1]
    else if |q| == 3 then Ungroup(q[0], q[1], q[2], 0)[..2]
    else Ungroup(q[0], q[1], q[2], q[3]) + Bytes(q[4..])
  }

  // --- the alphabet ---

  function Symbol(q: Sextet): char {
    if q < 26 then (q + 65) as char
    else if q < 52 then (q + 71) as char
    else if q < 62 then (q - 4) as char
    else if q == 62 then '+'
    else '/'
  }

  function Code(c: char): Option<Sextet> {
    if 'A' <= c <= 'Z' then Some(c as int - 65)
    else if 'a' <= c <= 'z' then Some(c as int - 71)
    else if '0' <= c <= '9' then Some(c as int + 4)
    else if c == '+' then Some(62)
    else if c == '/' then Some(63)
    else None
  }

  function Symbols(q: seq<Sextet>): (s: string)
    ensures |s| == |q|
  {
    seq(|q|, i requires 0 <= i < |q| => Symbol(q[i]))
  }

  predicate Coded(s: string) {
    forall i :: 0 <= i < |s| ==> Code(s[i]).Some?
  }

  function Codes(s: string): (q: seq<Sextet>)
    requires Coded(s)
    ensures |q| == |s|
  {
    seq(|s|, i requires 0 <= i < |s| => Code(s[i]).value)
  }

  // --- binary strings: one character a byte ---

  predicate IsBinary(s: string) {
    forall i :: 0 <= i < |s| ==> s[i] as int < 256
  }

  function AsBytes(s: string): (b: seq<Byte>)
    requires IsBinary(s)
    ensures |b| == |s|
  {
    seq(|s|, i requires 0 <= i < |s| => s[i] as int)
  }

  function AsText(b: seq<Byte>): (s: string)
    ensures IsBinary(s) && AsBytes(s) == b
  {
    seq(|b|, i requires 0 <= i < |b| => b[i] as char)
  }

  // --- `btoa` and `atob` ---

  // How many characters short of a whole group.
  function Missing(n: nat): nat {
    (4 - n % 4) % 4
  }

  function Btoa(binary: string): string
    requires IsBinary(binary)
  {
    var q := Sextets(AsBytes(binary));
    Symbols(q) + Repeat('=', Missing(|q|))
  }

  predicate WhiteSpace(c: char) {
    c in {'\t', '\n', '\U{C}', '\r', ' '}
  }

  function WithoutWhiteSpace(s: string): string {
    if s == "" then ""
    else (if WhiteSpace(s[0]) then "" else [s[0]]) + WithoutWhiteSpace(s[1..])
  }

  // `=` is padding only at the end of a whole number of groups.
  function Unpadded(s: string): string {
    if |s| % 4 != 0 then s
    else if EndsWith(s, "==") then s[..|s| - 2]
    else if EndsWith(s, "=") then s[..|s| - 1]
    else s
  }

  // The browser's decoder also takes white space, missing padding and stray last bits.
  function Atob(s: string): (r: Option<string>)
    ensures r.Some? ==> IsBinary(r.value)
  {
    var t := Unpadded(WithoutWhiteSpace(s));
    if |t| % 4 == 1 || !Coded(t) then None else Some(AsText(Bytes(Codes(t))))
  }

  // --- the URL-safe form ---

  function Replace(s: string, from: char, to: char): (r: string)
    ensures |r| == |s|
  {
    seq(|s|, i requires 0 <= i < |s| => if s[i] == from then to else s[i])
  }

  function WithoutPadding(s: string): string {
    if s != "" && s[|s| - 1] == '=' then WithoutPadding(s[..|s| - 1]) else s
  }

  function Standard(s: string): (r: string)
    ensures |r| == |s|
  {
    Replace(Replace(s, '-', '+'), '_', '/')
  }

  function UrlSafe(s: string): (r: string)
    ensures |r| == |s|
  {
    Replace(Replace(s, '+', '-'), '/', '_')
  }

  function Repadded(s: string): string {
    Standard(s) + Repeat('=', Missing(|s|))
  }

  function Encode(b: seq<Byte>): string {
    WithoutPadding(UrlSafe(Btoa(AsText(b))))
  }

  function Decode(value: string): Option<seq<Byte>> {
    var r := Atob(Repadded(value));
    if r.Some? then Some(AsBytes(r.value)) else None
  }

  method BufferToBase64Url(bytes: array<Byte>) returns (s: string)
    ensures s == Encode(bytes[..])
  {
    var binary := "";
    for i := 0 to bytes.Length
      invariant binary == AsText(bytes[..i])
    {
      binary := binary + [bytes[i] as char];
    }
    assert bytes[..bytes.Length] == bytes[..];
    return WithoutPadding(Replace(Replace(Btoa(binary), '+', '-'), '/', '_'));
  }

  method Base64UrlToBuffer(value: string) returns (buffer: Option<array<Byte>>)
    ensures buffer.Some? <==> Decode(value).Some?
    ensures buffer.Some? ==> fresh(buffer.value) && buffer.value[..] == Decode(value).value
  {
    hide Atob, Repeat;
    var padded := Replace(Replace(value, '-', '+'), '_', '/');
    var binary := Atob(padded + Repeat('=', (4 - |padded| % 4) % 4));
    if binary.None? {
      return None;
    }
    var text := binary.value;
    var bytes := new Byte[|text|];
    for i := 0 to |text|
      invariant forall k :: 0 <= k < i ==> bytes[k] == text[k] as int
    {
      bytes[i] := text[i] as int;
    }
    assert bytes[..] == AsBytes(text);
    return Some(bytes);
  }
}
