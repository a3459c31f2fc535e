/** `parseChallenges`: a WWW-Authenticate header split into challenges. */
module Challenges {
  import opened Prelude
  import opened Text

  datatype Challenge = Challenge(scheme: string, params: map<string, string>)

  predicate Blank(c: char) {
    c == ' ' || c == '\t'
  }

  predicate Separator(c: char) {
    Blank(c) || c == ','
  }

  // Not one of the characters that end a word.
  predicate WordChar(c: char) {
    !Separator(c) && c != '='
  }

  predicate ValueChar(c: char) {
    !Separator(c)
  }

  // `strings.ToLower` on ASCII.
  function Lower(c: char): char {
    if 'A' <= c <= 'Z' then c + 32 as char else c
  }

  function ToLower(s: string): (r: string)
    ensures |r| == |s|
  {
    if s == "" then "" else [Lower(s[0])] + ToLower(s[1..])
  }

  // What follows an opening quote: the unescaped text, and the length up to and with the closing
  // quote (or the end).
  function QuotedText(s: string): (r: (string, nat))
    ensures r.1 <= |s|
    decreases |s|
  {
    if s == "" then ("", 0)
    else if s[0] == '\\' && |s| > 1 then
      var r := QuotedText(s[2..]);
      ([s[1]] + r.0, 2 + r.1)
    else if s[0] == '"' then ("", 1)
    else
      var r := QuotedText(s[1..]);
      ([s[0]] + r.0, 1 + r.1)
  }

  // `readParamValue`: the value at the start of `s` and its length.
  function ParamValue(s: string): (r: (string, nat))
    ensures r.1 <= |s|
  {
    if s != "" && s[0] == '"' then
      var r := QuotedText(s[1..]);
      (r.0, 1 + r.1)
    else
      var n := Run(ValueChar, s);
      (s[..n], n)
  }

  // Is the word in front of `s` a parameter name? (`==` is the padding of a token.)
  predicate Assigns(s: string) {
    s != "" && s[0] == '=' && !(|s| > 1 && s[1] == '=')
  }

  // A parameter without a challenge before it is dropped; a later one wins over an earlier one.
  function WithParam(out: seq<Challenge>, name: string, value: string): (r: seq<Challenge>)
    ensures |r| == |out|
  {
    if out == [] then out
    else
      var n := |out| - 1;
      out[n := out[n].(params := out[n].params[ToLower(name) := value])]
  }

  // What the parser reads next, and how far it goes.
  datatype Item = End | Param(name: string, value: string, len: nat) | Scheme(name: string, len: nat)

  function NextItem(s: string): (item: Item)
    ensures !item.End? ==> 0 < item.len <= |s|
  {
    var a := Run(Separator, s);
    var w := Run(WordChar, s[a..]);
    if w == 0 then End else ItemBehind(s[a..][..w], a + w, s[a + w..])
  }

  // `word` was read up to offset `from`, and `s` follows it.
  function ItemBehind(word: string, from: nat, s: string): (item: Item)
    ensures !item.End? && from <= item.len <= from + |s|
  {
    var b := Run(Blank, s);
    if Assigns(s[b..]) then
      var k := b + 1 + Run(Blank, s[b + 1..]);
      var v := ParamValue(s[k..]);
      Param(word, v.0, from + k + v.1)
    else Scheme(word, from + b)
  }

  // The rest of a header, with the challenges already read.
  function ParseRest(s: string, out: seq<Challenge>): seq<Challenge>
    decreases |s|
  {
    match NextItem(s)
    case End => out
    case Param(name, value, len) => ParseRest(s[len..], WithParam(out, name, value))
    case Scheme(name, len) => ParseRest(s[len..], out + [Challenge(name, map[])])
  }

  function Parse(header: string): seq<Challenge> {
    ParseRest(header, [])
  }

  // --- the source's loops ---

  method Skip(p: char -> bool, header: string, from: nat) returns (i: nat)
    requires from <= |header|
    ensures i == from + Run(p, header[from..])
  {
    i := from;
    while i < |header| && p(header[i])
      invariant from <= i <= |header|
      invariant from + Run(p, header[from..]) == i + Run(p, header[i..])
    {
      assert header[i..][1..] == header[i + 1..];
      i := i + 1;
    }
  }

  lemma QuotedAtEnd(header: string)
    ensures QuotedText(header[|header|..]) == ("", 0)
  {
  }

  lemma OneMore(b: string, c: char, rest: string)
    ensures b + [c] + rest == b + ([c] + rest)
  {
  }

  method ReadParamValue(header: string, from: nat) returns (value: string, end: nat)
    requires from <= |header|
    ensures var r := ParamValue(header[from..]);
            value == r.0 && end == from + r.1
  {
    var i := from;
    if i < |header| && header[i] == '"' {
      i := i + 1;
      assert header[from..][1..] == header[i..];
      ghost var all := QuotedText(header[i..]);
      var b := "";
      hide QuotedText;
      while i < |header|
        invariant from < i <= |header|
        invariant b + QuotedText(header[i..]).0 == all.0
        invariant i + QuotedText(header[i..]).1 == from + 1 + all.1
      {
        var c := header[i];
        if c == '\\' && i + 1 < |header| {
          OneMore(b, header[i + 1], QuotedText(header[i + 2..]).0);
          b := b + [header[i + 1]];
          i := i + 2;
          continue;
        }
        if c == '"' {
          return b, i + 1;
        }
        OneMore(b, c, QuotedText(header[i + 1..]).0);
        b := b + [c];
        i := i + 1;
      }
      QuotedAtEnd(header);
      return b, i;
    }
    var end' := Skip(ValueChar, header, from);
    assert header[from..end'] == header[from..][..end' - from];
    return header[from..end'], end';
  }

  lemma DropDrop(s: string, i: nat, n: nat)
    requires i + n <= |s|
    ensures s[i..][n..] == s[i + n..] && s[i..][..n] == s[i..i + n]
  {
  }

  // The word that starts an item, by positions in the header.
  lemma WordAt(header: string, i: nat, start: nat, e: nat)
    requires i <= |header|
    requires start == i + Run(Separator, header[i..])
    requires e == start + Run(WordChar, header[start..])
    ensures e == start ==> NextItem(header[i..]).End?
    ensures e > start ==> NextItem(header[i..]) == ItemBehind(header[start..e], e - i, header[e..])
  {
    hide ItemBehind, Run;
    DropDrop(header, i, start - i);
    DropDrop(header, i, e - i);
    DropDrop(header, start, e - start);
  }

  // The end of an item, by positions in the header.
  lemma BehindAt(header: string, word: string, from: nat, e: nat, j: nat)
    requires e <= |header| && j == e + Run(Blank, header[e..])
    ensures var assigns := j < |header| && header[j] == '=' && !(j + 1 < |header| && header[j + 1] == '=');
            ItemBehind(word, from, header[e..]) ==
            if assigns then
              var k := j + 1 + Run(Blank, header[j + 1..]);
              Param(word, ParamValue(header[k..]).0, from + (k - e) + ParamValue(header[k..]).1)
            else Scheme(word, from + (j - e))
  {
    hide ParamValue, Run;
    DropDrop(header, e, j - e);
    if j < |header| {
      DropDrop(header, e, j + 1 - e);
      var k := j + 1 + Run(Blank, header[j + 1..]);
      DropDrop(header, e, k - e);
    }
  }

  // One turn of the loop: the item at `i`.
  method ReadItem(header: string, i: nat) returns (item: Item)
    requires i <= |header|
    ensures item == NextItem(header[i..])
  {
    hide Run, ParamValue, NextItem, ItemBehind;
    var start := Skip(Separator, header, i);
    var e := Skip(WordChar, header, start);
    var word := header[start..e];
    WordAt(header, i, start, e);
    if word == "" {
      return End;
    }
    var j := Skip(Blank, header, e);
    BehindAt(header, word, e - i, e, j);
    if j < |header| && header[j] == '=' && !(j + 1 < |header| && header[j + 1] == '=') {
      var k := Skip(Blank, header, j + 1);
      var value, end := ReadParamValue(header, k);
      return Param(word, value, end - i);
    }
    return Scheme(word, j - i);
  }

  lemma ParseStep(header: string, i: nat, out: seq<Challenge>)
    requires i <= |header|
    ensures var item := NextItem(header[i..]);
            ParseRest(header[i..], out) ==
            if item.End? then out
            else if item.Param? then ParseRest(header[i + item.len..], WithParam(out, item.name, item.value))
            else ParseRest(header[i + item.len..], out + [Challenge(item.name, map[])])
  {
    hide WithParam, NextItem;
    var item := NextItem(header[i..]);
    if !item.End? {
      DropDrop(header, i, item.len);
    }
  }

  method ParseChallenges(header: string) returns (out: seq<Challenge>)
    ensures out == Parse(header)
  {
    hide WithParam, NextItem, ParseRest;
    out := [];
    var i := 0;
    assert header[0..] == header;
    while i < |header|
      invariant 0 <= i <= |header|
      invariant ParseRest(header[i..], out) == Parse(header)
      decreases |header| - i
    {
      ParseStep(header, i, out);
      var item := ReadItem(header, i);
      if item.End? {
        return;
      }
      if item.Param? {
        out := WithParam(out, item.name, item.value);
      } else {
        out := out + [Challenge(item.name, map[])];
      }
      i := i + item.len;
    }
    assert header[i..] == "";
    NothingLeft(out);
  }

  lemma NothingLeft(out: seq<Challenge>)
    ensures ParseRest("", out) == out
  {
  }
}
