/** `tokenize`: script source is split into code, string and comment segments. */
module Lexer {
  import opened Prelude

  datatype Kind = Code | Str | Comment

  datatype Segment = Segment(kind: Kind, text: string)

  function Join(segs: seq<Segment>): string {
    if segs == [] then "" else segs[0].text + Join(segs[1..])
  }

  // --- where strings, template text and comments end ---

  // `s` follows an opening quote. Offset past the closing quote, or None for a quote that is not
  // closed on its line.
  function StringEnd(quote: char, s: string): (r: Option<nat>)
    ensures r.Some? ==> 0 < r.value <= |s|
  {
    if s == "" then None
    else if s[0] == '\\' then
      if |s| < 2 then None else Shift(2, StringEnd(quote, s[2..]))
    else if s[0] == '\n' then None
    else if s[0] == quote then Some(1)
    else Shift(1, StringEnd(quote, s[1..]))
  }

  function Shift(n: nat, r: Option<nat>): Option<nat> {
    if r.None? then None else Some(r.value + n)
  }

  datatype TemplateEnd = Closed(len: nat) | Opens(len: nat) | Unterminated
  {
    function Plus(n: nat): TemplateEnd {
      match this
      case Closed(len) => Closed(len + n)
      case Opens(len) => Opens(len + n)
      case Unterminated => Unterminated
    }
  }

  // `s` follows a backtick or the `}` that closed an expression. Offset past the closing backtick
  // or past the `${` that opens an expression.
  function Template(s: string): (r: TemplateEnd)
    ensures !r.Unterminated? ==> 0 < r.len <= |s|
  {
    if s == "" then Unterminated
    else if s[0] == '\\' then
      if |s| < 2 then Unterminated else Template(s[2..]).Plus(2)
    else if s[0] == '`' then Closed(1)
    else if s[0] == '$' && |s| > 1 && s[1] == '{' then Opens(2)
    else Template(s[1..]).Plus(1)
  }

  // Length of a line comment: up to the newline, which is not part of it.
  function LineEnd(s: string): (n: nat)
    ensures n <= |s|
  {
    if s == "" || s[0] == '\n' then 0 else 1 + LineEnd(s[1..])
  }

  // `s` follows the `/*`. Offset past the closing `*/`, or the whole rest.
  function BlockEnd(s: string): (n: nat)
    ensures n <= |s|
  {
    if s == "" then 0
    else if "*/" <= s then 2
    else 1 + BlockEnd(s[1..])
  }

  // --- one step of the lexer ---

  // Brace depth of the current template expression (or of the top level), and the depths that
  // were saved when the enclosing expressions opened.
  datatype Nest = Nest(depth: int, saved: seq<int>)

  datatype Token = CodeChar(nest: Nest) | Whole(kind: Kind, len: nat, nest: Nest)

  const TOP := Nest(0, [])

  function Step(s: string, m: Nest): (tok: Token)
    requires s != ""
    ensures tok.Whole? ==> 0 < tok.len <= |s| && tok.kind != Code
  {
    var c, rest := s[0], s[1..];
    if "//" <= s then Whole(Comment, LineEnd(s), m)
    else if "/*" <= s then Whole(Comment, 2 + BlockEnd(s[2..]), m)
    else if c == '"' || c == '\'' then
      var end := StringEnd(c, rest);
      if end.None? then CodeChar(m) else Whole(Str, 1 + end.value, m)
    else if c == '`' then TemplateToken(rest, m)
    else if c == '{' then CodeChar(m.(depth := m.depth + 1))
    else if c == '}' then
      if m.depth == 0 && m.saved != [] then
        TemplateToken(rest, Nest(m.saved[|m.saved| - 1], m.saved[..|m.saved| - 1]))
      else CodeChar(m.(depth := m.depth - 1))
    else CodeChar(m)
  }

  // Template text whose first character was already read.
  function TemplateToken(rest: string, m: Nest): (tok: Token)
    ensures tok.Whole? && tok.kind == Str && 0 < tok.len <= 1 + |rest|
  {
    match Template(rest)
    case Closed(n) => Whole(Str, 1 + n, m)
    case Opens(n) => Whole(Str, 1 + n, Nest(0, m.saved + [m.depth]))
    case Unterminated => Whole(Str, 1 + |rest|, m)
  }

  // --- the segments of a source ---

  // How many characters belong to the code segment at the start of `s`, and the nesting behind it.
  function CodeSpan(s: string, m: Nest): (r: (nat, Nest))
    ensures r.0 <= |s|
    ensures r.0 == 0 ==> r.1 == m
    ensures s != "" && Step(s, m).CodeChar? ==> r.0 > 0
  {
    if s == "" || Step(s, m).Whole? then (0, m)
    else
      var r := CodeSpan(s[1..], Step(s, m).nest);
      (1 + r.0, r.1)
  }

  function Lex(s: string, m: Nest): seq<Segment>
    decreases |s|
  {
    if s == "" then []
    else match Step(s, m)
      case CodeChar(_) =>
        var (n, m') := CodeSpan(s, m);
        [Segment(Code, s[..n])] + Lex(s[n..], m')
      case Whole(kind, n, m') =>
        [Segment(kind, s[..n])] + Lex(s[n..], m')
  }

  // What the loop of `tokenize` still produces with `code` pending.
  function LexPending(code: string, s: string, m: Nest): (r: seq<Segment>)
    ensures s == "" ==> r == Flush(code)
  {
    var (n, m') := CodeSpan(s, m);
    if code == "" then Lex(s, m)
    else
      assert s == "" ==> code + s[..n] == code && s[n..] == "";
      [Segment(Code, code + s[..n])] + Lex(s[n..], m')
  }

  lemma PendingCode(code: string, s: string, m: Nest)
    requires s != "" && Step(s, m).CodeChar?
    ensures LexPending(code, s, m) == LexPending(code + [s[0]], s[1..], Step(s, m).nest)
  {
    hide Step;
    var n, m' := CodeSpan(s, m).0, CodeSpan(s, m).1;
    var r := CodeSpan(s[1..], Step(s, m).nest);
    assert n == 1 + r.0 && m' == r.1;
    assert s[1..][r.0..] == s[n..];
    assert code + s[..n] == code + [s[0]] + s[1..][..r.0];
    assert code == "" ==> code + s[..n] == s[..n];
  }

  lemma PendingWhole(code: string, s: string, m: Nest)
    requires s != "" && Step(s, m).Whole?
    ensures var tok := Step(s, m);
            LexPending(code, s, m) ==
            Flush(code) + ([Segment(tok.kind, s[..tok.len])] + LexPending("", s[tok.len..], tok.nest))
  {
    hide Step;
    assert CodeSpan(s, m) == (0, m);
    assert s[0..] == s && code + s[..0] == code;
    assert Flush("") == [];
  }

  lemma PendingStart(src: string)
    ensures LexPending("", src[0..], TOP) == Lex(src, TOP)
  {
    assert src[0..] == src;
  }

  // One token or one code character moves from the rest of the source to what was read.
  lemma Advance(src: string, i: nat, segments: seq<Segment>, code: string, m: Nest, all: seq<Segment>)
    requires i < |src| && segments + LexPending(code, src[i..], m) == all
    ensures var tok := Step(src[i..], m);
            if tok.Whole? then
              segments + Flush(code) + [Segment(tok.kind, src[i..i + tok.len])]
              + LexPending("", src[i + tok.len..], tok.nest) == all
            else segments + LexPending(code + [src[i]], src[i + 1..], tok.nest) == all
  {
    hide Step, LexPending;
    var s := src[i..];
    var tok := Step(s, m);
    if tok.Whole? {
      PendingWhole(code, s, m);
      assert s[tok.len..] == src[i + tok.len..] && s[..tok.len] == src[i..i + tok.len];
    } else {
      PendingCode(code, s, m);
      assert s[1..] == src[i + 1..];
    }
  }

  // `Step` at a position of the source, branch by branch.
  lemma StepAt(src: string, i: nat, m: Nest)
    requires i < |src|
    ensures var c, tok := src[i], Step(src[i..], m);
            var next := if i + 1 < |src| then src[i + 1] else ' ';
            if c == '/' && next == '/' then tok == Whole(Comment, LineEnd(src[i..]), m)
            else if c == '/' && next == '*' then tok == Whole(Comment, 2 + BlockEnd(src[i + 2..]), m)
            else if c == '"' || c == '\'' then
              var end := StringEnd(c, src[i + 1..]);
              tok == if end.None? then CodeChar(m) else Whole(Str, 1 + end.value, m)
            else if c == '`' then tok == TemplateToken(src[i + 1..], m)
            else if c == '{' then tok == CodeChar(m.(depth := m.depth + 1))
            else if c == '}' && m.depth == 0 && m.saved != [] then
              tok == TemplateToken(src[i + 1..], Nest(m.saved[|m.saved| - 1], m.saved[..|m.saved| - 1]))
            else if c == '}' then tok == CodeChar(m.(depth := m.depth - 1))
            else tok == CodeChar(m)
  {
    hide LineEnd, BlockEnd, StringEnd, TemplateToken;
    var s := src[i..];
    assert s[0] == src[i] && s[1..] == src[i + 1..];
    if i + 1 < |src| {
      assert s[1] == src[i + 1] && s[2..] == src[i + 2..];
    }
    assert "//" == ['/', '/'] && "/*" == ['/', '*'];
  }

  function Flush(code: string): seq<Segment> {
    if code == "" then [] else [Segment(Code, code)]
  }

  // --- the source's loops ---

  method FindStringEnd(src: string, start: nat) returns (end: int)
    requires start < |src|
    ensures var r := StringEnd(src[start], src[start + 1..]);
            end == if r.None? then -1 else start + 1 + r.value
  {
    var quote := src[start];
    var j := start + 1;
    while j < |src|
      invariant start < j
      invariant j <= |src| ==> Shift(j - start - 1, StringEnd(quote, src[j..])) == StringEnd(quote, src[start + 1..])
      invariant j > |src| ==> StringEnd(quote, src[start + 1..]).None?
    {
      var ch := src[j];
      assert src[j..][1..] == src[j + 1..];
      if ch == '\\' {
        if j + 2 <= |src| {
          assert src[j..][2..] == src[j + 2..];
        }
        j := j + 2;
        continue;
      }
      if ch == '\n' {
        return -1;
      }
      if ch == quote {
        return j + 1;
      }
      j := j + 1;
    }
    return -1;
  }

  // `Template` at a position of the source, branch by branch.
  lemma TemplateAt(src: string, j: nat)
    requires j < |src|
    ensures Template(src[j..]) ==
            if src[j] == '\\' then
              if j + 2 <= |src| then Template(src[j + 2..]).Plus(2) else Unterminated
            else if src[j] == '`' then Closed(1)
            else if src[j] == '$' && j + 1 < |src| && src[j + 1] == '{' then Opens(2)
            else Template(src[j + 1..]).Plus(1)
  {
    var s := src[j..];
    assert s[1..] == src[j + 1..];
    if j + 2 <= |src| {
      assert s[2..] == src[j + 2..];
    }
  }

  method ReadTemplateText(src: string, from: nat) returns (end: nat, opensExpr: bool)
    requires from < |src|
    ensures match Template(src[from + 1..])
            case Closed(n) => end == from + 1 + n && !opensExpr
            case Opens(n) => end == from + 1 + n && opensExpr
            case Unterminated => end == |src| && !opensExpr
  {
    hide Template;
    ghost var whole := Template(src[from + 1..]);
    var j := from + 1;
    while j < |src|
      invariant from < j
      invariant j <= |src| ==> Template(src[j..]).Plus(j - from - 1) == whole
      invariant j > |src| ==> whole.Unterminated?
    {
      var ch := src[j];
      TemplateAt(src, j);
      if ch == '\\' {
        j := j + 2;
        continue;
      }
      if ch == '`' {
        return j + 1, false;
      }
      if ch == '$' && j + 1 < |src| && src[j + 1] == '{' {
        return j + 2, true;
      }
      j := j + 1;
    }
    return |src|, false;
  }

  // `src.indexOf("\n", from)`, with the end of the source for -1.
  method IndexOfNewline(src: string, from: nat) returns (end: nat)
    requires from <= |src|
    ensures end == from + LineEnd(src[from..])
  {
    end := from;
    while end < |src| && src[end] != '\n'
      invariant from <= end <= |src|
      invariant from + LineEnd(src[from..]) == end + LineEnd(src[end..])
    {
      assert src[end..][1..] == src[end + 1..];
      end := end + 1;
    }
  }

  // The end of a block comment: `src.indexOf("*/", from)` plus two, or the end of the source.
  method IndexPastClose(src: string, from: nat) returns (end: nat)
    requires from <= |src|
    ensures end == from + BlockEnd(src[from..])
  {
    end := from;
    while end < |src|
      invariant from <= end <= |src|
      invariant from + BlockEnd(src[from..]) == end + BlockEnd(src[end..])
    {
      assert src[end..][1..] == src[end + 1..];
      if "*/" <= src[end..] {
        return end + 2;
      }
      end := end + 1;
    }
  }

  // `pushTemplate`: the end of a piece of template text, and the nesting behind it.
  method PushTemplate(src: string, from: nat, depth: int, exprDepths: seq<int>)
    returns (end: nat, depth': int, exprDepths': seq<int>)
    requires from < |src|
    ensures var tok := TemplateToken(src[from + 1..], Nest(depth, exprDepths));
            && tok.kind == Str
            && from < end <= |src| && end == from + tok.len
            && Nest(depth', exprDepths') == tok.nest
  {
    var opensExpr;
    end, opensExpr := ReadTemplateText(src, from);
    depth', exprDepths' := depth, exprDepths;
    if opensExpr {
      exprDepths' := exprDepths + [depth];
      depth' := 0;
    }
  }

  // The branches of the loop of `tokenize`: what starts at `i`, and where it ends.
  method ReadToken(src: string, i: nat, depth: int, exprDepths: seq<int>)
    returns (kind: Kind, end: nat, depth': int, exprDepths': seq<int>)
    requires i < |src|
    ensures if kind == Code then end == i + 1 else i < end <= |src|
    ensures Step(src[i..], Nest(depth, exprDepths)) ==
            if kind == Code then CodeChar(Nest(depth', exprDepths'))
            else Whole(kind, end - i, Nest(depth', exprDepths'))
  {
    hide Step, TemplateToken;
    StepAt(src, i, Nest(depth, exprDepths));
    var ch := src[i];
    kind, end, depth', exprDepths' := Code, i + 1, depth, exprDepths;
    if ch == '/' && i + 1 < |src| && src[i + 1] == '/' {
      end := IndexOfNewline(src, i);
      kind := Comment;
    } else if ch == '/' && i + 1 < |src| && src[i + 1] == '*' {
      end := IndexPastClose(src, i + 2);
      kind := Comment;
    } else if ch == '"' || ch == '\'' {
      var close := FindStringEnd(src, i);
      // An unterminated quote is prose, not a string.
      if close != -1 {
        kind, end := Str, close;
      }
    } else if ch == '`' {
      kind := Str;
      end, depth', exprDepths' := PushTemplate(src, i, depth, exprDepths);
    } else if ch == '{' {
      depth' := depth + 1;
    } else if ch == '}' {
      if depth == 0 && |exprDepths| > 0 {
        var n := |exprDepths| - 1;
        kind := Str;
        end, depth', exprDepths' := PushTemplate(src, i, exprDepths[n], exprDepths[..n]);
      } else {
        depth' := depth - 1;
      }
    }
  }

  method Tokenize(src: string) returns (segments: seq<Segment>)
    ensures segments == Lex(src, TOP)
  {
    hide LexPending, Lex, Flush, Step;
    segments := [];
    var exprDepths: seq<int> := [];
    var depth := 0;
    var code := "";
    var i := 0;
    ghost var all := Lex(src, TOP);
    PendingStart(src);
    assert TOP == Nest(depth, exprDepths);
    while i < |src|
      invariant 0 <= i <= |src|
      invariant segments + LexPending(code, src[i..], Nest(depth, exprDepths)) == all
      decreases |src| - i
    {
      Advance(src, i, segments, code, Nest(depth, exprDepths), all);
      var kind, end;
      kind, end, depth, exprDepths := ReadToken(src, i, depth, exprDepths);
      if kind == Code {
        code := code + [src[i]];
      } else {
        segments := segments + Flush(code) + [Segment(kind, src[i..end])];
        code := "";
      }
      i := end;
    }
    assert src[i..] == "";
    segments := segments + Flush(code);
  }
}
