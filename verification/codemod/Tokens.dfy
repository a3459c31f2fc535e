/** What code, strings and comments look like: the shapes of the segments a source falls into. */
module Tokens {
  import opened Prelude
  import opened Text
  import opened Lexer
  import opened Structure
  import opened Nesting

  // --- the shapes ---

  // Escapes, and characters that neither close the string nor end the line.
  predicate StringText(quote: char, s: string)
    decreases |s|
  {
    s == "" ||
    if s[0] == '\\' then |s| >= 2 && StringText(quote, s[2..])
    else s[0] != quote && s[0] != '\n' && StringText(quote, s[1..])
  }

  predicate Opener(s: string) {
    |s| > 1 && s[0] == '$' && s[1] == '{'
  }

  // Escapes, and characters that neither close the template nor open an expression.
  predicate TemplateText(s: string)
    decreases |s|
  {
    s == "" ||
    if s[0] == '\\' then |s| == 1 || TemplateText(s[2..])
    else s[0] != '`' && !Opener(s) && TemplateText(s[1..])
  }

  predicate QuotedShape(text: string) {
    && |text| >= 2 && text[0] in {'"', '\''} && text[|text| - 1] == text[0]
    && StringText(text[0], text[1..|text| - 1])
  }

  // Template text up to its end: a backtick, the start of an expression, or the end of the source.
  predicate TemplateShape(text: string, tail: string) {
    && text != "" && text[0] in {'`', '}'}
    && (|| (|text| >= 2 && text[|text| - 1] == '`' && TemplateBody(text[1..|text| - 1]))
        || (|text| >= 3 && text[|text| - 2..] == "${" && TemplateBody(text[1..|text| - 2]))
        || (tail == "" && TemplateText(text[1..])))
  }

  // Template text that does not break off in an escape.
  predicate TemplateBody(s: string)
    decreases |s|
  {
    s == "" ||
    if s[0] == '\\' then |s| >= 2 && TemplateBody(s[2..])
    else s[0] != '`' && !Opener(s) && TemplateBody(s[1..])
  }

  predicate LineCommentShape(text: string, tail: string) {
    "//" <= text && '\n' !in text && (tail != "" ==> tail[0] == '\n')
  }

  // The first `*/` behind the opener ends the comment.
  predicate BlockCommentShape(text: string, tail: string) {
    && "/*" <= text
    && if tail == "" && !EndsInClose(text) then forall k :: 2 <= k <= |text| ==> !OccursAt(text, "*/", k)
       else EndsInClose(text) && forall k :: 2 <= k < |text| - 2 ==> !OccursAt(text, "*/", k)
  }

  predicate EndsInClose(text: string) {
    |text| >= 4 && text[|text| - 2..] == "*/"
  }

  // --- strings ---

  lemma {:induction false} StringEndShape(quote: char, s: string)
    requires quote in {'"', '\''}
    ensures StringEnd(quote, s).Some? ==>
              var n := StringEnd(quote, s).value; s[n - 1] == quote && StringText(quote, s[..n - 1])
    decreases |s|
  {
    if s != "" && StringEnd(quote, s).Some? {
      var n := StringEnd(quote, s).value;
      if s[0] == '\\' {
        StringEndShape(quote, s[2..]);
        assert s[2..][..n - 3] == s[..n - 1][2..];
      } else if s[0] != quote {
        StringEndShape(quote, s[1..]);
        assert s[1..][..n - 2] == s[..n - 1][1..];
      }
    }
  }

  // A quote that closes on its line is not code.
  lemma {:induction false} ClosedStringEnds(quote: char, inner: string, rest: string)
    requires quote in {'"', '\''} && StringText(quote, inner)
    ensures StringEnd(quote, inner + ([quote] + rest)) == Some(|inner| + 1)
    decreases |inner|
  {
    var s := inner + ([quote] + rest);
    if inner == "" {
      assert s[0] == quote;
    } else if inner[0] == '\\' {
      assert s[2..] == inner[2..] + ([quote] + rest);
      ClosedStringEnds(quote, inner[2..], rest);
    } else {
      assert s[1..] == inner[1..] + ([quote] + rest);
      ClosedStringEnds(quote, inner[1..], rest);
    }
  }

  // --- templates ---

  predicate EndShape(s: string, end: TemplateEnd) {
    match end
    case Closed(n) => 0 < n <= |s| && s[n - 1] == '`' && TemplateBody(s[..n - 1])
    case Opens(n) => 2 <= n <= |s| && s[n - 2..n] == "${" && TemplateBody(s[..n - 2])
    case Unterminated => TemplateText(s)
  }

  lemma {:induction false} TemplateEndShape(s: string)
    ensures EndShape(s, Template(s))
    decreases |s|
  {
    hide EndShape;
    if s == "" {
      EmptyShape(s);
    } else if s[0] == '\\' {
      if |s| >= 2 {
        TemplateEndShape(s[2..]);
        ShapeGrows(s, 2, Template(s[2..]));
      } else {
        EmptyShape(s);
      }
    } else if s[0] == '`' || Opener(s) {
      EmptyShape(s);
    } else {
      TemplateEndShape(s[1..]);
      ShapeGrows(s, 1, Template(s[1..]));
    }
  }

  lemma EmptyShape(s: string)
    ensures s == "" || s == "\\" ==> EndShape(s, Unterminated)
    ensures s != "" && s[0] == '`' ==> EndShape(s, Closed(1))
    ensures Opener(s) ==> EndShape(s, Opens(2))
  {
  }

  // `s` starts with an escape or with a character that ends nothing.
  predicate Plain(s: string, k: nat) {
    s != "" && k <= |s| &&
    if s[0] == '\\' then k == 2 else k == 1 && s[0] != '`' && !Opener(s)
  }

  lemma ShapeGrows(s: string, k: nat, end: TemplateEnd)
    requires Plain(s, k) && EndShape(s[k..], end)
    ensures EndShape(s, end.Plus(k))
  {
    hide TemplateBody, TemplateText, Plain;
    PlainIsThere(s, k);
    match end
    case Closed(n) => ClosedGrows(s, k, n);
    case Opens(n) => OpensGrows(s, k, n);
    case Unterminated => TextGrows(s, k);
  }

  lemma ClosedGrows(s: string, k: nat, n: nat)
    requires Plain(s, k) && 0 < n <= |s| - k && s[k..][n - 1] == '`' && TemplateBody(s[k..][..n - 1])
    ensures s[k + n - 1] == '`' && TemplateBody(s[..k + n - 1])
  {
    hide TemplateBody, Plain;
    assert s[k..][..n - 1] == s[k..k + n - 1];
    BodyGrows(s, k, k + n - 1);
  }

  lemma OpensGrows(s: string, k: nat, n: nat)
    requires Plain(s, k) && 2 <= n <= |s| - k && s[k..][n - 2..n] == "${" && TemplateBody(s[k..][..n - 2])
    ensures s[k + n - 2..k + n] == "${" && TemplateBody(s[..k + n - 2])
  {
    hide TemplateBody, Plain;
    assert s[k..][..n - 2] == s[k..k + n - 2] && s[k..][n - 2..n] == s[k + n - 2..k + n];
    BodyGrows(s, k, k + n - 2);
  }

  lemma PlainIsThere(s: string, k: nat)
    requires Plain(s, k)
    ensures 0 < k <= |s|
  {
  }

  lemma BodyGrows(s: string, k: nat, j: nat)
    requires Plain(s, k) && k <= j <= |s| && TemplateBody(s[k..j])
    ensures TemplateBody(s[..j])
  {
    var p := s[..j];
    assert p[0] == s[0] && p[k..] == s[k..j];
  }

  lemma TextGrows(s: string, k: nat)
    requires Plain(s, k) && TemplateText(s[k..])
    ensures TemplateText(s)
  {
  }

  // --- comments ---

  lemma {:induction false} LineEndShape(s: string)
    ensures var n := LineEnd(s); '\n' !in s[..n] && (n < |s| ==> s[n] == '\n')
  {
    if s != "" && s[0] != '\n' {
      LineEndShape(s[1..]);
      assert s[..LineEnd(s)] == [s[0]] + s[1..][..LineEnd(s[1..])];
    }
  }

  // `n` is where the first `*/` ends, or the end of the text if there is none.
  predicate FirstClose(s: string, n: nat) {
    || (n >= 2 && OccursAt(s, "*/", n - 2) && forall k :: 0 <= k < n - 2 ==> !OccursAt(s, "*/", k))
    || (n == |s| && forall k :: 0 <= k <= |s| ==> !OccursAt(s, "*/", k))
  }

  // A block comment ends at the first `*/`.
  lemma {:induction false} BlockEndShape(s: string)
    ensures FirstClose(s, BlockEnd(s))
  {
    hide OccursAt, FirstClose;
    if s == "" {
      NoClose();
    } else if "*/" <= s {
      CloseHere(s);
    } else {
      BlockEndShape(s[1..]);
      CloseFurther(s, BlockEnd(s[1..]));
    }
  }

  lemma NoClose()
    ensures FirstClose("", 0)
  {
  }

  lemma CloseHere(s: string)
    requires "*/" <= s
    ensures FirstClose(s, 2)
  {
    assert s[0..0 + 2] == "*/";
  }

  lemma CloseFurther(s: string, n: nat)
    requires s != "" && !("*/" <= s) && FirstClose(s[1..], n)
    ensures FirstClose(s, n + 1)
  {
    hide OccursAt;
    CloseMoves(s);
    forall k | 1 <= k <= |s|
      ensures OccursAt(s, "*/", k) <==> OccursAt(s[1..], "*/", k - 1)
    {
    }
  }

  lemma CloseMoves(s: string)
    requires s != "" && !("*/" <= s)
    ensures !OccursAt(s, "*/", 0)
    ensures forall k: nat :: 1 <= k ==> (OccursAt(s, "*/", k) <==> OccursAt(s[1..], "*/", k - 1))
  {
    assert |s| >= 2 ==> s[0..2] == s[..2];
    forall k: nat | 1 <= k
      ensures OccursAt(s, "*/", k) <==> OccursAt(s[1..], "*/", k - 1)
    {
      if k + 2 <= |s| {
        assert s[k..k + 2] == s[1..][k - 1..k + 1];
      }
    }
  }

  // --- code ---

  function Balance(s: string): int {
    if s == "" then 0
    else Balance(s[..|s| - 1]) + (if s[|s| - 1] == '{' then 1 else if s[|s| - 1] == '}' then -1 else 0)
  }

  // A character that stays code when `rest` follows: no opener of a comment or a template, no quote
  // that closes on its line, and not the brace that ends a template expression.
  ghost predicate CodeShape(c: char, rest: string, m: Nest) {
    && c != '`' && !("//" <= [c] + rest) && !("/*" <= [c] + rest)
    && (c in {'"', '\''} ==> forall inner, behind :: rest == inner + ([c] + behind) ==> !StringText(c, inner))
    && (c == '}' ==> m.depth != 0 || m.saved == [])
  }

  lemma CodeCharShape(c: char, rest: string, m: Nest)
    requires Step([c] + rest, m).CodeChar?
    ensures CodeShape(c, rest, m)
    ensures Step([c] + rest, m).nest ==
            Nest(m.depth + (if c == '{' then 1 else if c == '}' then -1 else 0), m.saved)
  {
    hide StringEnd, StringText, LineEnd, BlockEnd, TemplateToken;
    var s := [c] + rest;
    assert s[0] == c && s[1..] == rest;
    if c in {'"', '\''} {
      forall inner, behind | rest == inner + ([c] + behind)
        ensures !StringText(c, inner)
      {
        NotClosed(c, inner, behind, rest);
      }
    }
  }

  lemma NotClosed(quote: char, inner: string, behind: string, rest: string)
    requires quote in {'"', '\''} && rest == inner + ([quote] + behind)
    ensures StringText(quote, inner) ==> StringEnd(quote, rest).Some?
  {
    hide StringEnd, StringText;
    if StringText(quote, inner) {
      ClosedStringEnds(quote, inner, behind);
    }
  }

  // Every character of a code segment, with the nesting in front of it.
  lemma {:induction false} CodeShapes(code: string, tail: string, m: Nest, k: nat)
    requires CodeRun(code, tail, m).Some? && k <= |code|
    ensures k < |code| ==> CodeShape(code[k], code[k + 1..] + tail, Nest(m.depth + Balance(code[..k]), m.saved))
    ensures CodeRun(code, tail, m).value == Nest(m.depth + Balance(code), m.saved)
    decreases |code|
  {
    hide Step, CodeShape;
    if code == "" {
    } else {
      var c, rest := code[0], code[1..] + tail;
      assert code + tail == [c] + rest;
      CodeCharShape(c, rest, m);
      var m' := Step(code + tail, m).nest;
      BalanceFromFront(code);
      if k == 0 {
        assert code[..0] == "";
        CodeShapes(code[1..], tail, m', 0);
      } else {
        CodeShapes(code[1..], tail, m', k - 1);
        assert code[..k][1..] == code[1..][..k - 1];
        BalanceFromFront(code[..k]);
        assert k < |code| ==> code[1..][k..] == code[k + 1..];
      }
    }
  }

  lemma {:induction false} BalanceFromFront(s: string)
    requires s != ""
    ensures Balance(s) == (if s[0] == '{' then 1 else if s[0] == '}' then -1 else 0) + Balance(s[1..])
  {
    var n := |s| - 1;
    if n == 0 {
      assert s[..0] == "" && s[1..] == "";
    } else {
      BalanceFromFront(s[..n]);
      assert s[..n][1..] == s[1..][..n - 1];
    }
  }

  // --- strings and comments ---

  // The piece of template text opens an expression.
  predicate OpeningShape(text: string) {
    |text| >= 3 && text[|text| - 2..] == "${" && TemplateBody(text[1..|text| - 2])
  }

  // The nesting behind a piece of template text.
  function TemplateNest(text: string, m: Nest): Nest
    requires text != "" && (text[0] == '}' ==> m.saved != [])
  {
    var outer := if text[0] == '}' then Nest(m.saved[|m.saved| - 1], m.saved[..|m.saved| - 1]) else m;
    if OpeningShape(text) then Nest(0, outer.saved + [outer.depth]) else outer
  }

  // The shape of a string or comment segment with `tail` behind it, and the nesting there.
  predicate TokenShape(kind: Kind, text: string, tail: string, m: Nest, m': Nest) {
    match kind
    case Code => false
    case Comment => m' == m && (LineCommentShape(text, tail) || BlockCommentShape(text, tail))
    case Str =>
      || (QuotedShape(text) && m' == m)
      || (TemplateShape(text, tail) && (text[0] == '}' ==> m.depth == 0 && m.saved != [])
          && m' == TemplateNest(text, m))
  }

  lemma WholeShape(text: string, tail: string, m: Nest)
    requires text != ""
    requires Step(text + tail, m).Whole? && Step(text + tail, m).len == |text|
    ensures TokenShape(Step(text + tail, m).kind, text, tail, m, Step(text + tail, m).nest)
  {
    hide TemplateToken, StringEnd, LineEnd, BlockEnd, LineCommentShape, BlockCommentShape, QuotedShape, TemplateShape, TemplateNest;
    var s := text + tail;
    var c, rest := s[0], s[1..];
    assert c == text[0] && rest == text[1..] + tail;
    if "//" <= s {
      LineShape(text, tail);
    } else if "/*" <= s {
      BlockShape(text, tail);
    } else if c == '"' || c == '\'' {
      StringShape(text, tail);
    } else {
      var outer := if c == '`' then m else Nest(m.saved[|m.saved| - 1], m.saved[..|m.saved| - 1]);
      TemplatePieceShape(text, tail, m, outer);
    }
  }

  lemma LineShape(text: string, tail: string)
    requires text != "" && "//" <= text + tail && LineEnd(text + tail) == |text|
    ensures LineCommentShape(text, tail)
  {
    hide LineEnd;
    var s := text + tail;
    LineEndShape(s);
    assert s[..|text|] == text;
    assert s[..2] == "//" && s[0] == s[1] == '/';
    assert |text| >= 2;
    assert text[..2] == s[..2];
  }

  lemma BlockShape(text: string, tail: string)
    requires "/*" <= text + tail && 2 + BlockEnd((text + tail)[2..]) == |text|
    ensures BlockCommentShape(text, tail)
  {
    hide BlockEnd, FirstClose, OccursAt;
    var s := text + tail;
    var n := |text| - 2;
    BlockEndShape(s[2..]);
    assert s[..2] == "/*" && text[..2] == s[..2];
    FirstCloseShape(text, tail);
  }

  lemma FirstCloseShape(text: string, tail: string)
    requires |text| >= 2 && text[..2] == "/*" && FirstClose((text + tail)[2..], |text| - 2)
    ensures BlockCommentShape(text, tail)
  {
    forall k: nat | 2 <= k && k + 2 <= |text|
      ensures OccursAt((text + tail)[2..], "*/", k - 2) <==> OccursAt(text, "*/", k)
    {
      assert (text + tail)[2..][k - 2..k] == text[k..k + 2];
    }
    ClosesInText(text, tail);
  }

  lemma ClosesInText(text: string, tail: string)
    requires |text| >= 2 && text[..2] == "/*" && FirstClose((text + tail)[2..], |text| - 2)
    requires forall k: nat :: 2 <= k && k + 2 <= |text| ==> (OccursAt((text + tail)[2..], "*/", k - 2) <==> OccursAt(text, "*/", k))
    ensures BlockCommentShape(text, tail)
  {
    hide OccursAt;
    var r, n := (text + tail)[2..], |text| - 2;
    forall k: nat | 2 <= k && k + 2 <= |text|
      ensures OccursAt(r, "*/", k - 2) <==> OccursAt(text, "*/", k)
    {
    }
    forall k: nat
      ensures OccursAt(text, "*/", k) ==> k + 2 <= |text|
    {
      OccursInside(text, k);
    }
    CloseAtEnd(text);
  }

  lemma OccursInside(s: string, k: nat)
    ensures OccursAt(s, "*/", k) ==> k + 2 <= |s|
  {
  }

  lemma CloseAtEnd(text: string)
    ensures |text| >= 4 ==> (OccursAt(text, "*/", |text| - 2) <==> EndsInClose(text))
  {
    if |text| >= 4 {
      assert text[|text| - 2..|text| - 2 + 2] == text[|text| - 2..];
    }
  }

  lemma StringShape(text: string, tail: string)
    requires text != "" && text[0] in {'"', '\''} && StringEnd(text[0], text[1..] + tail) == Some(|text| - 1)
    ensures QuotedShape(text)
  {
    hide StringEnd, StringText;
    var rest, n := text[1..] + tail, |text| - 1;
    StringEndShape(text[0], rest);
    assert rest[n - 1] == text[n];
    assert rest[..n - 1] == text[1..n];
  }

  lemma {:induction false} OpenedBody(body: string, behind: string)
    requires TemplateBody(body)
    ensures Template(body + ("${" + behind)) == Opens(|body| + 2)
    decreases |body|
  {
    var s := body + ("${" + behind);
    if body == "" {
      assert s[0] == '$' && s[1] == '{';
    } else if body[0] == '\\' {
      assert s[2..] == body[2..] + ("${" + behind);
      OpenedBody(body[2..], behind);
    } else {
      assert s[0] == body[0] && s[1..] == body[1..] + ("${" + behind);
      assert |body| > 1 ==> s[1] == body[1];
      assert |body| == 1 ==> s[1] == '$';
      OpenedBody(body[1..], behind);
    }
  }

  lemma TemplatePieceShape(text: string, tail: string, m: Nest, outer: Nest)
    requires text != ""
    requires || (text[0] == '`' && outer == m)
             || (text[0] == '}' && m.saved != [] && outer == Nest(m.saved[|m.saved| - 1], m.saved[..|m.saved| - 1]))
    requires TemplateToken(text[1..] + tail, outer).len == |text|
    ensures TemplateShape(text, tail) && TemplateToken(text[1..] + tail, outer).nest == TemplateNest(text, m)
  {
    hide Template, TemplateBody, TemplateText;
    var rest, n := text[1..] + tail, |text| - 1;
    TemplateEndShape(rest);
    match Template(rest)
    case Closed(_) =>
      assert rest[n - 1] == text[n] && rest[..n - 1] == text[1..n];
      assert text[|text| - 2..] != "${" by { assert text[|text| - 2..][1] == '`'; }
    case Opens(_) =>
      assert rest[n - 2..n] == text[|text| - 2..] && rest[..n - 2] == text[1..|text| - 2];
    case Unterminated =>
      assert tail == "" && rest == text[1..];
      if |text| >= 3 && text[|text| - 2..] == "${" {
        assert text[1..][..|text| - 3] == text[1..|text| - 2];
        NotUnterminated(text[1..]);
      }
  }

  lemma NotUnterminated(s: string)
    requires |s| >= 2 && s[|s| - 2..] == "${"
    ensures TemplateBody(s[..|s| - 2]) ==> Template(s).Opens?
  {
    hide Template, TemplateBody;
    var body := s[..|s| - 2];
    assert s == body + ("${" + "");
    if TemplateBody(body) {
      OpenedBody(body, "");
    }
  }

  // --- the segments of a source ---

  // What is known of the segment, with `tail` behind it and the nesting before and behind.
  ghost predicate SegmentShape(seg: Segment, tail: string, m: Nest, m': Nest) {
    if seg.kind == Code then
      && m' == Nest(m.depth + Balance(seg.text), m.saved)
      && forall k :: 0 <= k < |seg.text| ==>
           CodeShape(seg.text[k], seg.text[k + 1..] + tail, Nest(m.depth + Balance(seg.text[..k]), m.saved))
    else TokenShape(seg.kind, seg.text, tail, m, m')
  }

  lemma CodeIsShaped(code: string, tail: string, m: Nest)
    requires CodeRun(code, tail, m).Some?
    ensures SegmentShape(Segment(Code, code), tail, m, CodeRun(code, tail, m).value)
  {
    hide CodeRun, CodeShape, Balance;
    forall k: nat | k <= |code|
      ensures k < |code| ==> CodeShape(code[k], code[k + 1..] + tail, Nest(m.depth + Balance(code[..k]), m.saved))
    {
      CodeShapes(code, tail, m, k);
    }
    CodeShapes(code, tail, m, 0);
  }

  lemma FirstIsShaped(segs: seq<Segment>, m: Nest)
    requires segs != [] && WellFormed(segs, m)
    ensures SegmentShape(segs[0], Join(segs[1..]), m, Nesting.Behind(segs[0], Join(segs[1..]), m))
  {
    hide Step, SegmentShape, TokenShape, CodeRun;
    var seg, tail := segs[0], Join(segs[1..]);
    if seg.kind == Code {
      CodeIsShaped(seg.text, tail, m);
      assert seg == Segment(Code, seg.text);
    } else {
      WholeShape(seg.text, tail, m);
      OtherIsShaped(seg, tail, m, Step(seg.text + tail, m).nest);
    }
  }

  lemma OtherIsShaped(seg: Segment, tail: string, m: Nest, m': Nest)
    requires TokenShape(seg.kind, seg.text, tail, m, m')
    ensures SegmentShape(seg, tail, m, m')
  {
    hide LineCommentShape, BlockCommentShape, QuotedShape, TemplateShape, TemplateNest, CodeShape, Balance;
  }

  lemma {:induction false} SegmentsAreShaped(segs: seq<Segment>, m: Nest, i: nat)
    requires WellFormed(segs, m) && i < |segs|
    ensures SegmentShape(segs[i], Join(segs[i + 1..]), NestAt(segs, m, i), NestAt(segs, m, i + 1))
    decreases i
  {
    hide Step, SegmentShape;
    FirstIsShaped(segs, m);
    var m' := Nesting.Behind(segs[0], Join(segs[1..]), m);
    assert NestAt(segs[1..], m', 0) == m';
    if i > 0 {
      SegmentsAreShaped(segs[1..], m', i - 1);
      assert segs[1..][i..] == segs[i + 1..];
    }
  }

  // Every segment of every source has its shape, and the nesting is what the braces and the pieces
  // of template text say.
  lemma SourceIsShaped(src: string, i: nat)
    requires i < |Lex(src, TOP)|
    ensures var segs := Lex(src, TOP);
            SegmentShape(segs[i], Join(segs[i + 1..]), NestAt(segs, TOP, i), NestAt(segs, TOP, i + 1))
  {
    hide Lex, SegmentShape, WellFormed;
    LexIsWellFormed(src, TOP);
    SegmentsAreShaped(Lex(src, TOP), TOP, i);
  }
}
