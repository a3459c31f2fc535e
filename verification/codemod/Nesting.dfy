/** The brace depths the lexer keeps while template expressions are open. */
module Nesting {
  import opened Prelude
  import opened Lexer
  import opened Structure

  // While an expression is open its brace depth, and those of the expressions around it, are not
  // negative. Only the depth of the top level, saved at the bottom, may be.
  predicate Disciplined(m: Nest) {
    && (m.saved != [] ==> m.depth >= 0)
    && forall i :: 1 <= i < |m.saved| ==> m.saved[i] >= 0
  }

  // The nesting behind one segment.
  function Behind(seg: Segment, tail: string, m: Nest): Nest {
    if seg.text == "" then m
    else if seg.kind == Code then
      (match CodeRun(seg.text, tail, m) case Some(m') => m' case None => m)
    else Step(seg.text + tail, m).nest
  }

  // The nesting behind the first `i` segments.
  function NestAt(segs: seq<Segment>, m: Nest, i: nat): Nest
    requires i <= |segs|
  {
    if i == 0 then m else NestAt(segs[1..], Behind(segs[0], Join(segs[1..]), m), i - 1)
  }

  // Template text that ends in `${`.
  predicate OpensExpr(seg: Segment) {
    seg.kind == Str && seg.text != "" && seg.text[0] in {'`', '}'} && Template(seg.text[1..]).Opens?
  }

  // Template text that resumes behind the `}` of an expression.
  predicate Resumes(seg: Segment) {
    seg.kind == Str && seg.text != "" && seg.text[0] == '}'
  }

  function Opened(segs: seq<Segment>): nat {
    if segs == [] then 0 else (if OpensExpr(segs[0]) then 1 else 0) + Opened(segs[1..])
  }

  function Resumed(segs: seq<Segment>): nat {
    if segs == [] then 0 else (if Resumes(segs[0]) then 1 else 0) + Resumed(segs[1..])
  }

  lemma StepIsDisciplined(s: string, m: Nest)
    requires s != "" && Disciplined(m)
    ensures Disciplined(Step(s, m).nest)
    ensures Step(s, m).CodeChar? ==> Step(s, m).nest.saved == m.saved
  {
    hide StringEnd, Template, LineEnd, BlockEnd;
  }

  lemma {:induction false} CodeIsDisciplined(code: string, tail: string, m: Nest)
    requires Disciplined(m) && CodeRun(code, tail, m).Some?
    ensures Disciplined(CodeRun(code, tail, m).value)
    ensures CodeRun(code, tail, m).value.saved == m.saved
  {
    hide Step, Disciplined;
    if code != "" {
      StepIsDisciplined(code + tail, m);
      CodeIsDisciplined(code[1..], tail, Step(code + tail, m).nest);
    }
  }

  // A template that ends within `x` reads the same without what follows.
  lemma {:induction false} TemplateOfPrefix(x: string, tail: string)
    requires match Template(x + tail) case Unterminated => tail == "" case t => t.len == |x|
    ensures Template(x) == Template(x + tail)
    decreases |x|
  {
    if tail == "" {
      assert x + tail == x;
    } else if x != "" {
      assert (x + tail)[1..] == x[1..] + tail && (x + tail)[0] == x[0];
      if x[0] == '\\' {
        if |x| >= 2 {
          assert (x + tail)[2..] == x[2..] + tail;
          TemplateOfPrefix(x[2..], tail);
        }
      } else if x[0] != '`' {
        assert |x| > 1 ==> (x + tail)[1] == x[1];
        if !(x[0] == '$' && |x| > 1 && x[1] == '{') {
          TemplateOfPrefix(x[1..], tail);
        }
      }
    }
  }

  // A token changes the stack height by what it opens less what it resumes.
  lemma WholeHeight(text: string, tail: string, m: Nest)
    requires text != ""
    requires var tok := Step(text + tail, m); tok.Whole? && tok.len == |text|
    ensures var tok := Step(text + tail, m);
            var seg := Segment(tok.kind, text);
            |tok.nest.saved| == |m.saved| + (if OpensExpr(seg) then 1 else 0) - (if Resumes(seg) then 1 else 0)
  {
    hide StringEnd, Template, LineEnd, BlockEnd;
    var s := text + tail;
    StepAt(s, 0, m);
    assert s[0..] == s && s[0] == text[0] && s[1..] == text[1..] + tail;
    if text[0] == '`' || text[0] == '}' {
      TemplateOfPrefix(text[1..], tail);
    }
  }

  // Nesting discipline: in the segments of any source the depth is not negative while a template
  // expression is open, and as many depths are saved as expressions were opened and not resumed.
  lemma {:induction false} NestingHolds(segs: seq<Segment>, m: Nest, i: nat)
    requires WellFormed(segs, m) && Disciplined(m) && i <= |segs|
    ensures Disciplined(NestAt(segs, m, i))
    ensures |NestAt(segs, m, i).saved| == |m.saved| + Opened(segs[..i]) - Resumed(segs[..i])
    decreases i
  {
    hide Step, Disciplined, OpensExpr, Resumes, CodeRun;
    if i > 0 {
      var seg, rest := segs[0], segs[1..];
      assert segs[..i][1..] == rest[..i - 1] && segs[..i][0] == seg;
      if seg.kind == Code {
        CodeIsDisciplined(seg.text, Join(rest), m);
        CodeOpensNothing(seg);
      } else {
        StepIsDisciplined(seg.text + Join(rest), m);
        WholeHeight(seg.text, Join(rest), m);
        assert seg == Segment(seg.kind, seg.text);
      }
      NestingHolds(rest, Behind(seg, Join(rest), m), i - 1);
    }
  }

  lemma CodeOpensNothing(seg: Segment)
    requires seg.kind == Code
    ensures !OpensExpr(seg) && !Resumes(seg)
  {
  }

  lemma SourceNesting(src: string, i: nat)
    requires i <= |Lex(src, TOP)|
    ensures var m := NestAt(Lex(src, TOP), TOP, i);
            && Disciplined(m)
            && |m.saved| == Opened(Lex(src, TOP)[..i]) - Resumed(Lex(src, TOP)[..i])
  {
    hide Lex, WellFormed;
    LexIsWellFormed(src, TOP);
    NestingHolds(Lex(src, TOP), TOP, i);
  }

  // A code segment holds no backtick and no comment opener, not even across its end.
  lemma {:induction false} CodeHoldsNoOpener(code: string, tail: string, m: Nest, k: nat)
    requires CodeRun(code, tail, m).Some? && k < |code|
    ensures code[k] != '`' && !("//" <= code[k..] + tail) && !("/*" <= code[k..] + tail)
    decreases k
  {
    hide StringEnd, Template, LineEnd, BlockEnd;
    if k == 0 {
      assert code[0..] == code && (code + tail)[0] == code[0];
    } else {
      CodeHoldsNoOpener(code[1..], tail, Step(code + tail, m).nest, k - 1);
      assert code[1..][k - 1..] == code[k..];
    }
  }
}
