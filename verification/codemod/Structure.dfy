/** What it means for a list of segments to be the lexing of its text, checked segment by segment. */
module Structure {
  import opened Prelude
  import opened Words
  import opened Rewriter
  import opened Lexer
  import opened Quotes

  // The nesting behind `code` if every character of it is code when `tail` follows.
  function CodeRun(code: string, tail: string, m: Nest): Option<Nest> {
    if code == "" then Some(m)
    else match Step(code + tail, m)
      case CodeChar(m') => CodeRun(code[1..], tail, m')
      case Whole(_, _, _) => None
  }

  // Each segment is what the lexer reads at its place, and no two code segments are adjacent.
  predicate WellFormed(segs: seq<Segment>, m: Nest) {
    segs == [] ||
    var seg, tail := segs[0], Join(segs[1..]);
    && seg.text != ""
    && if seg.kind == Code then
         && (|segs| > 1 ==> segs[1].kind != Code)
         && var r := CodeRun(seg.text, tail, m);
         r.Some? && WellFormed(segs[1..], r.value)
       else
         var tok := Step(seg.text + tail, m);
         tok.Whole? && tok.kind == seg.kind && tok.len == |seg.text| && WellFormed(segs[1..], tok.nest)
  }

  lemma {:induction false} CodeSpanIsCode(s: string, m: Nest)
    ensures var r := CodeSpan(s, m);
            && CodeRun(s[..r.0], s[r.0..], m) == Some(r.1)
            && (s[r.0..] != "" ==> Step(s[r.0..], r.1).Whole?)
  {
    hide Step;
    var r := CodeSpan(s, m);
    if s == "" || Step(s, m).Whole? {
      assert s[0..] == s;
    } else {
      CodeSpanIsCode(s[1..], Step(s, m).nest);
      assert s[1..][r.0 - 1..] == s[r.0..];
      assert s[..r.0][1..] == s[1..][..r.0 - 1];
      assert s[..r.0] + s[r.0..] == s;
    }
  }

  lemma LexStarts(s: string, m: Nest)
    ensures Lex(s, m) == [] <==> s == ""
    ensures s != "" ==> (Lex(s, m)[0].kind == Code <==> Step(s, m).CodeChar?)
  {
    hide Step;
  }

  // Lexing loses nothing and yields a well-formed list.
  lemma {:induction false} LexIsWellFormed(s: string, m: Nest)
    ensures Join(Lex(s, m)) == s
    ensures WellFormed(Lex(s, m), m)
    decreases |s|
  {
    hide Step;
    if s != "" {
      var segs := Lex(s, m);
      match Step(s, m)
      case CodeChar(_) =>
        var r := CodeSpan(s, m);
        CodeSpanIsCode(s, m);
        LexIsWellFormed(s[r.0..], r.1);
        LexStarts(s[r.0..], r.1);
        assert segs[1..] == Lex(s[r.0..], r.1);
        assert s[..r.0] + s[r.0..] == s;
      case Whole(_, n, m') =>
        LexIsWellFormed(s[n..], m');
        assert segs[1..] == Lex(s[n..], m');
        assert s[..n] + s[n..] == s;
    }
  }

  lemma {:induction false} CodeIsCodeSpan(code: string, tail: string, m: Nest)
    requires CodeRun(code, tail, m).Some?
    requires tail != "" ==> Step(tail, CodeRun(code, tail, m).value).Whole?
    ensures CodeSpan(code + tail, m) == (|code|, CodeRun(code, tail, m).value)
  {
    hide Step;
    if code == "" {
      assert code + tail == tail;
    } else {
      assert (code + tail)[1..] == code[1..] + tail;
      CodeIsCodeSpan(code[1..], tail, Step(code + tail, m).nest);
    }
  }

  // A well-formed list is the lexing of its text: there is only one.
  lemma {:induction false} WellFormedIsLex(segs: seq<Segment>, m: Nest)
    requires WellFormed(segs, m)
    ensures Lex(Join(segs), m) == segs
  {
    hide Step;
    if segs != [] {
      var seg, rest := segs[0], segs[1..];
      var tail := Join(rest);
      var s := seg.text + tail;
      assert s[|seg.text|..] == tail && s[..|seg.text|] == seg.text;
      if seg.kind == Code {
        var m' := CodeRun(seg.text, tail, m).value;
        WellFormedIsLex(rest, m');
        if rest != [] {
          assert Join(rest) == rest[0].text + Join(rest[1..]);
        }
        CodeIsCodeSpan(seg.text, tail, m);
      } else {
        WellFormedIsLex(rest, Step(s, m).nest);
      }
      assert segs == [seg] + rest;
    }
  }

  // --- text that looks the same to the lexer ---

  ghost predicate FirstAlike(a: string, b: string) {
    && (a == "" <==> b == "")
    && (a != "" ==> a[0] == b[0] || (IdentChar(a[0]) && IdentChar(b[0])))
  }

  ghost predicate Aligned(a: string, b: string) {
    SameMarks(a, b) && FirstAlike(a, b)
  }

  lemma StepAligned(c: char, a: string, b: string, m: Nest)
    requires Aligned(a, b) && Step([c] + a, m).CodeChar?
    ensures Step([c] + b, m) == Step([c] + a, m)
  {
    var s, s' := [c] + a, [c] + b;
    assert s[1..] == a && s'[1..] == b;
    StepAt(s, 0, m);
    StepAt(s', 0, m);
    assert s[0..] == s && s'[0..] == s';
    if c == '"' || c == '\'' {
      StringEndByMarks(c, a);
      StringEndByMarks(c, b);
    }
  }

  lemma IdentIsCode(c: char, tail: string, m: Nest)
    requires IdentChar(c)
    ensures Step([c] + tail, m) == CodeChar(m)
  {
    var s := [c] + tail;
    StepAt(s, 0, m);
    assert s[0..] == s;
  }

  lemma {:induction false} CodeRunIdent(u: string, code: string, tail: string, m: Nest)
    requires AllIdent(u)
    ensures CodeRun(u + code, tail, m) == CodeRun(code, tail, m)
  {
    hide Step;
    if u == "" {
      assert u + code == code;
    } else {
      CodeRunIdent(u[1..], code, tail, m);
      assert (u + code)[1..] == u[1..] + code;
      assert u + code + tail == [u[0]] + (u[1..] + code + tail);
      IdentIsCode(u[0], u[1..] + code + tail, m);
    }
  }

  lemma IdentIsUnmarked(u: string)
    requires AllIdent(u)
    ensures Unmarked(u)
  {
  }

  lemma {:induction false} PiecesAligned(ps: seq<Piece>, tail: string, tail': string)
    requires Tame(ps) && Aligned(tail, tail')
    ensures Aligned(Before(ps) + tail, After(ps) + tail')
  {
    hide SameMarks;
    if ps == [] {
      assert Before(ps) + tail == tail && After(ps) + tail' == tail';
    } else {
      var p := ps[0];
      PiecesAligned(ps[1..], tail, tail');
      PieceAlike(p);
      var x, x' := Before(ps[1..]) + tail, After(ps[1..]) + tail';
      SameMarksConcat(p.Source(), p.Target(), x, x');
      assert Before(ps) + tail == p.Source() + x;
      assert After(ps) + tail' == p.Target() + x';
    }
  }

  lemma PieceAlike(p: Piece)
    requires Tame([p])
    ensures SameMarks(p.Source(), p.Target())
    ensures p.Source() != "" && p.Target() != ""
    ensures p.Source()[0] == p.Target()[0] || (IdentChar(p.Source()[0]) && IdentChar(p.Target()[0]))
  {
    if p.Swap? {
      assert p in [p];
      IdentIsUnmarked(p.from);
      IdentIsUnmarked(p.to);
      UnmarkedAlike(p.from, p.to);
    }
  }

  // Rewriting keeps code code, with the same nesting behind it.
  lemma {:induction false} CodeRunPieces(ps: seq<Piece>, tail: string, tail': string, m: Nest)
    requires Tame(ps) && Aligned(tail, tail')
    requires CodeRun(Before(ps), tail, m).Some?
    ensures CodeRun(After(ps), tail', m) == CodeRun(Before(ps), tail, m)
  {
    hide Step, Aligned;
    if ps != [] {
      var p, rest := ps[0], ps[1..];
      assert p in ps;
      match p
      case Keep(c) =>
        PiecesAligned(rest, tail, tail');
        assert Before(ps) == [c] + Before(rest) && After(ps) == [c] + After(rest);
        assert Before(ps) + tail == [c] + (Before(rest) + tail);
        assert After(ps) + tail' == [c] + (After(rest) + tail');
        StepAligned(c, Before(rest) + tail, After(rest) + tail', m);
        CodeRunPieces(rest, tail, tail', Step(Before(ps) + tail, m).nest);
      case Swap(from, to, _) =>
        CodeRunIdent(from, Before(rest), tail, m);
        CodeRunIdent(to, After(rest), tail', m);
        CodeRunPieces(rest, tail, tail', m);
    }
  }
}
