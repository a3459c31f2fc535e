/** The codemod keeps the lexical structure of a script, and running it twice changes nothing more. */
module CodemodLaws {
  import opened Prelude
  import opened Words
  import opened ImportPath
  import opened Rewriter
  import opened RewriteTwice
  import opened Lexer
  import opened Quotes
  import opened Structure
  import opened Codemod

  // --- comments ---

  lemma {:induction false} LineEndIs(s: string, n: nat)
    requires n <= |s| && '\n' !in s[..n] && (n < |s| ==> s[n] == '\n')
    ensures LineEnd(s) == n
  {
    if n > 0 {
      assert s[0] == s[..n][0];
      assert s[1..][..n - 1] == s[..n][1..];
      LineEndIs(s[1..], n - 1);
    }
  }

  lemma {:induction false} LineEndMeans(s: string)
    ensures '\n' !in s[..LineEnd(s)] && (LineEnd(s) < |s| ==> s[LineEnd(s)] == '\n')
  {
    if s != "" && s[0] != '\n' {
      LineEndMeans(s[1..]);
      assert s[..LineEnd(s)] == [s[0]] + s[1..][..LineEnd(s[1..])];
    }
  }

  lemma {:induction false} PiecesKeepLine(ps: seq<Piece>)
    requires Tame(ps) && '\n' !in Before(ps)
    ensures '\n' !in After(ps)
  {
    if ps != [] {
      var p := ps[0];
      assert forall c :: c in Before(ps[1..]) ==> c in p.Source() + Before(ps[1..]);
      PiecesKeepLine(ps[1..]);
      if p.Swap? {
        assert p in ps;
        assert AllIdent(p.to);
      } else {
        assert p.c in p.Source() + Before(ps[1..]);
      }
    }
  }

  lemma {:induction false} BlockEndIdent(u: string, y: string)
    requires AllIdent(u)
    ensures BlockEnd(u + y) == |u| + BlockEnd(y)
  {
    if u == "" {
      assert u + y == y;
    } else {
      assert (u + y)[1..] == u[1..] + y;
      assert (u + y)[0] == u[0] && "*/"[0] == '*';
      BlockEndIdent(u[1..], y);
    }
  }

  lemma NoBlockEnd(tail: string, tail': string)
    requires Aligned(tail, tail')
    ensures BlockEnd(tail) == 0 ==> BlockEnd(tail') == 0
  {
  }

  lemma TameParts(ps: seq<Piece>)
    requires Tame(ps) && ps != []
    ensures Tame(ps[1..])
    ensures ps[0].Swap? ==> AllIdent(ps[0].from) && AllIdent(ps[0].to)
  {
    assert ps[0] in ps;
  }

  // The end of a block comment stays at the end of its text.
  lemma {:induction false} BlockEndPieces(ps: seq<Piece>, tail: string, tail': string)
    requires Tame(ps) && Aligned(tail, tail')
    requires BlockEnd(Before(ps) + tail) == |Before(ps)|
    ensures BlockEnd(After(ps) + tail') == |After(ps)|
    decreases |ps|, 0
  {
    hide BlockEnd, IdentChar, Tame, Aligned;
    if ps == [] {
      assert Before(ps) + tail == tail && After(ps) + tail' == tail';
      NoBlockEnd(tail, tail');
    } else {
      TameParts(ps);
      var p, rest := ps[0], ps[1..];
      var b, a := Before(rest) + tail, After(rest) + tail';
      assert Before(ps) + tail == p.Source() + b && After(ps) + tail' == p.Target() + a;
      PiecesAligned(rest, tail, tail');
      if p.Swap? {
        BlockEndIdent(p.from, b);
        BlockEndIdent(p.to, a);
        BlockEndPieces(rest, tail, tail');
      } else {
        BlockEndKeep(p.c, rest, tail, tail');
      }
    }
  }

  lemma {:induction false} BlockEndKeep(c: char, rest: seq<Piece>, tail: string, tail': string)
    requires Tame(rest) && Aligned(tail, tail')
    requires BlockEnd([c] + (Before(rest) + tail)) == 1 + |Before(rest)|
    ensures BlockEnd([c] + (After(rest) + tail')) == 1 + |After(rest)|
    decreases |rest|, 1
  {
    var b, a := Before(rest) + tail, After(rest) + tail';
    PiecesAligned(rest, tail, tail');
    assert ([c] + b)[1..] == b && ([c] + a)[1..] == a;
    if "*/" <= [c] + b {
      assert ([c] + b)[1] == '/' == b[0] == Before(rest)[0];
    } else {
      BlockEndPieces(rest, tail, tail');
    }
  }

  // --- strings ---

  // Template text is read the same whatever follows it.
  lemma {:induction false} TemplateLocal(x: string, tail: string, tail': string)
    requires tail == "" <==> tail' == ""
    requires match Template(x + tail) case Unterminated => tail == "" case t => t.len == |x|
    ensures Template(x + tail') == Template(x + tail)
    decreases |x|
  {
    if tail == "" {
      assert tail == tail';
    } else if x != "" {
      assert (x + tail)[1..] == x[1..] + tail && (x + tail')[1..] == x[1..] + tail';
      if x[0] == '\\' {
        if |x| >= 2 {
          assert (x + tail)[2..] == x[2..] + tail && (x + tail')[2..] == x[2..] + tail';
          TemplateLocal(x[2..], tail, tail');
        }
      } else if x[0] == '`' {
      } else {
        assert |x| > 1 ==> (x + tail)[1] == x[1] && (x + tail')[1] == x[1];
        if !(x[0] == '$' && |x| > 1 && x[1] == '{') {
          TemplateLocal(x[1..], tail, tail');
        }
      }
    }
  }

  lemma AlignedConcat(a: string, a': string, b: string, b': string)
    requires SameMarks(a, a') && a != "" && a' != "" && a[0] == a'[0] && SameMarks(b, b')
    ensures Aligned(a + b, a' + b')
  {
    SameMarksConcat(a, a', b, b');
  }

  lemma SameMarksRefl(a: string)
    ensures SameMarks(a, a)
  {
  }

  // An edit of a quoted string only replaces a head without quotes, backslashes and newlines.
  lemma EditedHead(text: string, previousCode: string) returns (from: string, to: string, rest: string)
    requires StringEdit(text, previousCode).Replaced?
    ensures Quoted(text) && Inner(text) == from + rest && StringEdit(text, previousCode).inner == to + rest
    ensures from != "" && to != "" && Unmarked(from) && Unmarked(to)
  {
    hide ImportContext, EnvBracketContext, MapImportPath;
    if ImportContext(previousCode) {
      from, to, rest := MappedHead(Inner(text));
    } else {
      from, to, rest := ENV_PREFIX_OLD, ENV_PREFIX_NEW, Inner(text)[7..];
    }
  }

  lemma EditedInnerAlike(text: string, previousCode: string)
    requires StringEdit(text, previousCode).Replaced?
    ensures Quoted(text) && SameMarks(Inner(text), StringEdit(text, previousCode).inner)
  {
    hide SameMarks, StringEdit;
    var from, to, rest := EditedHead(text, previousCode);
    UnmarkedAlike(from, to);
    SameMarksRefl(rest);
    SameMarksConcat(from, to, rest, rest);
  }

  lemma QuotedIsWhole(quote: char, inner: string, tail: string, m: Nest)
    requires quote == '"' || quote == '\''
    requires Clean(quote, inner)
    ensures Step(Quote(quote, inner) + tail, m) == Whole(Str, |inner| + 2, m)
  {
    var s := Quote(quote, inner) + tail;
    StepAt(s, 0, m);
    assert s[0..] == s && s[0] == quote;
    assert s[1..] == inner + ([quote] + tail);
    StringEndOfClean(quote, inner, tail);
  }

  // A string token that starts with a quote is a clean text between two quotes.
  lemma WholeIsQuoted(text: string, tail: string, m: Nest)
    requires text != "" && (text[0] == '"' || text[0] == '\'')
    requires var tok := Step(text + tail, m); tok.Whole? && tok.len == |text|
    ensures |text| >= 2 && text == Quote(text[0], Inner(text)) && Clean(text[0], Inner(text))
    ensures Step(text + tail, m).nest == m
  {
    var s := text + tail;
    StepAt(s, 0, m);
    assert s[0..] == s && s[0] == text[0];
    CleanOfStringEnd(text[0], s[1..]);
    var n := StringEnd(text[0], s[1..]).value;
    assert s[1..][n - 1] == s[n] == text[n];
    assert Inner(text) == s[1..][..n - 1];
  }

  lemma CleanAlike(quote: char, a: string, b: string)
    requires SameMarks(a, b) && Clean(quote, a)
    ensures Clean(quote, b)
  {
  }

  // A string segment stays a string segment with the same nesting behind it.
  lemma StringKept(text: string, previousCode: string, tail: string, tail': string, m: Nest)
    requires text != "" && Aligned(tail, tail')
    requires var tok := Step(text + tail, m); tok.Whole? && tok.kind == Str && tok.len == |text|
    ensures var text' := TransformString(text, previousCode);
            && text' != ""
            && Step(text' + tail', m) == Whole(Str, |text'|, Step(text + tail, m).nest)
            && Aligned(text + tail, text' + tail')
  {
    hide SameMarks, Step, Clean, StringEdit;
    var text' := TransformString(text, previousCode);
    if text[0] == '"' || text[0] == '\'' {
      WholeIsQuoted(text, tail, m);
      QuotedKept(text, previousCode);
      QuotedIsWhole(text'[0], Inner(text'), tail', m);
    } else {
      NotQuoted(text, previousCode);
      TemplateKept(text, tail, tail', m);
      SameMarksRefl(text);
    }
    AlignedConcat(text, text', tail, tail');
  }

  lemma NotQuoted(text: string, previousCode: string)
    requires text != "" && text[0] != '"' && text[0] != '\''
    ensures TransformString(text, previousCode) == text
  {
  }

  lemma QuotedKept(text: string, previousCode: string)
    requires |text| >= 2 && (text[0] == '"' || text[0] == '\'')
    requires text == Quote(text[0], Inner(text)) && Clean(text[0], Inner(text))
    ensures var text' := TransformString(text, previousCode);
            && |text'| >= 2 && text'[0] == text[0]
            && text' == Quote(text[0], Inner(text')) && Clean(text[0], Inner(text'))
            && SameMarks(text, text')
  {
    hide SameMarks, Clean, StringEdit;
    var q := text[0];
    var text' := TransformString(text, previousCode);
    match StringEdit(text, previousCode)
    case Untouched =>
      SameMarksRefl(text);
    case Replaced(inner, _) =>
      EditedInnerAlike(text, previousCode);
      assert Inner(text') == inner;
      CleanAlike(q, Inner(text), inner);
      SameMarksRefl([q]);
      SameMarksConcat([q], [q], Inner(text), inner);
      SameMarksConcat([q] + Inner(text), [q] + inner, [q], [q]);
  }

  lemma TemplateKept(text: string, tail: string, tail': string, m: Nest)
    requires text != "" && text[0] != '"' && text[0] != '\'' && Aligned(tail, tail')
    requires var tok := Step(text + tail, m); tok.Whole? && tok.kind == Str && tok.len == |text|
    ensures Step(text + tail', m) == Step(text + tail, m)
  {
    hide SameMarks;
    var s, s' := text + tail, text + tail';
    StepAt(s, 0, m);
    StepAt(s', 0, m);
    assert s[0..] == s && s'[0..] == s' && s[0] == s'[0] == text[0];
    assert s[1..] == text[1..] + tail && s'[1..] == text[1..] + tail';
    assert text[0] == '`' || text[0] == '}';
    TemplateLocal(text[1..], tail, tail');
  }

  // --- rewriting a segment keeps it a segment ---

  lemma ReplaceCodeAligned(t: Table, text: string, tail: string, tail': string)
    requires ValidTable(t) && Aligned(tail, tail')
    ensures Aligned(text + tail, ReplaceCode(t, text) + tail')
  {
    PiecesCover(t, false, text);
    PiecesAligned(Pieces(t, false, text), tail, tail');
  }

  lemma CommentOpener(t: Table, text: string)
    requires "//" <= text || "/*" <= text
    ensures ReplaceCode(t, text) == text[..2] + Rewritten(t, false, text[2..])
  {
    hide Rewritten;
    OtherFirst(t, false, text);
    OtherFirst(t, false, text[1..]);
    assert text[1..][1..] == text[2..];
  }

  lemma WholeIsComment(text: string, tail: string, m: Nest)
    requires text != ""
    requires var tok := Step(text + tail, m); tok.Whole? && tok.kind == Comment && tok.len == |text|
    ensures Step(text + tail, m).nest == m
    ensures ("//" <= text && '\n' !in text && (tail != "" ==> tail[0] == '\n'))
         || ("/*" <= text && BlockEnd(text[2..] + tail) == |text| - 2)
  {
    hide Step, BlockEnd, LineEnd;
    StepOfComment(text + tail, m);
    if "//" <= text + tail {
      WholeIsLine(text, tail);
    } else {
      WholeIsBlock(text, tail);
    }
  }

  lemma StepOfComment(s: string, m: Nest)
    requires s != "" && Step(s, m).Whole? && Step(s, m).kind == Comment
    ensures Step(s, m).nest == m
    ensures if "//" <= s then Step(s, m).len == LineEnd(s)
            else "/*" <= s && Step(s, m).len == 2 + BlockEnd(s[2..])
  {
    hide TemplateToken, StringEnd, BlockEnd, LineEnd;
  }

  lemma WholeIsBlock(text: string, tail: string)
    requires "/*" <= text + tail && 2 + BlockEnd((text + tail)[2..]) == |text|
    ensures "/*" <= text && BlockEnd(text[2..] + tail) == |text| - 2
  {
    hide BlockEnd;
    var s := text + tail;
    assert s[..2] == text[..2] && s[2..] == text[2..] + tail;
  }

  lemma WholeIsLine(text: string, tail: string)
    requires "//" <= text + tail && LineEnd(text + tail) == |text|
    ensures "//" <= text && '\n' !in text && (tail != "" ==> tail[0] == '\n')
  {
    hide LineEnd;
    var s := text + tail;
    LineEndMeans(s);
    assert s[..|text|] == text;
    assert "//" == s[..2] == text[..2];
  }

  lemma LineCommentIsWhole(text: string, tail: string, m: Nest)
    requires "//" <= text && '\n' !in text && (tail != "" ==> tail[0] == '\n')
    ensures Step(text + tail, m) == Whole(Comment, |text|, m)
  {
    var s := text + tail;
    assert s[..|text|] == text;
    LineEndIs(s, |text|);
    assert s[..2] == text[..2] == "//";
  }

  lemma BlockCommentIsWhole(text: string, tail: string, m: Nest)
    requires "/*" <= text && BlockEnd(text[2..] + tail) == |text| - 2
    ensures Step(text + tail, m) == Whole(Comment, |text|, m)
  {
    var s := text + tail;
    assert s[..2] == text[..2] == "/*";
    assert s[1] == '*';
    assert s[2..] == text[2..] + tail;
  }

  // A comment segment stays a comment segment with the same nesting behind it.
  lemma CommentKept(t: Table, text: string, tail: string, tail': string, m: Nest)
    requires ValidTable(t) && text != "" && Aligned(tail, tail')
    requires var tok := Step(text + tail, m); tok.Whole? && tok.kind == Comment && tok.len == |text|
    ensures var text' := ReplaceCode(t, text);
            && text' != ""
            && Step(text' + tail', m) == Whole(Comment, |text'|, Step(text + tail, m).nest)
  {
    hide SameMarks, Step, ValidTable, ReplaceCode, Rewritten;
    WholeIsComment(text, tail, m);
    CommentOpener(t, text);
    var text' := ReplaceCode(t, text);
    assert text'[..2] == text[..2];
    assert text'[2..] == Rewritten(t, false, text[2..]);
    if "//" <= text {
      assert text[1] == '/' && "/*"[1] == '*';
      assert text'[..2] == "//";
      CommentLineKept(t, text);
      LineCommentIsWhole(text', tail', m);
    } else {
      CommentBlockKept(t, text[2..], tail, tail');
      BlockCommentIsWhole(text', tail', m);
    }
  }

  lemma CommentLineKept(t: Table, text: string)
    requires ValidTable(t) && '\n' !in text
    ensures '\n' !in ReplaceCode(t, text)
  {
    PiecesCover(t, false, text);
    PiecesKeepLine(Pieces(t, false, text));
  }

  lemma CommentBlockKept(t: Table, x: string, tail: string, tail': string)
    requires ValidTable(t) && Aligned(tail, tail') && BlockEnd(x + tail) == |x|
    ensures BlockEnd(Rewritten(t, false, x) + tail') == |Rewritten(t, false, x)|
  {
    PiecesCover(t, false, x);
    BlockEndPieces(Pieces(t, false, x), tail, tail');
  }

  lemma CodeKept(t: Table, text: string, tail: string, tail': string, m: Nest)
    requires ValidTable(t) && text != "" && Aligned(tail, tail')
    requires CodeRun(text, tail, m).Some?
    ensures ReplaceCode(t, text) != ""
    ensures CodeRun(ReplaceCode(t, text), tail', m) == CodeRun(text, tail, m)
  {
    PiecesCover(t, false, text);
    CodeRunPieces(Pieces(t, false, text), tail, tail', m);
    FirstKept(t, false, text);
  }

  // --- the whole script ---

  lemma {:induction false} RewriteIsWellFormed(t: Table, segs: seq<Segment>, previousCode: string, m: Nest)
    requires ValidTable(t) && WellFormed(segs, m)
    ensures WellFormed(Rewrite(t, segs, previousCode), m)
    ensures Aligned(Join(segs), Join(Rewrite(t, segs, previousCode)))
  {
    hide Step, ReplaceCode, TransformString, CodeRun, ValidTable, Aligned;
    if segs == [] {
      NothingAligned();
    } else {
      var seg, rest := segs[0], segs[1..];
      var behind := CodeBehind(t, seg, previousCode);
      var r := Rewrite(t, segs, previousCode);
      var rest' := Rewrite(t, rest, behind);
      assert r[1..] == rest';
      var tail, tail' := Join(rest), Join(rest');
      var m' := if seg.kind == Code then CodeRun(seg.text, tail, m).value else Step(seg.text + tail, m).nest;
      RewriteIsWellFormed(t, rest, behind, m');
      if seg.kind == Str {
        StringKept(seg.text, previousCode, tail, tail', m);
      } else {
        ReplaceCodeAligned(t, seg.text, tail, tail');
        if seg.kind == Code {
          CodeKept(t, seg.text, tail, tail', m);
        } else {
          CommentKept(t, seg.text, tail, tail', m);
        }
      }
    }
  }

  lemma NothingAligned()
    ensures Aligned("", "")
  {
  }

  // Structure preservation: lexing the output gives the rewritten segments of the input, one for
  // one and of the same kinds.
  lemma StructurePreserved(t: Table, src: string)
    requires ValidTable(t)
    ensures Lex(Transformed(t, src), TOP) == Rewrite(t, Lex(src, TOP), "")
    ensures |Lex(Transformed(t, src), TOP)| == |Lex(src, TOP)|
    ensures forall i :: 0 <= i < |Lex(src, TOP)| ==> Lex(Transformed(t, src), TOP)[i].kind == Lex(src, TOP)[i].kind
  {
    hide Lex, WellFormed, ValidTable;
    LexIsWellFormed(src, TOP);
    RewriteIsWellFormed(t, Lex(src, TOP), "", TOP);
    WellFormedIsLex(Rewrite(t, Lex(src, TOP), ""), TOP);
  }

  // The code the string at index `i` sees before it.
  function CodeBefore(t: Table, segs: seq<Segment>, previousCode: string, i: nat): string
    requires i <= |segs|
  {
    if i == 0 then previousCode
    else CodeBefore(t, segs[1..], CodeBehind(t, segs[0], previousCode), i - 1)
  }

  lemma {:induction false} RewriteAt(t: Table, segs: seq<Segment>, previousCode: string, i: nat)
    requires i < |segs|
    ensures Rewrite(t, segs, previousCode)[i].text ==
            RewriteText(t, segs[i], CodeBefore(t, segs, previousCode, i))
    decreases i
  {
    hide RewriteText, CodeBehind;
    var r := Rewrite(t, segs, previousCode);
    assert r[1..] == Rewrite(t, segs[1..], CodeBehind(t, segs[0], previousCode));
    if i > 0 {
      assert r[i] == r[1..][i - 1] && segs[i] == segs[1..][i - 1];
      RewriteAt(t, segs[1..], CodeBehind(t, segs[0], previousCode), i - 1);
    }
  }

  // Template text, and any string outside an import or env bracket context, is left alone.
  lemma OtherStringsUntouched(t: Table, src: string, i: nat)
    requires ValidTable(t) && i < |Lex(src, TOP)|
    requires var seg := Lex(src, TOP)[i];
             var before := CodeBefore(t, Lex(src, TOP), "", i);
             && seg.kind == Str
             && (!Quoted(seg.text) || (!ImportContext(before) && !EnvBracketContext(before)))
    ensures |Lex(Transformed(t, src), TOP)| == |Lex(src, TOP)|
    ensures Lex(Transformed(t, src), TOP)[i] == Lex(src, TOP)[i]
  {
    hide Lex, ValidTable, ImportContext, EnvBracketContext, CodeBefore;
    StructurePreserved(t, src);
    RewriteAt(t, Lex(src, TOP), "", i);
  }

  // --- a second run ---

  lemma EditedIsUntouched(text: string, previousCode: string)
    ensures StringEdit(TransformString(text, previousCode), previousCode).Untouched?
  {
    hide ImportContext, EnvBracketContext, MapImportPath;
    match StringEdit(text, previousCode)
    case Untouched =>
    case Replaced(inner, _) =>
      assert Inner(Quote(text[0], inner)) == inner;
      if ImportContext(previousCode) {
        NewPathsAreFixed(Inner(text));
      } else {
        assert inner[0] == ENV_PREFIX_NEW[0] == 'T' && ENV_PREFIX_OLD[0] == 'K';
      }
  }

  lemma {:induction false} RewriteAgain(t: Table, segs: seq<Segment>, previousCode: string)
    requires ValidTable(t)
    ensures Rewrite(t, Rewrite(t, segs, previousCode), previousCode) == Rewrite(t, segs, previousCode)
    ensures RewriteKeys(t, Rewrite(t, segs, previousCode), previousCode) == []
  {
    hide ReplaceCode, CodeKeys, StringEdit, ValidTable;
    if segs != [] {
      var seg := segs[0];
      var behind := CodeBehind(t, seg, previousCode);
      var r := Rewrite(t, segs, previousCode);
      assert r[1..] == Rewrite(t, segs[1..], behind);
      RewriteAgain(t, segs[1..], behind);
      if seg.kind == Str {
        EditedIsUntouched(seg.text, previousCode);
      } else {
        ReplaceCodeTwice(t, seg.text);
      }
      assert CodeBehind(t, r[0], previousCode) == behind;
    }
  }

  // Idempotence: a second run changes nothing and counts nothing.
  lemma TransformTwice(t: Table, src: string)
    requires ValidTable(t)
    ensures Transformed(t, Transformed(t, src)) == Transformed(t, src)
    ensures TransformedKeys(t, Transformed(t, src)) == []
  {
    hide Lex, ValidTable, Rewrite, RewriteKeys;
    StructurePreserved(t, src);
    RewriteAgain(t, Lex(src, TOP), "");
  }
}
