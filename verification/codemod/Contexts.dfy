/** Which code makes a string an import or an env name, and what becomes of such strings. */
module Contexts {
  import opened Prelude
  import opened Text
  import opened Words
  import opened ImportPath
  import opened Rewriter
  import opened Lexer
  import opened Codemod
  import opened CodemodLaws

  // --- the contexts, as ways to split the code before a string ---

  predicate AllSpace(s: string) {
    forall i :: 0 <= i < |s| ==> Space(s[i])
  }

  // A word can start behind `a`.
  predicate Boundary(a: string) {
    a != "" ==> !WordChar(a[|a| - 1])
  }

  predicate KeywordSplit(code: string, a: string, w: string, ws: string) {
    && w in {"from", "import"} && Boundary(a) && AllSpace(ws)
    && code == a + (w + ws)
  }

  predicate CallSplit(code: string, a: string, w: string, ws1: string, ws2: string) {
    && w in {"require", "import", "mock", "importActual"} && Boundary(a) && AllSpace(ws1) && AllSpace(ws2)
    && code == a + (w + (ws1 + ("(" + ws2)))
  }

  // A string behind `code` is an import specifier.
  ghost predicate BeforeImport(code: string) {
    || (exists a, w, ws :: KeywordSplit(code, a, w, ws))
    || exists a, w, ws1, ws2 :: CallSplit(code, a, w, ws1, ws2)
  }

  predicate BracketSplit(code: string, a: string, w: string, ws1: string, ws2: string) {
    && w in {"process.env", "import.meta.env"} && AllSpace(ws1) && AllSpace(ws2)
    && code == a + (w + (ws1 + ("[" + ws2)))
  }

  // A string behind `code` is the name of an env variable.
  ghost predicate BeforeEnvName(code: string) {
    exists a, w, ws1, ws2 :: BracketSplit(code, a, w, ws1, ws2)
  }

  // --- white space at the end ---

  lemma {:induction false} TrimSplits(s: string) returns (ws: string)
    ensures s == TrimRight(s) + ws && AllSpace(ws)
    ensures TrimRight(s) != "" ==> !Space(TrimRight(s)[|TrimRight(s)| - 1])
  {
    hide Space;
    if s != "" && Space(s[|s| - 1]) {
      var ws' := TrimSplits(s[..|s| - 1]);
      ws := ws' + [s[|s| - 1]];
      assert s == s[..|s| - 1] + [s[|s| - 1]];
    } else {
      ws := "";
      assert s == s + ws;
    }
  }

  lemma {:induction false} TrimOf(b: string, ws: string)
    requires AllSpace(ws) && (b != "" ==> !Space(b[|b| - 1]))
    ensures TrimRight(b + ws) == b
    decreases |ws|
  {
    hide Space;
    var s := b + ws;
    if ws == "" {
      assert s == b;
    } else {
      assert s[|s| - 1] == ws[|ws| - 1];
      assert s[..|s| - 1] == b + ws[..|ws| - 1];
      TrimOf(b, ws[..|ws| - 1]);
    }
  }

  // --- words at the end ---

  lemma WordSplits(s: string, w: string)
    requires EndsWith(s, w)
    ensures var a := s[..|s| - |w|]; s == a + w && (EndsWithWord(s, w) <==> Boundary(a))
  {
    hide WordChar;
    var a := s[..|s| - |w|];
    assert a != "" ==> a[|a| - 1] == s[|s| - |w| - 1];
  }

  lemma EndsIn(a: string, w: string)
    ensures EndsWith(a + w, w) && (a + w)[..|a + w| - |w|] == a
  {
  }

  // The word `w`, then white space: exactly the code that ends in such a word when trimmed.
  lemma EndsInWord(code: string, w: string)
    requires w != "" && !Space(w[|w| - 1])
    ensures EndsWithWord(TrimRight(code), w) <==>
            exists a, ws :: Boundary(a) && AllSpace(ws) && code == a + (w + ws)
  {
    hide Space, WordChar, EndsWith;
    var s := TrimRight(code);
    var ws := TrimSplits(code);
    if EndsWithWord(s, w) {
      WordSplits(s, w);
      var a := s[..|s| - |w|];
      assert code == a + (w + ws);
      assert Boundary(a) && AllSpace(ws);
    }
    forall a, ws | Boundary(a) && AllSpace(ws) && code == a + (w + ws)
      ensures EndsWithWord(s, w)
    {
      assert code == a + w + ws;
      assert (a + w)[|a + w| - 1] == w[|w| - 1];
      TrimOf(a + w, ws);
      EndsIn(a, w);
      WordSplits(a + w, w);
    }
  }

  lemma EndsInText(code: string, w: string)
    requires w != "" && !Space(w[|w| - 1])
    ensures EndsWith(TrimRight(code), w) <==> exists a, ws :: AllSpace(ws) && code == a + (w + ws)
  {
    hide Space, WordChar, EndsWith;
    var s := TrimRight(code);
    var ws := TrimSplits(code);
    if EndsWith(s, w) {
      WordSplits(s, w);
      assert code == s[..|s| - |w|] + (w + ws);
    }
    forall a, ws | AllSpace(ws) && code == a + (w + ws)
      ensures EndsWith(s, w)
    {
      assert code == a + w + ws;
      assert (a + w)[|a + w| - 1] == w[|w| - 1];
      TrimOf(a + w, ws);
      EndsIn(a, w);
    }
  }

  // An opening bracket, then white space: the text before the bracket is determined.
  lemma BracketEnd(code: string, open: char) returns (ws: string)
    requires !Space(open)
    ensures EndsWith(TrimRight(code), [open]) ==>
              |TrimRight(code)| > 0 && AllSpace(ws) && code == TrimRight(code)[..|TrimRight(code)| - 1] + ([open] + ws)
  {
    hide Space;
    var s := TrimRight(code);
    ws := TrimSplits(code);
    if EndsWith(s, [open]) {
      assert s == s[..|s| - 1] + [open];
    }
  }

  lemma OpenedEnd(inner: string, open: char, ws: string)
    requires !Space(open) && AllSpace(ws)
    ensures var s := TrimRight(inner + ([open] + ws)); EndsWith(s, [open]) && s[..|s| - 1] == inner
  {
    hide Space;
    assert inner + ([open] + ws) == inner + [open] + ws;
    TrimOf(inner + [open], ws);
  }

  predicate CallContext(code: string, w: string) {
    var s := TrimRight(code);
    EndsWith(s, "(") && EndsWithWord(TrimRight(s[..|s| - 1]), w)
  }

  lemma CallSplits(code: string, w: string) returns (a: string, ws1: string, ws2: string)
    requires w in {"require", "import", "mock", "importActual"} && CallContext(code, w)
    ensures CallSplit(code, a, w, ws1, ws2)
  {
    hide Space, WordChar, EndsWith, EndsWithWord, TrimRight;
    LastLetters();
    var s := TrimRight(code);
    ws2 := BracketEnd(code, '(');
    var inner := s[..|s| - 1];
    EndsInWord(inner, w);
    a, ws1 :| Boundary(a) && AllSpace(ws1) && inner == a + (w + ws1);
    Regroup(a, w, ws1, "(" + ws2);
  }

  lemma CallOf(code: string, a: string, w: string, ws1: string, ws2: string)
    requires CallSplit(code, a, w, ws1, ws2)
    ensures CallContext(code, w)
  {
    hide Space, WordChar, EndsWith, EndsWithWord, TrimRight;
    LastLetters();
    var inner := a + (w + ws1);
    Regroup(a, w, ws1, "(" + ws2);
    OpenedEnd(inner, '(', ws2);
    EndsInWord(inner, w);
  }

  lemma CallIsSplit(code: string, w: string)
    requires w in {"require", "import", "mock", "importActual"}
    ensures CallContext(code, w) <==> exists a, ws1, ws2 :: CallSplit(code, a, w, ws1, ws2)
  {
    hide CallContext, CallSplit;
    if CallContext(code, w) {
      var a, ws1, ws2 := CallSplits(code, w);
    }
    forall a, ws1, ws2 | CallSplit(code, a, w, ws1, ws2)
      ensures CallContext(code, w)
    {
      CallOf(code, a, w, ws1, ws2);
    }
  }

  lemma Regroup(a: string, b: string, c: string, d: string)
    ensures a + (b + c) + d == a + (b + (c + d))
  {
    assert b + c + d == b + (c + d);
  }

  lemma LastLetters()
    ensures !Space('(') && !Space('[')
    ensures forall w :: w in {"from", "import", "require", "mock", "importActual", "process.env", "import.meta.env"} ==>
              w != "" && !Space(w[|w| - 1])
  {
  }

  // The two patterns of the source, without running them.
  lemma ImportContextIsSplit(code: string)
    ensures ImportContext(code) <==> BeforeImport(code)
  {
    hide Space, WordChar, EndsWith, EndsWithWord, TrimRight, CallSplit;
    LastLetters();
    EndsInWord(code, "from");
    EndsInWord(code, "import");
    CallIsSplit(code, "require");
    CallIsSplit(code, "import");
    CallIsSplit(code, "mock");
    CallIsSplit(code, "importActual");
    KeywordIsSplit(code);
    CallsAreSplit(code);
  }

  lemma KeywordIsSplit(code: string)
    ensures (exists a, w, ws :: KeywordSplit(code, a, w, ws)) <==>
            || (exists a, ws :: Boundary(a) && AllSpace(ws) && code == a + ("from" + ws))
            || (exists a, ws :: Boundary(a) && AllSpace(ws) && code == a + ("import" + ws))
  {
    hide Boundary, AllSpace;
    forall a, ws | Boundary(a) && AllSpace(ws) && code == a + ("from" + ws)
      ensures exists a, w, ws :: KeywordSplit(code, a, w, ws)
    {
      assert KeywordSplit(code, a, "from", ws);
    }
    forall a, ws | Boundary(a) && AllSpace(ws) && code == a + ("import" + ws)
      ensures exists a, w, ws :: KeywordSplit(code, a, w, ws)
    {
      assert KeywordSplit(code, a, "import", ws);
    }
  }

  lemma CallsAreSplit(code: string)
    ensures (exists a, w, ws1, ws2 :: CallSplit(code, a, w, ws1, ws2)) <==>
            || (exists a, ws1, ws2 :: CallSplit(code, a, "require", ws1, ws2))
            || (exists a, ws1, ws2 :: CallSplit(code, a, "import", ws1, ws2))
            || (exists a, ws1, ws2 :: CallSplit(code, a, "mock", ws1, ws2))
            || (exists a, ws1, ws2 :: CallSplit(code, a, "importActual", ws1, ws2))
  {
    forall a, w, ws1, ws2 | CallSplit(code, a, w, ws1, ws2)
      ensures w == "require" || w == "import" || w == "mock" || w == "importActual"
    {
    }
  }

  predicate BracketContext(code: string, w: string) {
    var s := TrimRight(code);
    EndsWith(s, "[") && EndsWith(TrimRight(s[..|s| - 1]), w)
  }

  lemma BracketSplits(code: string, w: string) returns (a: string, ws1: string, ws2: string)
    requires w in {"process.env", "import.meta.env"} && BracketContext(code, w)
    ensures BracketSplit(code, a, w, ws1, ws2)
  {
    hide Space, WordChar, EndsWith, EndsWithWord, TrimRight;
    LastLetters();
    var s := TrimRight(code);
    ws2 := BracketEnd(code, '[');
    var inner := s[..|s| - 1];
    EndsInText(inner, w);
    a, ws1 :| AllSpace(ws1) && inner == a + (w + ws1);
    Regroup(a, w, ws1, "[" + ws2);
  }

  lemma BracketOf(code: string, a: string, w: string, ws1: string, ws2: string)
    requires BracketSplit(code, a, w, ws1, ws2)
    ensures BracketContext(code, w)
  {
    hide Space, WordChar, EndsWith, EndsWithWord, TrimRight;
    LastLetters();
    var inner := a + (w + ws1);
    Regroup(a, w, ws1, "[" + ws2);
    OpenedEnd(inner, '[', ws2);
    EndsInText(inner, w);
  }

  lemma BracketIsSplit(code: string, w: string)
    requires w in {"process.env", "import.meta.env"}
    ensures BracketContext(code, w) <==> exists a, ws1, ws2 :: BracketSplit(code, a, w, ws1, ws2)
  {
    hide BracketContext, BracketSplit;
    if BracketContext(code, w) {
      var a, ws1, ws2 := BracketSplits(code, w);
    }
    forall a, ws1, ws2 | BracketSplit(code, a, w, ws1, ws2)
      ensures BracketContext(code, w)
    {
      BracketOf(code, a, w, ws1, ws2);
    }
  }

  lemma EnvContextIsSplit(code: string)
    ensures EnvBracketContext(code) <==> BeforeEnvName(code)
  {
    hide Space, EndsWith, TrimRight, BracketSplit;
    BracketIsSplit(code, "process.env");
    BracketIsSplit(code, "import.meta.env");
    BracketsAreSplit(code);
  }

  lemma BracketsAreSplit(code: string)
    ensures BeforeEnvName(code) <==>
            || (exists a, ws1, ws2 :: BracketSplit(code, a, "process.env", ws1, ws2))
            || (exists a, ws1, ws2 :: BracketSplit(code, a, "import.meta.env", ws1, ws2))
  {
    forall a, w, ws1, ws2 | BracketSplit(code, a, w, ws1, ws2)
      ensures w == "process.env" || w == "import.meta.env"
    {
    }
  }

  // --- the code before a string ---

  // The rewriting of the last code segment before the i-th, if only comments stand between.
  ghost predicate StandsBefore(t: Table, segs: seq<Segment>, i: nat, code: string)
    requires i <= |segs|
  {
    || (exists k :: CodeAt(segs, k, i) && code == ReplaceCode(t, segs[k].text))
    || (code == "" && forall k :: !CodeAt(segs, k, i))
  }

  predicate CodeAt(segs: seq<Segment>, k: int, i: nat)
    requires i <= |segs|
  {
    0 <= k < i && segs[k].kind == Code && forall j :: k < j < i ==> segs[j].kind == Comment
  }

  lemma {:induction false} CodeBeforeGrows(t: Table, segs: seq<Segment>, previousCode: string, i: nat)
    requires i < |segs|
    ensures CodeBefore(t, segs, previousCode, i + 1) == CodeBehind(t, segs[i], CodeBefore(t, segs, previousCode, i))
    decreases i
  {
    hide CodeBehind;
    if i > 0 {
      CodeBeforeGrows(t, segs[1..], CodeBehind(t, segs[0], previousCode), i - 1);
    }
  }

  lemma {:induction false} CodeBeforeStandsBefore(t: Table, segs: seq<Segment>, i: nat)
    requires i <= |segs|
    ensures StandsBefore(t, segs, i, CodeBefore(t, segs, "", i))
    decreases i
  {
    hide ReplaceCode, CodeBefore;
    if i == 0 {
      NothingBefore(t, segs);
    } else {
      CodeBeforeStandsBefore(t, segs, i - 1);
      CodeBeforeGrows(t, segs, "", i - 1);
      OneSegmentOn(t, segs, i - 1, CodeBefore(t, segs, "", i - 1));
    }
  }

  lemma NothingBefore(t: Table, segs: seq<Segment>)
    ensures CodeBefore(t, segs, "", 0) == "" && StandsBefore(t, segs, 0, "")
  {
  }

  lemma OneSegmentOn(t: Table, segs: seq<Segment>, i: nat, code: string)
    requires i < |segs| && StandsBefore(t, segs, i, code)
    ensures StandsBefore(t, segs, i + 1, CodeBehind(t, segs[i], code))
  {
    hide ReplaceCode;
    var next := i + 1;
    match segs[i].kind
    case Code =>
      assert CodeAt(segs, i, i + 1);
    case Comment =>
      if k :| CodeAt(segs, k, i) && code == ReplaceCode(t, segs[k].text) {
        CodeAtFurther(segs, k, i);
      } else {
        forall k
          ensures !CodeAt(segs, k, next)
        {
          CodeAtFurther(segs, k, i);
        }
      }
    case Str =>
      forall k
        ensures !CodeAt(segs, k, next)
      {
        CodeAtFurther(segs, k, i);
      }
  }

  lemma CodeAtFurther(segs: seq<Segment>, k: int, i: nat)
    requires i < |segs| && segs[i].kind != Code
    ensures CodeAt(segs, k, i + 1) <==> segs[i].kind == Comment && CodeAt(segs, k, i)
  {
  }

  lemma CodeAtIsLast(segs: seq<Segment>, k: int, k': int, i: nat)
    requires i <= |segs| && CodeAt(segs, k, i) && CodeAt(segs, k', i)
    ensures k <= k'
  {
  }

  // There is only one code before a segment.
  lemma OnlyOneStandsBefore(t: Table, segs: seq<Segment>, i: nat, code: string, code': string)
    requires i <= |segs| && StandsBefore(t, segs, i, code) && StandsBefore(t, segs, i, code')
    ensures code == code'
  {
    hide ReplaceCode;
    forall k, k' | CodeAt(segs, k, i) && CodeAt(segs, k', i)
      ensures k == k'
    {
      CodeAtIsLast(segs, k, k', i);
      CodeAtIsLast(segs, k', k, i);
    }
  }

  // --- what becomes of a quoted string ---

  predicate QuotedText(text: string, quote: char, inner: string) {
    quote in {'"', '\''} && text == [quote] + inner + [quote]
  }

  predicate OldEnvName(name: string, w: string) {
    w != "" && AllWord(w) && name == "KAVACH_" + w
  }

  lemma EnvNameIsOld(name: string)
    ensures EnvName(name) <==> exists w :: OldEnvName(name, w)
    ensures forall w :: OldEnvName(name, w) ==> name[7..] == w
  {
    hide WordChar;
    if EnvName(name) {
      assert name[..7] == "KAVACH_";
      assert OldEnvName(name, name[7..]);
    }
    forall w | OldEnvName(name, w)
      ensures EnvName(name) && name[7..] == w
    {
    }
  }

  // The new text of a quoted string and the key it is counted under.
  ghost predicate BecomesOf(code: string, quote: char, inner: string, text': string, keys: seq<string>) {
    if BeforeImport(code) then
      var mapped := MapImportPath(inner);
      if mapped.Some? then text' == [quote] + mapped.value + [quote] && keys == ["import:" + inner]
      else text' == [quote] + inner + [quote] && keys == []
    else if BeforeEnvName(code) && exists w :: OldEnvName(inner, w) then
      (forall w :: OldEnvName(inner, w) ==> text' == [quote] + ("THEAUTH_" + w) + [quote]) && keys == ["env:" + inner]
    else text' == [quote] + inner + [quote] && keys == []
  }

  lemma StringBecomes(code: string, quote: char, inner: string)
    requires quote in {'"', '\''}
    ensures var text := [quote] + inner + [quote];
            BecomesOf(code, quote, inner, TransformString(text, code), StringKeys(text, code))
  {
    hide ImportContext, EnvBracketContext, BeforeImport, BeforeEnvName, MapImportPath, EnvName;
    ImportContextIsSplit(code);
    EnvContextIsSplit(code);
    EnvNameIsOld(inner);
    assert Inner([quote] + inner + [quote]) == inner;
  }

  // A quoted segment of the output is decided by the code that stands before it.
  lemma QuotedSegmentBecomes(t: Table, src: string, i: nat, quote: char, inner: string, code: string)
    requires ValidTable(t) && i < |Lex(src, TOP)|
    requires Lex(src, TOP)[i].kind == Str && QuotedText(Lex(src, TOP)[i].text, quote, inner)
    requires StandsBefore(t, Lex(src, TOP), i, code)
    ensures i < |Lex(Transformed(t, src), TOP)|
    ensures BecomesOf(code, quote, inner, Lex(Transformed(t, src), TOP)[i].text,
                      SegmentKeys(t, Lex(src, TOP)[i], code))
  {
    hide Lex, ValidTable, CodeBefore, Rewrite, Transformed, StandsBefore, BecomesOf, TransformString, StringKeys;
    var segs := Lex(src, TOP);
    StructurePreserved(t, src);
    RewriteAt(t, segs, "", i);
    CodeBeforeStandsBefore(t, segs, i);
    OnlyOneStandsBefore(t, segs, i, code, CodeBefore(t, segs, "", i));
    StringBecomes(code, quote, inner);
  }

  // In particular: a specifier that maps is replaced if and only if it stands where an import's does.
  lemma SpecifierIsMappedIffImported(t: Table, src: string, i: nat, quote: char, inner: string, code: string)
    requires ValidTable(t) && i < |Lex(src, TOP)|
    requires Lex(src, TOP)[i].kind == Str && QuotedText(Lex(src, TOP)[i].text, quote, inner)
    requires StandsBefore(t, Lex(src, TOP), i, code) && MapImportPath(inner).Some?
    ensures i < |Lex(Transformed(t, src), TOP)|
    ensures Lex(Transformed(t, src), TOP)[i].text == [quote] + MapImportPath(inner).value + [quote] <==> BeforeImport(code)
  {
    hide Lex, ValidTable, Transformed, StandsBefore, BeforeImport, BeforeEnvName, MapImportPath, SegmentKeys;
    QuotedSegmentBecomes(t, src, i, quote, inner, code);
    NewPathsAreFixed(inner);
    SpecifierIsNoEnvName(inner);
    var m := MapImportPath(inner).value;
    assert ([quote] + m + [quote])[1..|m| + 1] == m && ([quote] + inner + [quote])[1..|inner| + 1] == inner;
  }

  lemma SpecifierIsNoEnvName(inner: string)
    requires MapImportPath(inner).Some?
    ensures forall w :: !OldEnvName(inner, w)
  {
    hide WordChar;
    assert UNSCOPED_OLD[0] == 'k' && SCOPED_OLD[0] == '@';
    forall w
      ensures !OldEnvName(inner, w)
    {
      assert ("KAVACH_" + w)[0] == 'K';
    }
  }

  // Template text stays as it is, wherever it stands.
  lemma TemplateTextStays(t: Table, src: string, i: nat)
    requires ValidTable(t) && i < |Lex(src, TOP)| && Lex(src, TOP)[i].kind == Str
    requires Lex(src, TOP)[i].text != "" && Lex(src, TOP)[i].text[0] !in {'"', '\''}
    ensures |Lex(Transformed(t, src), TOP)| == |Lex(src, TOP)|
    ensures Lex(Transformed(t, src), TOP)[i] == Lex(src, TOP)[i]
  {
    hide Lex, ValidTable, CodeBefore, Transformed;
    OtherStringsUntouched(t, src, i);
  }

  // --- the counts ---

  function CountOf(counts: map<string, nat>, key: string): nat {
    if key in counts then counts[key] else 0
  }

  // Each key is counted once for each time it occurs.
  lemma {:induction false} EachKeyIsCounted(counts: map<string, nat>, keys: seq<string>, key: string)
    ensures CountOf(Bumped(counts, keys), key) == CountOf(counts, key) + multiset(keys)[key]
    decreases |keys|
  {
    if keys != [] {
      EachKeyIsCounted(Bump1(counts, keys[0]), keys[1..], key);
      assert keys == [keys[0]] + keys[1..];
    }
  }

  // The keys of a script are those of its segments, each with the code that stands before it.
  lemma {:induction false} KeysBySegment(t: Table, segs: seq<Segment>, previousCode: string, n: nat)
    requires n < |segs|
    ensures RewriteKeys(t, segs[..n + 1], previousCode) ==
            RewriteKeys(t, segs[..n], previousCode) + SegmentKeys(t, segs[n], CodeBefore(t, segs, previousCode, n))
    decreases n
  {
    hide SegmentKeys, CodeBehind;
    if n == 0 {
      assert segs[..1] == [segs[0]] && segs[..1][1..] == [] && segs[..0] == [];
    } else {
      var behind := CodeBehind(t, segs[0], previousCode);
      KeysBySegment(t, segs[1..], behind, n - 1);
      assert segs[..n + 1][1..] == segs[1..][..n] && segs[..n][1..] == segs[1..][..n - 1];
    }
  }
}
