/** `transformScript`: the rename codemod on one script. */
module Codemod {
  import opened Prelude
  import opened Text
  import opened Words
  import opened ImportPath
  import opened Rewriter
  import opened Lexer

  // --- the contexts a string can stand in ---

  function TrimRight(s: string): (r: string)
    ensures |r| <= |s|
  {
    if s != "" && Space(s[|s| - 1]) then TrimRight(s[..|s| - 1]) else s
  }

  // `\bw$`: `w` stands at the end and no word character stands before it.
  predicate EndsWithWord(s: string, w: string) {
    EndsWith(s, w) && (|s| > |w| ==> !WordChar(s[|s| - |w| - 1]))
  }

  // `from`, `import`, `require(`, `import(`, `mock(` or `importActual(`, and whitespace.
  predicate ImportContext(code: string) {
    var s := TrimRight(code);
    || EndsWithWord(s, "from") || EndsWithWord(s, "import")
    || (EndsWith(s, "(") &&
        var callee := TrimRight(s[..|s| - 1]);
        || EndsWithWord(callee, "require") || EndsWithWord(callee, "import")
        || EndsWithWord(callee, "mock") || EndsWithWord(callee, "importActual"))
  }

  // `process.env[` or `import.meta.env[`, and whitespace.
  predicate EnvBracketContext(code: string) {
    var s := TrimRight(code);
    EndsWith(s, "[") &&
    var target := TrimRight(s[..|s| - 1]);
    EndsWith(target, "process.env") || EndsWith(target, "import.meta.env")
  }

  predicate EnvName(s: string) {
    ENV_PREFIX_OLD <= s && |s| > 7 && AllWord(s[7..])
  }

  predicate Quoted(text: string) {
    |text| >= 2 && (text[0] == '"' || text[0] == '\'')
  }

  function Inner(text: string): string
    requires |text| >= 2
  {
    text[1..|text| - 1]
  }

  function Quote(quote: char, inner: string): string {
    [quote] + inner + [quote]
  }

  // The new text of a string segment, and the key it is counted under.
  datatype Edit = Untouched | Replaced(inner: string, key: string)

  function StringEdit(text: string, previousCode: string): Edit {
    if !Quoted(text) then Untouched
    else if ImportContext(previousCode) then
      match MapImportPath(Inner(text))
      case None => Untouched
      case Some(mapped) => Replaced(mapped, "import:" + Inner(text))
    else if EnvBracketContext(previousCode) && EnvName(Inner(text)) then
      Replaced(ENV_PREFIX_NEW + Inner(text)[7..], "env:" + Inner(text))
    else Untouched
  }

  function TransformString(text: string, previousCode: string): string {
    match StringEdit(text, previousCode)
    case Untouched => text
    case Replaced(inner, _) => Quote(text[0], inner)
  }

  function StringKeys(text: string, previousCode: string): seq<string> {
    match StringEdit(text, previousCode)
    case Untouched => []
    case Replaced(_, key) => [key]
  }

  // --- segment by segment ---

  // The code the next string sees behind a segment; a comment does not change it.
  function CodeBehind(t: Table, seg: Segment, previousCode: string): string {
    match seg.kind
    case Code => ReplaceCode(t, seg.text)
    case Comment => previousCode
    case Str => ""
  }

  function RewriteText(t: Table, seg: Segment, previousCode: string): string {
    if seg.kind == Str then TransformString(seg.text, previousCode) else ReplaceCode(t, seg.text)
  }

  function SegmentKeys(t: Table, seg: Segment, previousCode: string): seq<string> {
    if seg.kind == Str then StringKeys(seg.text, previousCode) else CodeKeys(t, seg.text)
  }

  function Rewrite(t: Table, segs: seq<Segment>, previousCode: string): (r: seq<Segment>)
    ensures |r| == |segs|
    ensures forall i :: 0 <= i < |segs| ==> r[i].kind == segs[i].kind
  {
    if segs == [] then []
    else
      [Segment(segs[0].kind, RewriteText(t, segs[0], previousCode))]
      + Rewrite(t, segs[1..], CodeBehind(t, segs[0], previousCode))
  }

  function RewriteKeys(t: Table, segs: seq<Segment>, previousCode: string): seq<string> {
    if segs == [] then []
    else
      SegmentKeys(t, segs[0], previousCode)
      + RewriteKeys(t, segs[1..], CodeBehind(t, segs[0], previousCode))
  }

  // The output of the codemod on a script, and the keys it counts.
  function Transformed(t: Table, src: string): string {
    Join(Rewrite(t, Lex(src, TOP), ""))
  }

  function TransformedKeys(t: Table, src: string): seq<string> {
    RewriteKeys(t, Lex(src, TOP), "")
  }

  // --- the source's loops and its counts ---

  // `bump`
  function Bump1(counts: map<string, nat>, key: string): map<string, nat> {
    counts[key := (if key in counts then counts[key] else 0) + 1]
  }

  function Bumped(counts: map<string, nat>, keys: seq<string>): map<string, nat>
    decreases |keys|
  {
    if keys == [] then counts else Bumped(Bump1(counts, keys[0]), keys[1..])
  }

  lemma BumpedConcat(counts: map<string, nat>, a: seq<string>, b: seq<string>)
    ensures Bumped(counts, a + b) == Bumped(Bumped(counts, a), b)
    decreases |a|
  {
    hide Bump1;
    if a == [] {
      assert a + b == b;
    } else {
      assert (a + b)[1..] == a[1..] + b;
      BumpedConcat(Bump1(counts, a[0]), a[1..], b);
    }
  }

  // `counts`, the map every replacement bumps.
  class Tally {
    var counts: map<string, nat>

    constructor ()
      ensures counts == map[]
    {
      counts := map[];
    }

    method Bump(key: string)
      modifies this
      ensures counts == Bumped(old(counts), [key])
    {
      counts := Bump1(counts, key);
    }
  }

  // One piece moves from the pending matches to the output and the counts.
  lemma PieceDone(ps: seq<Piece>, i: nat, out: string, counts: map<string, nat>)
    requires i < |ps|
    ensures out + After(ps[i..]) == out + ps[i].Target() + After(ps[i + 1..])
    ensures Bumped(counts, Keys(ps[i..])) == Bumped(Bumped(counts, ps[i].Counted()), Keys(ps[i + 1..]))
  {
    var rest := ps[i..];
    assert rest[1..] == ps[i + 1..] && rest[0] == ps[i];
    BumpedConcat(counts, ps[i].Counted(), Keys(ps[i + 1..]));
  }

  // `text.replace(CODE_PATTERN, ...)`: one match at a time, each of them counted.
  method ReplaceCodeCounting(t: Table, text: string, tally: Tally) returns (out: string)
    modifies tally
    ensures out == ReplaceCode(t, text)
    ensures tally.counts == Bumped(old(tally.counts), CodeKeys(t, text))
  {
    var ps := Pieces(t, false, text);
    hide Pieces, Bumped, After, Keys;
    out := "";
    var i := 0;
    assert ps[0..] == ps;
    while i < |ps|
      invariant 0 <= i <= |ps|
      invariant out + After(ps[i..]) == After(ps)
      invariant Bumped(tally.counts, Keys(ps[i..])) == Bumped(old(tally.counts), Keys(ps))
    {
      PieceDone(ps, i, out, tally.counts);
      if ps[i].Swap? {
        tally.Bump(ps[i].key);
      } else {
        BumpedNothing(tally.counts);
      }
      out := out + ps[i].Target();
      i := i + 1;
    }
    assert ps[i..] == [];
    BumpedNothing(tally.counts);
  }

  lemma BumpedNothing(counts: map<string, nat>)
    ensures Bumped(counts, []) == counts && After([]) == "" && Keys([]) == []
  {
  }

  method TransformStringCounting(text: string, previousCode: string, tally: Tally) returns (out: string)
    modifies tally
    ensures out == TransformString(text, previousCode)
    ensures tally.counts == Bumped(old(tally.counts), StringKeys(text, previousCode))
  {
    if !Quoted(text) {
      return text;
    }
    var quote, inner := text[0], Inner(text);
    if ImportContext(previousCode) {
      var mapped := MapImportPath(inner);
      if mapped.None? {
        return text;
      }
      tally.Bump("import:" + inner);
      return Quote(quote, mapped.value);
    }
    if EnvBracketContext(previousCode) && EnvName(inner) {
      tally.Bump("env:" + inner);
      return Quote(quote, ENV_PREFIX_NEW + inner[7..]);
    }
    return text;
  }

  method TransformScript(t: Table, src: string, tally: Tally) returns (out: string)
    modifies tally
    ensures out == Transformed(t, src)
    ensures tally.counts == Bumped(old(tally.counts), TransformedKeys(t, src))
  {
    hide Lex, Rewrite, RewriteKeys, Bumped, Join;
    var segments := Tokenize(src);
    out := "";
    var previousCode := "";
    var i := 0;
    assert segments[0..] == segments;
    while i < |segments|
      invariant 0 <= i <= |segments|
      invariant out + Join(Rewrite(t, segments[i..], previousCode)) == Transformed(t, src)
      invariant Bumped(tally.counts, RewriteKeys(t, segments[i..], previousCode))
             == Bumped(old(tally.counts), TransformedKeys(t, src))
    {
      hide Transformed, TransformedKeys, RewriteText, CodeBehind, SegmentKeys;
      var seg := segments[i];
      ghost var rest := segments[i..];
      assert rest[0] == seg && rest[1..] == segments[i + 1..];
      RewriteStep(t, rest, previousCode, tally.counts);
      var replaced;
      replaced, previousCode := TransformSegment(t, seg, previousCode, tally);
      out := out + replaced;
      i := i + 1;
    }
    NothingToRewrite(t, previousCode, tally.counts);
  }

  lemma NothingToRewrite(t: Table, previousCode: string, counts: map<string, nat>)
    ensures Join(Rewrite(t, [], previousCode)) == ""
    ensures Bumped(counts, RewriteKeys(t, [], previousCode)) == counts
  {
  }

  // One turn of the loop; `behind` is the code the next segment sees before it.
  method TransformSegment(t: Table, seg: Segment, previousCode: string, tally: Tally)
    returns (out: string, behind: string)
    modifies tally
    ensures out == RewriteText(t, seg, previousCode) && behind == CodeBehind(t, seg, previousCode)
    ensures tally.counts == Bumped(old(tally.counts), SegmentKeys(t, seg, previousCode))
  {
    hide ReplaceCode, CodeKeys, TransformString, StringKeys, Bumped;
    behind := previousCode;
    if seg.kind == Code {
      out := ReplaceCodeCounting(t, seg.text, tally);
      behind := out;
    } else if seg.kind == Comment {
      out := ReplaceCodeCounting(t, seg.text, tally);
    } else {
      out := TransformStringCounting(seg.text, previousCode, tally);
      behind := "";
    }
  }

  lemma RewriteStep(t: Table, segs: seq<Segment>, previousCode: string, counts: map<string, nat>)
    requires segs != []
    ensures var behind := CodeBehind(t, segs[0], previousCode);
            && Join(Rewrite(t, segs, previousCode)) ==
               RewriteText(t, segs[0], previousCode) + Join(Rewrite(t, segs[1..], behind))
            && Bumped(counts, RewriteKeys(t, segs, previousCode)) ==
               Bumped(Bumped(counts, SegmentKeys(t, segs[0], previousCode)), RewriteKeys(t, segs[1..], behind))
  {
    hide RewriteText, SegmentKeys, CodeBehind;
    var behind := CodeBehind(t, segs[0], previousCode);
    var r := Rewrite(t, segs, previousCode);
    assert r[1..] == Rewrite(t, segs[1..], behind);
    BumpedConcat(counts, SegmentKeys(t, segs[0], previousCode), RewriteKeys(t, segs[1..], behind));
  }
}
