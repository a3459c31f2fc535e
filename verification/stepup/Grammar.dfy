/** The challenge grammar of RFC 9110 section 11.6.1 as a printer, and the parser as its inverse. */
module Grammar {
  import opened Prelude
  import opened Text
  import opened Challenges

  // Every `token` (RFC 9110 section 5.6.2), every `token68` without its padding (section 11.2), and
  // whatever else of ASCII does not end a word.
  predicate TokenChar(c: char) {
    c < '\U{80}' && c !in {' ', '\t', ',', '='}
  }

  predicate Token(s: string) {
    s != "" && forall i :: 0 <= i < |s| ==> TokenChar(s[i])
  }

  // A value without quotes: a `token`, or anything else that does not end one; also none at all.
  predicate BareValue(s: string) {
    && (s != "" ==> s[0] != '"' && s[0] != '=')
    && forall i :: 0 <= i < |s| ==> s[i] != ' ' && s[i] != '\t' && s[i] != ','
  }

  // `quoted-string` (RFC 9110 section 5.6.4): a character as it is, or a quoted pair.
  datatype QuotedChar = Plain(c: char) | Pair(c: char)

  datatype ValueText = TokenValue(token: string) | QuotedValue(chars: seq<QuotedChar>)

  // `auth-param` with its bad whitespace, and the list separator behind it.
  datatype ParamText = ParamText(name: string, before: string, after: string, value: ValueText, sep: string)

  // `challenge`: a scheme with parameters, or with a token68 and the list separator behind it.
  datatype ChallengeText =
    | ChallengeText(scheme: string, gap: string, params: seq<ParamText>)
    | Token68Text(scheme: string, gap: string, token: string, padding: nat, sep: string)

  function PrintQuoted(chars: seq<QuotedChar>): string {
    if chars == [] then "\""
    else (if chars[0].Plain? then [chars[0].c] else ['\\', chars[0].c]) + PrintQuoted(chars[1..])
  }

  function QuotedMeaning(chars: seq<QuotedChar>): string {
    if chars == [] then "" else [chars[0].c] + QuotedMeaning(chars[1..])
  }

  function PrintValue(v: ValueText): string {
    match v
    case TokenValue(s) => s
    case QuotedValue(chars) => "\"" + PrintQuoted(chars)
  }

  function ValueMeaning(v: ValueText): string {
    match v
    case TokenValue(s) => s
    case QuotedValue(chars) => QuotedMeaning(chars)
  }

  function PrintParam(p: ParamText): string {
    p.name + (p.before + ("=" + (p.after + (PrintValue(p.value) + p.sep))))
  }

  function PrintParams(ps: seq<ParamText>): string {
    if ps == [] then "" else PrintParam(ps[0]) + PrintParams(ps[1..])
  }

  function PrintCredentials(c: ChallengeText): string {
    match c
    case ChallengeText(_, _, params) => PrintParams(params)
    case Token68Text(_, _, token, padding, sep) => token + (Repeat('=', padding) + sep)
  }

  function PrintChallenges(cs: seq<ChallengeText>): string {
    if cs == [] then ""
    else cs[0].scheme + (cs[0].gap + (PrintCredentials(cs[0]) + PrintChallenges(cs[1..])))
  }

  // --- which texts are in the grammar ---

  predicate AllBlank(s: string) {
    forall i :: 0 <= i < |s| ==> s[i] == ' ' || s[i] == '\t'
  }

  predicate AllSeparators(s: string) {
    forall i :: 0 <= i < |s| ==> s[i] == ' ' || s[i] == '\t' || s[i] == ','
  }

  predicate ValueOk(v: ValueText) {
    match v
    case TokenValue(s) => BareValue(s)
    case QuotedValue(chars) => forall i :: 0 <= i < |chars| && chars[i].Plain? ==> chars[i].c != '"' && chars[i].c != '\\'
  }

  // `last` says that nothing follows; otherwise a comma does, and right away where there is no value.
  predicate ParamOk(p: ParamText, last: bool) {
    && (PrintValue(p.value) == "" && p.sep != "" ==> p.sep[0] == ',')
    && Token(p.name) && AllBlank(p.before) && AllBlank(p.after) && ValueOk(p.value)
    && AllSeparators(p.sep) && (last || ',' in p.sep)
  }

  predicate ParamsOk(ps: seq<ParamText>, last: bool) {
    forall i :: 0 <= i < |ps| ==> ParamOk(ps[i], last && i == |ps| - 1)
  }

  // Space separates a scheme from its parameters (the list rule allows empty elements before the
  // first), a comma one challenge from the next.
  predicate ChallengeOk(c: ChallengeText, last: bool) {
    && Token(c.scheme)
    && match c
       case ChallengeText(_, gap, params) =>
         && AllSeparators(gap) && ParamsOk(params, last)
         && if params != [] then gap != "" else last || ',' in gap
       case Token68Text(_, gap, token, _, sep) =>
         && gap != "" && AllBlank(gap) && Token(token)
         && AllSeparators(sep) && (last || ',' in sep)
  }

  predicate ChallengesOk(cs: seq<ChallengeText>) {
    forall i :: 0 <= i < |cs| ==> ChallengeOk(cs[i], i == |cs| - 1)
  }

  // --- what the texts mean ---

  // Names are lower-cased; of two parameters of one name the later wins.
  function ParamsMeaning(ps: seq<ParamText>, params: map<string, string>): map<string, string>
    decreases |ps|
  {
    if ps == [] then params
    else ParamsMeaning(ps[1..], params[ToLower(ps[0].name) := ValueMeaning(ps[0].value)])
  }

  function Meaning(cs: seq<ChallengeText>): seq<Challenge>
    requires forall i :: 0 <= i < |cs| ==> cs[i].ChallengeText?
  {
    if cs == [] then []
    else [Challenge(cs[0].scheme, ParamsMeaning(cs[0].params, map[]))] + Meaning(cs[1..])
  }

  // --- what the parser makes of them ---

  // A token68 is taken for a challenge of its own, or with one padding character for a parameter.
  function Reading(c: ChallengeText): seq<Challenge> {
    match c
    case ChallengeText(scheme, _, params) => [Challenge(scheme, ParamsMeaning(params, map[]))]
    case Token68Text(scheme, _, token, padding, _) =>
      if padding == 1 then [Challenge(scheme, map[ToLower(token) := ""])]
      else [Challenge(scheme, map[]), Challenge(token, map[])]
  }

  // More padding ends the parse.
  predicate Ends(c: ChallengeText) {
    c.Token68Text? && c.padding >= 2
  }

  function Readings(cs: seq<ChallengeText>): seq<Challenge> {
    if cs == [] then []
    else Reading(cs[0]) + if Ends(cs[0]) then [] else Readings(cs[1..])
  }

  // --- reading back one parameter ---

  lemma {:induction false} RunOver(p: char -> bool, a: string, b: string)
    requires forall i :: 0 <= i < |a| ==> p(a[i])
    requires b == "" || !p(b[0])
    ensures Run(p, a + b) == |a|
  {
    if a == "" {
      assert a + b == b;
    } else {
      assert (a + b)[1..] == a[1..] + b;
      RunOver(p, a[1..], b);
    }
  }

  lemma {:induction false} QuotedIsRead(chars: seq<QuotedChar>, rest: string)
    requires ValueOk(QuotedValue(chars))
    ensures QuotedText(PrintQuoted(chars) + rest) == (QuotedMeaning(chars), |PrintQuoted(chars)|)
  {
    var s := PrintQuoted(chars) + rest;
    if chars == [] {
      assert s[0] == '"';
    } else {
      QuotedIsRead(chars[1..], rest);
      if chars[0].Plain? {
        assert s == [chars[0].c] + (PrintQuoted(chars[1..]) + rest);
        assert s[1..] == PrintQuoted(chars[1..]) + rest;
      } else {
        assert s == ['\\', chars[0].c] + (PrintQuoted(chars[1..]) + rest);
        assert s[1] == chars[0].c && s[2..] == PrintQuoted(chars[1..]) + rest;
      }
    }
  }

  lemma ValueIsRead(v: ValueText, rest: string)
    requires ValueOk(v) && (rest == "" || Separator(rest[0]))
    ensures ParamValue(PrintValue(v) + rest) == (ValueMeaning(v), |PrintValue(v)|)
  {
    var s := PrintValue(v) + rest;
    match v
    case TokenValue(t) =>
      assert s != "" ==> s[0] == (if t != "" then t[0] else rest[0]);
      RunOver(ValueChar, t, rest);
    case QuotedValue(chars) =>
      assert s == "\"" + (PrintQuoted(chars) + rest);
      assert s[1..] == PrintQuoted(chars) + rest;
      QuotedIsRead(chars, rest);
  }

  lemma ValueStart(v: ValueText)
    requires ValueOk(v)
    ensures PrintValue(v) != "" ==> PrintValue(v)[0] != '=' && !Blank(PrintValue(v)[0])
  {
    if v.TokenValue? {
    }
  }

  // Neither an `=` nor a blank follows the blanks behind the `=`.
  lemma TailStart(p: ParamText, rest: string)
    requires ParamOk(p, rest == "")
    ensures var tail := PrintValue(p.value) + (p.sep + rest);
            && (tail != "" ==> tail[0] != '=' && !Blank(tail[0]))
            && (p.sep + rest == "" || Separator((p.sep + rest)[0]))
  {
    ValueStart(p.value);
    var tail := PrintValue(p.value) + (p.sep + rest);
    assert p.sep + rest != "" ==> (p.sep + rest)[0] == p.sep[0];
    assert tail != "" ==> tail[0] == if PrintValue(p.value) != "" then PrintValue(p.value)[0] else p.sep[0];
  }

  // What stands behind a parameter name reads as `=` and the value.
  lemma AssignmentIsRead(p: ParamText, from: nat, rest: string)
    requires ParamOk(p, rest == "")
    ensures ItemBehind(p.name, from, p.before + ("=" + (p.after + (PrintValue(p.value) + (p.sep + rest))))) ==
            Param(p.name, ValueMeaning(p.value), from + |p.before| + 1 + |p.after| + |PrintValue(p.value)|)
  {
    hide Run, ParamValue, PrintValue, ValueMeaning;
    var tail := PrintValue(p.value) + (p.sep + rest);
    var s4 := p.after + tail;
    var s3 := "=" + s4;
    var s := p.before + s3;
    TailStart(p, rest);
    assert s3[0] == '=';
    RunOver(Blank, p.before, s3);
    assert s[|p.before|..] == s3;
    assert s4 != "" ==> s4[0] == if p.after == "" then tail[0] else p.after[0];
    assert s4 != "" ==> s3[1] == s4[0] != '=';
    assert s[|p.before| + 1..] == s4;
    RunOver(Blank, p.after, tail);
    assert s[|p.before| + 1 + |p.after|..] == tail;
    ValueIsRead(p.value, p.sep + rest);
  }

  predicate Word(s: string) {
    s != "" && forall i :: 0 <= i < |s| ==> WordChar(s[i])
  }

  lemma WordIsRead(w: string, s2: string)
    requires Word(w) && (s2 == "" || !WordChar(s2[0]))
    ensures NextItem(w + s2) == ItemBehind(w, |w|, s2)
  {
    hide Run, ItemBehind;
    var s := w + s2;
    RunOver(Separator, "", s);
    assert "" + s == s && s[0..] == s;
    RunOver(WordChar, w, s2);
  }

  // The text of a parameter, grouped from the left and from the right.
  lemma ParamGroups(p: ParamText, rest: string)
    ensures PrintParam(p) + rest == p.name + (p.before + ("=" + (p.after + (PrintValue(p.value) + (p.sep + rest)))))
    ensures |PrintParam(p)| == |p.name| + |p.before| + 1 + |p.after| + |PrintValue(p.value)| + |p.sep|
    ensures (PrintParam(p) + rest)[|PrintParam(p)| - |p.sep|..] == p.sep + rest
  {
    hide PrintValue;
    var v := PrintValue(p.value);
    assert v + p.sep + rest == v + (p.sep + rest);
    assert p.after + (v + p.sep) + rest == p.after + (v + (p.sep + rest));
    assert "=" + (p.after + (v + p.sep)) + rest == "=" + (p.after + (v + (p.sep + rest)));
    assert p.before + ("=" + (p.after + (v + p.sep))) + rest == p.before + ("=" + (p.after + (v + (p.sep + rest))));
    assert PrintParam(p) + rest == p.name + (p.before + ("=" + (p.after + (v + p.sep))) + rest);
  }

  lemma ParamIsRead(p: ParamText, rest: string)
    requires ParamOk(p, rest == "")
    ensures NextItem(PrintParam(p) + rest) ==
            Param(p.name, ValueMeaning(p.value), |PrintParam(p)| - |p.sep|)
    ensures (PrintParam(p) + rest)[|PrintParam(p)| - |p.sep|..] == p.sep + rest
  {
    hide Run, PrintValue, ItemBehind, ValueMeaning, PrintParam, NextItem;
    var s2 := p.before + ("=" + (p.after + (PrintValue(p.value) + (p.sep + rest))));
    assert s2[0] == (if p.before == "" then '=' else p.before[0]);
    ParamGroups(p, rest);
    WordIsRead(p.name, s2);
    AssignmentIsRead(p, |p.name|, rest);
  }

  // A scheme is read with the blanks behind it; `gap'` is what is left of its gap.
  lemma SchemeIsRead(scheme: string, gap: string, rest: string) returns (gap': string)
    requires Word(scheme) && AllSeparators(gap)
    requires rest != "" ==> gap != "" && !Separator(rest[0]) && rest[0] != '='
    ensures AllSeparators(gap')
    ensures var item := NextItem(scheme + (gap + rest));
            && item.Scheme? && item.name == scheme
            && (scheme + (gap + rest))[item.len..] == gap' + rest
  {
    hide Run, NextItem, ItemBehind;
    var s2 := gap + rest;
    assert s2 != "" ==> gap != "" && s2[0] == gap[0];
    WordIsRead(scheme, s2);
    gap' := SchemeBehind(scheme, gap, rest);
    DropPast(scheme, s2, ItemBehind(scheme, |scheme|, s2).len);
  }

  lemma DropPast(a: string, b: string, n: nat)
    requires |a| <= n <= |a| + |b|
    ensures (a + b)[n..] == b[n - |a|..]
  {
  }

  lemma SchemeBehind(scheme: string, gap: string, rest: string) returns (gap': string)
    requires AllSeparators(gap)
    requires rest != "" ==> gap != "" && !Separator(rest[0]) && rest[0] != '='
    ensures AllSeparators(gap')
    ensures var item := ItemBehind(scheme, |scheme|, gap + rest);
            && item.Scheme? && item.name == scheme && item.len >= |scheme|
            && (gap + rest)[item.len - |scheme|..] == gap' + rest
  {
    hide Run;
    var s := gap + rest;
    var b := Run(Blank, s);
    assert forall i :: 0 <= i < |gap| ==> s[i] == gap[i];
    assert rest != "" ==> s[|gap|] == rest[0];
    assert b <= |gap|;
    gap' := gap[b..];
    assert s[b..] == gap' + rest;
    assert s[b..] != "" ==> s[b..][0] == s[b] != '=';
  }

  // --- reading back a header ---

  lemma {:induction false} SeparatorsSkipped(sep: string, s: string, out: seq<Challenge>)
    requires AllSeparators(sep)
    ensures ParseRest(sep + s, out) == ParseRest(s, out)
  {
    hide ItemBehind, Run, WithParam;
    var a := Run(Separator, s);
    RunPast(sep, s);
    assert (sep + s)[|sep| + a..] == s[a..];
    var x, y := NextItem(sep + s), NextItem(s);
    ItemsAlike(sep, s);
    if !y.End? {
      assert (sep + s)[x.len..] == s[y.len..];
    }
  }

  lemma {:induction false} RunPast(sep: string, s: string)
    requires AllSeparators(sep)
    ensures Run(Separator, sep + s) == |sep| + Run(Separator, s)
  {
    if sep == "" {
      assert sep + s == s;
    } else {
      assert (sep + s)[1..] == sep[1..] + s;
      RunPast(sep[1..], s);
    }
  }

  lemma BehindMoves(word: string, from: nat, k: nat, s: string)
    ensures var x, y := ItemBehind(word, k + from, s), ItemBehind(word, from, s);
            x == if y.Param? then Param(y.name, y.value, k + y.len) else Scheme(y.name, k + y.len)
  {
    hide Run, ParamValue;
  }

  // Leading separators only move an item.
  lemma ItemsAlike(sep: string, s: string)
    requires AllSeparators(sep)
    ensures var x, y := NextItem(sep + s), NextItem(s);
            x == if y.End? then End
                 else if y.Param? then Param(y.name, y.value, |sep| + y.len)
                 else Scheme(y.name, |sep| + y.len)
  {
    hide Run, ItemBehind;
    var a := Run(Separator, s);
    RunPast(sep, s);
    DropPast(sep, s, |sep| + a);
    var w := Run(WordChar, s[a..]);
    DropPast(sep, s, |sep| + a + w);
    if w > 0 {
      BehindMoves(s[a..][..w], a + w, |sep|, s[a + w..]);
      assert |sep| + (a + w) == |sep| + a + w;
    }
  }

  lemma ParamStep(p: ParamText, rest: string, out: seq<Challenge>)
    requires ParamOk(p, rest == "")
    ensures ParseRest(PrintParam(p) + rest, out) == ParseRest(rest, WithParam(out, p.name, ValueMeaning(p.value)))
  {
    hide NextItem, PrintParam, ValueMeaning, WithParam;
    ParamIsRead(p, rest);
    SeparatorsSkipped(p.sep, rest, WithParam(out, p.name, ValueMeaning(p.value)));
  }

  // The last challenge with its parameters.
  function WithParams(out: seq<Challenge>, ps: seq<ParamText>): seq<Challenge>
    requires out != []
  {
    var n := |out| - 1;
    out[n := out[n].(params := ParamsMeaning(ps, out[n].params))]
  }

  lemma {:induction false} ParamsAreRead(ps: seq<ParamText>, rest: string, out: seq<Challenge>)
    requires out != [] && ParamsOk(ps, rest == "")
    ensures ParseRest(PrintParams(ps) + rest, out) == ParseRest(rest, WithParams(out, ps))
    decreases |ps|
  {
    hide ParseRest, PrintParam, ValueMeaning, ParamOk, ToLower;
    if ps == [] {
      assert PrintParams(ps) + rest == rest;
      assert WithParams(out, ps) == out;
    } else {
      var p, tail := ps[0], ps[1..];
      var rest' := PrintParams(tail) + rest;
      assert PrintParams(ps) + rest == PrintParam(p) + rest';
      RestOfParams(ps, rest);
      ParamStep(p, rest', out);
      var out' := WithParam(out, p.name, ValueMeaning(p.value));
      ParamsAreRead(tail, rest, out');
      assert WithParams(out', tail) == WithParams(out, ps);
    }
  }

  lemma RestOfParams(ps: seq<ParamText>, rest: string)
    requires ps != [] && ParamsOk(ps, rest == "")
    ensures ParamOk(ps[0], PrintParams(ps[1..]) + rest == "") && ParamsOk(ps[1..], rest == "")
  {
    if |ps| > 1 {
      assert ParamOk(ps[1], rest == "" && 1 == |ps| - 1);
      assert PrintParam(ps[1]) + "" == PrintParam(ps[1]);
    }
  }

  lemma {:induction false} ChallengesAreRead(cs: seq<ChallengeText>, out: seq<Challenge>)
    requires ChallengesOk(cs)
    ensures ParseRest(PrintChallenges(cs), out) == out + Readings(cs)
    decreases |cs|
  {
    hide ParseRest, ChallengeOk, PrintCredentials, Reading, Ends;
    if cs == [] {
      NothingLeft(out);
      assert out + Readings(cs) == out;
    } else {
      var c, tail := cs[0], cs[1..];
      RestOfChallenges(cs);
      ChallengeStep(c, PrintChallenges(tail), out);
      ChallengesAreRead(tail, out + Reading(c));
    }
  }

  lemma RestOfChallenges(cs: seq<ChallengeText>)
    requires cs != [] && ChallengesOk(cs)
    ensures ChallengesOk(cs[1..]) && ChallengeOk(cs[0], PrintChallenges(cs[1..]) == "")
    ensures var rest := PrintChallenges(cs[1..]); rest != "" ==> !Separator(rest[0]) && rest[0] != '='
  {
    hide ParamsOk, PrintCredentials;
    forall i | 0 <= i < |cs| - 1
      ensures ChallengeOk(cs[1..][i], i == |cs| - 2)
    {
      assert ChallengeOk(cs[i + 1], i + 1 == |cs| - 1);
    }
    if |cs| > 1 {
      assert ChallengeOk(cs[1], 1 == |cs| - 1);
      assert PrintChallenges(cs[1..])[0] == cs[1].scheme[0];
    }
  }

  // One challenge in front of `rest`.
  lemma ChallengeStep(c: ChallengeText, rest: string, out: seq<Challenge>)
    requires ChallengeOk(c, rest == "")
    requires rest != "" ==> !Separator(rest[0]) && rest[0] != '='
    ensures ParseRest(c.scheme + (c.gap + (PrintCredentials(c) + rest)), out) ==
            if Ends(c) then out + Reading(c) else ParseRest(rest, out + Reading(c))
  {
    hide ParseRest, ParamsMeaning, ParamsOk, Repeat, Token;
    if c.ChallengeText? {
      ParamsStep(c, rest, out);
    } else {
      TokenIsWord(c.token);
      TokenGroups(c.token, Repeat('=', c.padding), c.sep, rest);
      BlankIsSeparator(c.gap);
      if c.padding == 0 {
        assert Repeat('=', 0) + (c.sep + rest) == c.sep + rest by { NoPadding(); }
        BareTokenStep(c.scheme, c.gap, c.token, c.sep, rest, out);
      } else if c.padding == 1 {
        OnePadding();
        PaddedTokenStep(c.scheme, c.gap, c.token, c.sep, rest, out);
      } else {
        MorePadding(c.padding, c.sep + rest);
        PaddingEndsTheHeader(c.scheme, c.gap, c.token, Repeat('=', c.padding - 2) + (c.sep + rest), out);
      }
    }
  }

  lemma TokenIsWord(s: string)
    requires Token(s)
    ensures Word(s)
  {
  }

  lemma BlankIsSeparator(s: string)
    requires AllBlank(s)
    ensures AllSeparators(s)
  {
  }

  lemma NoPadding()
    ensures Repeat('=', 0) == ""
  {
  }

  lemma OnePadding()
    ensures Repeat('=', 1) == "="
  {
  }

  lemma MorePadding(n: nat, rest: string)
    requires n >= 2
    ensures Repeat('=', n) + rest == "==" + (Repeat('=', n - 2) + rest)
  {
    assert Repeat('=', n) == "=" + ("=" + Repeat('=', n - 2));
  }

  lemma TokenGroups(token: string, padding: string, sep: string, rest: string)
    ensures token + (padding + sep) + rest == token + (padding + (sep + rest))
  {
    assert padding + sep + rest == padding + (sep + rest);
  }

  lemma ParamsStep(c: ChallengeText, rest: string, out: seq<Challenge>)
    requires c.ChallengeText? && ChallengeOk(c, rest == "")
    requires rest != "" ==> !Separator(rest[0]) && rest[0] != '='
    ensures ParseRest(c.scheme + (c.gap + (PrintParams(c.params) + rest)), out) == ParseRest(rest, out + Reading(c))
  {
    hide NextItem, ParamsMeaning;
    var behind := PrintParams(c.params) + rest;
    TokenIsWord(c.scheme);
    var gap' := SchemeIsRead(c.scheme, c.gap, behind);
    var out1 := out + [Challenge(c.scheme, map[])];
    SeparatorsSkipped(gap', behind, out1);
    ParamsAreRead(c.params, rest, out1);
    assert WithParams(out1, c.params) == out + [Challenge(c.scheme, ParamsMeaning(c.params, map[]))];
  }

  // The scheme in front of a token68.
  lemma SchemeStep(scheme: string, gap: string, behind: string, out: seq<Challenge>)
    requires Word(scheme) && AllSeparators(gap)
    requires behind != "" ==> gap != "" && !Separator(behind[0]) && behind[0] != '='
    ensures ParseRest(scheme + (gap + behind), out) == ParseRest(behind, out + [Challenge(scheme, map[])])
  {
    hide NextItem;
    var gap' := SchemeIsRead(scheme, gap, behind);
    SeparatorsSkipped(gap', behind, out + [Challenge(scheme, map[])]);
  }

  // Without padding the token is read as one more scheme.
  lemma BareTokenStep(scheme: string, gap: string, token: string, sep: string, rest: string, out: seq<Challenge>)
    requires Token(scheme) && gap != "" && AllSeparators(gap) && Word(token) && AllSeparators(sep)
    requires rest != "" ==> sep != "" && !Separator(rest[0]) && rest[0] != '='
    ensures ParseRest(scheme + (gap + (token + (sep + rest))), out) ==
            ParseRest(rest, out + [Challenge(scheme, map[]), Challenge(token, map[])])
  {
    hide ParseRest;
    var behind := token + (sep + rest);
    assert behind[0] == token[0];
    TokenIsWord(scheme);
    var out1 := out + [Challenge(scheme, map[])];
    SchemeStep(scheme, gap, behind, out);
    SchemeStep(token, sep, rest, out1);
    assert out1 + [Challenge(token, map[])] == out + [Challenge(scheme, map[]), Challenge(token, map[])];
  }

  // With one padding character it is read as the name of an empty parameter.
  lemma PaddedTokenStep(scheme: string, gap: string, token: string, sep: string, rest: string, out: seq<Challenge>)
    requires Token(scheme) && gap != "" && AllSeparators(gap) && Word(token)
    requires AllSeparators(sep) && (rest == "" || ',' in sep)
    requires rest != "" ==> !Separator(rest[0]) && rest[0] != '='
    ensures ParseRest(scheme + (gap + (token + ("=" + (sep + rest)))), out) ==
            ParseRest(rest, out + [Challenge(scheme, map[ToLower(token) := ""])])
  {
    hide ParseRest, ToLower;
    var behind := token + ("=" + (sep + rest));
    assert behind[0] == token[0];
    TokenIsWord(scheme);
    var out1 := out + [Challenge(scheme, map[])];
    SchemeStep(scheme, gap, behind, out);
    EmptyParamStep(token, sep, rest, out1);
    assert WithParam(out1, token, "") == out + [Challenge(scheme, map[ToLower(token) := ""])];
  }

  lemma EmptyParamStep(token: string, sep: string, rest: string, out: seq<Challenge>)
    requires Word(token) && AllSeparators(sep) && (rest == "" || ',' in sep)
    requires rest != "" ==> !Separator(rest[0]) && rest[0] != '='
    ensures ParseRest(token + ("=" + (sep + rest)), out) == ParseRest(rest, WithParam(out, token, ""))
  {
    hide NextItem, ItemBehind, WithParam;
    var s2 := "=" + (sep + rest);
    assert s2[0] == '=';
    WordIsRead(token, s2);
    var b := EmptyValueIsRead(token, sep, rest);
    DropPast(token, s2, |token| + 1 + b);
    assert s2[1 + b..] == sep[b..] + rest;
    SeparatorsSkipped(sep[b..], rest, WithParam(out, token, ""));
  }

  lemma EmptyValueIsRead(token: string, sep: string, rest: string) returns (b: nat)
    requires AllSeparators(sep) && (rest == "" || ',' in sep)
    requires rest != "" ==> !Separator(rest[0]) && rest[0] != '='
    ensures b <= |sep|
    ensures ItemBehind(token, |token|, "=" + (sep + rest)) == Param(token, "", |token| + 1 + b)
  {
    hide Run, ParamValue, Blank;
    var t := sep + rest;
    var s := "=" + t;
    b := Run(Blank, t);
    NothingAfterBlanks(sep, rest);
    assert s[0..] == s && s[1..] == t && s[0] == '=';
    EqualsIsNoBlank(s);
    assert s[1 + b..] == t[b..];
  }

  lemma EqualsIsNoBlank(s: string)
    requires s != "" && s[0] == '='
    ensures Run(Blank, s) == 0
  {
  }

  // Behind the blanks, if any, stands a comma or nothing: no value.
  lemma NothingAfterBlanks(sep: string, rest: string)
    requires AllSeparators(sep) && (rest == "" || ',' in sep)
    requires rest != "" ==> !Separator(rest[0]) && rest[0] != '='
    ensures var t := sep + rest;
            && Run(Blank, t) <= |sep| && ParamValue(t[Run(Blank, t)..]) == ("", 0)
            && (t != "" ==> t[0] != '=')
  {
    hide Run;
    var t := sep + rest;
    var b := Run(Blank, t);
    assert forall i :: 0 <= i < |sep| ==> t[i] == sep[i];
    assert rest != "" ==> t[|sep|] == rest[0];
    assert b <= |sep|;
    if b < |t| {
      CommaInFront(sep, rest, b);
      assert t[b..][0] == t[b] == ',';
    }
    NoValue(t[b..]);
  }

  lemma NoValue(s: string)
    ensures s == "" || s[0] == ',' ==> ParamValue(s) == ("", 0)
  {
  }

  // Where the blanks end a comma follows.
  lemma CommaInFront(sep: string, rest: string, b: nat)
    requires AllSeparators(sep) && (rest == "" || ',' in sep)
    requires b <= |sep| && b < |sep + rest| && !Blank((sep + rest)[b])
    requires forall i :: 0 <= i < b ==> Blank((sep + rest)[i])
    ensures (sep + rest)[b] == ','
  {
    assert forall i :: 0 <= i < |sep| ==> (sep + rest)[i] == sep[i];
    assert b == |sep| ==> AllBlank(sep);
    NoCommaInBlanks(sep);
  }

  lemma NoCommaInBlanks(s: string)
    ensures AllBlank(s) ==> ',' !in s
  {
  }

  // With more the token is read as one more scheme, and whatever follows is lost.
  lemma PaddingEndsTheHeader(scheme: string, gap: string, token: string, rest: string, out: seq<Challenge>)
    requires Token(scheme) && gap != "" && AllSeparators(gap) && Word(token)
    ensures ParseRest(scheme + (gap + (token + ("==" + rest))), out) ==
            out + [Challenge(scheme, map[]), Challenge(token, map[])]
  {
    hide NextItem, ItemBehind, Run;
    var padding := "==" + rest;
    var behind := token + padding;
    assert behind[0] == token[0];
    TokenIsWord(scheme);
    var out1 := out + [Challenge(scheme, map[])];
    SchemeStep(scheme, gap, behind, out);
    WordIsRead(token, padding);
    PaddingIsNoAssignment(token, rest);
    assert behind[|token|..] == padding;
    var out2 := out1 + [Challenge(token, map[])];
    EqualsEndsTheHeader("", "=" + rest, out2);
    assert "" + ("=" + ("=" + rest)) == padding;
    assert out2 == out + [Challenge(scheme, map[]), Challenge(token, map[])];
  }

  lemma PaddingIsNoAssignment(word: string, rest: string)
    ensures ItemBehind(word, |word|, "==" + rest) == Scheme(word, |word|)
  {
    var s := "==" + rest;
    assert s[0] == '=' && s[1] == '=';
    assert s[0..] == s;
  }

  // An `=` where a word should stand ends the parse.
  lemma EqualsEndsTheHeader(sep: string, rest: string, out: seq<Challenge>)
    requires AllSeparators(sep)
    ensures ParseRest(sep + ("=" + rest), out) == out
  {
    SeparatorsSkipped(sep, "=" + rest, out);
    var s := "=" + rest;
    assert s[0] == '=' && s[0..] == s;
  }

  // --- what the grammar does not allow ---

  // A quoted string without its end: the text that is there, a backslash at the very end included.
  function PrintOpen(chars: seq<QuotedChar>, dangling: bool): string {
    if chars == [] then (if dangling then "\\" else "")
    else (if chars[0].Plain? then [chars[0].c] else ['\\', chars[0].c]) + PrintOpen(chars[1..], dangling)
  }

  lemma {:induction false} OpenTextIsRead(chars: seq<QuotedChar>, dangling: bool)
    requires ValueOk(QuotedValue(chars))
    ensures QuotedText(PrintOpen(chars, dangling)) ==
            (QuotedMeaning(chars) + if dangling then "\\" else "", |PrintOpen(chars, dangling)|)
  {
    var s := PrintOpen(chars, dangling);
    if chars != [] {
      var rest := PrintOpen(chars[1..], dangling);
      OpenTextIsRead(chars[1..], dangling);
      var end := if dangling then "\\" else "";
      assert QuotedMeaning(chars) + end == [chars[0].c] + (QuotedMeaning(chars[1..]) + end);
      if chars[0].Plain? {
        assert s == [chars[0].c] + rest && s[1..] == rest;
      } else {
        assert s == ['\\', chars[0].c] + rest && s[1] == chars[0].c && s[2..] == rest;
      }
    } else {
      assert chars == [] && s == if dangling then "\\" else "";
      BackslashIsRead("\\");
      assert QuotedMeaning(chars) == "";
      assert "" + "\\" == "\\" && "" + "" == "";
    }
  }

  lemma BackslashIsRead(s: string)
    requires s == "\\"
    ensures QuotedText(s) == (s, 1)
  {
    assert s[1..] == "" && [s[0]] + "" == s;
    assert QuotedText(s) == ([s[0]] + QuotedText(s[1..]).0, 1 + QuotedText(s[1..]).1);
  }

  lemma OpenQuoteIsRead(chars: seq<QuotedChar>, dangling: bool)
    requires ValueOk(QuotedValue(chars))
    ensures var s := "\"" + PrintOpen(chars, dangling);
            ParamValue(s) == (QuotedMeaning(chars) + if dangling then "\\" else "", |s|)
  {
    OpenTextIsRead(chars, dangling);
    var s := "\"" + PrintOpen(chars, dangling);
    assert s[0] == '"' && s[1..] == PrintOpen(chars, dangling);
  }

  // Parameters in front of every challenge are dropped.
  lemma {:induction false} EarlyParamsAreDropped(ps: seq<ParamText>, cs: seq<ChallengeText>)
    requires ParamsOk(ps, cs == []) && ChallengesOk(cs)
    ensures Parse(PrintParams(ps) + PrintChallenges(cs)) == Readings(cs)
  {
    hide ParseRest, PrintParam, ValueMeaning, ParamOk, ParamsOk, ChallengesOk, ToLower, Readings;
    var rest := PrintChallenges(cs);
    if ps == [] {
      assert PrintParams(ps) + rest == rest;
      ChallengesAreRead(cs, []);
      assert [] + Readings(cs) == Readings(cs);
    } else {
      NothingIsPrinted(cs);
      var rest' := PrintParams(ps[1..]) + rest;
      assert PrintParams(ps) + rest == PrintParam(ps[0]) + rest';
      RestOfParams(ps, rest);
      ParamStep(ps[0], rest', []);
      EarlyParamsAreDropped(ps[1..], cs);
    }
  }

  lemma NothingIsPrinted(cs: seq<ChallengeText>)
    requires ChallengesOk(cs)
    ensures PrintChallenges(cs) == "" <==> cs == []
  {
    if cs != [] {
      assert ChallengeOk(cs[0], 0 == |cs| - 1);
      assert PrintChallenges(cs)[0] == cs[0].scheme[0];
    }
  }

  // --- names ---

  // Of ASCII just the capitals change, each to its small letter.
  lemma {:induction false} LowerIsExact(s: string, i: nat)
    requires i < |s|
    ensures var capitals, letters := "ABCDEFGHIJKLMNOPQRSTUVWXYZ", "abcdefghijklmnopqrstuvwxyz";
            && (forall k :: 0 <= k < 26 && s[i] == capitals[k] ==> ToLower(s)[i] == letters[k])
            && (s[i] !in capitals ==> ToLower(s)[i] == s[i])
  {
    if i > 0 {
      LowerIsExact(s[1..], i - 1);
    } else {
      LettersInOrder();
    }
  }

  // A name has a value if and only if it is printed, in whatever letters, and then the last one.
  lemma {:induction false} LastOfName(ps: seq<ParamText>, name: string, params: map<string, string>)
    ensures name in ParamsMeaning(ps, params) <==>
            name in params || exists i :: 0 <= i < |ps| && ToLower(ps[i].name) == name
    ensures forall i :: 0 <= i < |ps| && ToLower(ps[i].name) == name
              && (forall j :: i < j < |ps| ==> ToLower(ps[j].name) != name)
              ==> name in ParamsMeaning(ps, params) && ParamsMeaning(ps, params)[name] == ValueMeaning(ps[i].value)
    ensures (forall j :: 0 <= j < |ps| ==> ToLower(ps[j].name) != name) && name in params ==>
              name in ParamsMeaning(ps, params) && ParamsMeaning(ps, params)[name] == params[name]
  {
    hide ToLower, ValueMeaning;
    if ps != [] {
      var params' := params[ToLower(ps[0].name) := ValueMeaning(ps[0].value)];
      LastOfName(ps[1..], name, params');
      assert forall j :: 1 <= j < |ps| ==> ps[j] == ps[1..][j - 1];
      assert forall j :: 0 <= j < |ps| - 1 ==> ps[1..][j] == ps[j + 1];
    }
  }

  // --- main results ---

  // What is read of any header in the grammar: any challenges, printed in any of the ways the
  // grammar allows and behind any separators.
  lemma HeaderIsRead(lead: string, cs: seq<ChallengeText>)
    requires AllSeparators(lead) && ChallengesOk(cs)
    ensures Parse(lead + PrintChallenges(cs)) == Readings(cs)
  {
    hide ParseRest, PrintChallenges, ChallengesOk, Readings;
    SeparatorsSkipped(lead, PrintChallenges(cs), []);
    ChallengesAreRead(cs, []);
    assert [] + Readings(cs) == Readings(cs);
  }

  // Without token68 the parser inverts the grammar.
  lemma ParserInvertsPrinter(lead: string, cs: seq<ChallengeText>)
    requires AllSeparators(lead) && ChallengesOk(cs)
    requires forall i :: 0 <= i < |cs| ==> cs[i].ChallengeText?
    ensures Parse(lead + PrintChallenges(cs)) == Meaning(cs)
  {
    hide Parse, PrintChallenges, ChallengesOk;
    HeaderIsRead(lead, cs);
    ReadingsAreMeaning(cs);
  }

  lemma {:induction false} ReadingsAreMeaning(cs: seq<ChallengeText>)
    requires forall i :: 0 <= i < |cs| ==> cs[i].ChallengeText?
    ensures Readings(cs) == Meaning(cs)
  {
    hide ParamsMeaning;
    if cs != [] {
      ReadingsAreMeaning(cs[1..]);
    }
  }

  // Behind a token68 the other challenges are read if and only if it has at most one padding
  // character (or there are none).
  lemma Token68EndsIffPadded(lead: string, before: seq<ChallengeText>, c: ChallengeText, behind: seq<ChallengeText>)
    requires AllSeparators(lead) && ChallengesOk(before + [c] + behind) && c.Token68Text?
    requires forall i :: 0 <= i < |before| ==> !Ends(before[i])
    ensures var all := Readings(before) + Reading(c) + Readings(behind);
            Parse(lead + PrintChallenges(before + [c] + behind)) == all <==> c.padding <= 1 || behind == []
    ensures c.padding > 1 ==> Parse(lead + PrintChallenges(before + [c] + behind)) == Readings(before) + Reading(c)
  {
    hide Parse, PrintChallenges, ChallengesOk, Reading, Readings;
    var rest := [c] + behind;
    assert before + [c] + behind == before + rest;
    HeaderIsRead(lead, before + [c] + behind);
    ReadingsOfMore(before, rest);
    ReadingsOfFirst(c, behind);
    SomethingIsRead(behind);
    LongerIff(Readings(before), Reading(c), Readings(behind));
  }

  lemma ReadingsOfFirst(c: ChallengeText, behind: seq<ChallengeText>)
    ensures Readings([c] + behind) == Reading(c) + if Ends(c) then [] else Readings(behind)
  {
    hide Reading, Ends;
    assert ([c] + behind)[1..] == behind;
  }

  lemma LongerIff(a: seq<Challenge>, b: seq<Challenge>, c: seq<Challenge>)
    ensures a + (b + c) == a + b + c && a + (b + []) == a + b
    ensures a + b == a + b + c <==> c == []
  {
    assert |a + b + c| == |a + b| + |c|;
  }

  lemma {:induction false} ReadingsOfMore(a: seq<ChallengeText>, b: seq<ChallengeText>)
    requires forall i :: 0 <= i < |a| ==> !Ends(a[i])
    ensures Readings(a + b) == Readings(a) + Readings(b)
  {
    hide Reading, Ends;
    if a == [] {
      assert a + b == b;
    } else {
      assert (a + b)[1..] == a[1..] + b;
      ReadingsOfMore(a[1..], b);
    }
  }

  lemma SomethingIsRead(cs: seq<ChallengeText>)
    ensures Readings(cs) == [] <==> cs == []
  {
  }
}
