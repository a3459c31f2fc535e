/** Laws of `StepUp`: what an authorization request asks for survives the challenge that carries it. */
module StepUpLaws {
  import opened Prelude
  import opened Text
  import opened Challenges
  import opened Grammar
  import opened StepUp

  // --- the first challenge that asks ---

  // RFC 9470 section 3
  predicate Asks(c: Challenge) {
    "error" in c.params && c.params["error"] == "insufficient_user_authentication"
  }

  lemma {:induction false} FirstAskingIsFirst(cs: seq<Challenge>, k: nat)
    requires k < |cs| && Asks(cs[k])
    requires forall i :: 0 <= i < k ==> !Asks(cs[i])
    ensures FirstAsking(cs) == Some(cs[k])
  {
    if k > 0 {
      assert forall i :: 0 <= i < k - 1 ==> cs[1..][i] == cs[i + 1];
      assert cs[1..][k - 1] == cs[k];
      FirstAskingIsFirst(cs[1..], k - 1);
    }
  }

  lemma {:induction false} NoneAsks(cs: seq<Challenge>)
    ensures FirstAsking(cs).None? <==> forall i :: 0 <= i < |cs| ==> !Asks(cs[i])
  {
    hide Asks, AsksForStepUp;
    if cs != [] {
      NoneAsks(cs[1..]);
      AskingIsAsked(cs[0]);
      assert forall i :: 0 <= i < |cs| - 1 ==> cs[1..][i] == cs[i + 1];
      assert forall i :: 1 <= i < |cs| ==> cs[i] == cs[1..][i - 1];
    }
  }

  lemma AskingIsAsked(c: Challenge)
    ensures AsksForStepUp(c) <==> Asks(c)
  {
  }

  // Nothing is read if and only if no challenge of any header asks.
  lemma {:induction false} NothingIsRead(headers: seq<string>)
    ensures ParseStepUp(headers).None? <==>
            forall h, i :: 0 <= h < |headers| && 0 <= i < |Parse(headers[h])| ==> !Asks(Parse(headers[h])[i])
  {
    hide Parse, Asks, FirstAsking;
    if headers == [] {
      NoneAsks([]);
    } else {
      var first, rest := Parse(headers[0]), headers[1..];
      NothingIsRead(rest);
      NoneAsks(first);
      FirstOfTwo(first, AllChallenges(rest));
      assert forall h :: 1 <= h < |headers| ==> headers[h] == rest[h - 1];
      assert forall h :: 0 <= h < |rest| ==> rest[h] == headers[h + 1];
    }
  }

  lemma {:induction false} FirstOfTwo(a: seq<Challenge>, b: seq<Challenge>)
    ensures FirstAsking(a + b) == if FirstAsking(a).Some? then FirstAsking(a) else FirstAsking(b)
  {
    hide AsksForStepUp;
    if a == [] {
      assert a + b == b;
    } else {
      assert (a + b)[1..] == a[1..] + b;
      FirstOfTwo(a[1..], b);
    }
  }

  lemma {:induction false} ChallengesOfMore(a: seq<string>, b: seq<string>)
    ensures AllChallenges(a + b) == AllChallenges(a) + AllChallenges(b)
  {
    hide Parse;
    if a == [] {
      assert a + b == b;
    } else {
      assert (a + b)[1..] == a[1..] + b;
      ChallengesOfMore(a[1..], b);
    }
  }

  // --- words ---

  predicate SolidWord(s: string) {
    s != "" && forall i :: 0 <= i < |s| ==> !IsSpace(s[i])
  }

  predicate SolidWords(words: seq<string>) {
    forall i :: 0 <= i < |words| ==> SolidWord(words[i])
  }

  lemma FieldsOfWord(w: string, rest: string)
    requires SolidWord(w) && (rest == "" || IsSpace(rest[0]))
    ensures Fields(w + rest) == [w] + Fields(rest)
  {
    hide IsSpace, Run;
    var s := w + rest;
    assert s[0] == w[0];
    RunOver(IsSpace, "", s);
    assert "" + s == s && s[0..] == s;
    RunOver(Solid, w, rest);
  }

  lemma {:induction false} FieldsOfJoin(words: seq<string>)
    requires SolidWords(words)
    ensures Fields(JoinWith(words, " ")) == words
  {
    hide IsSpace, Run, Fields;
    NoFields();
    if words != [] {
      var w, rest := words[0], JoinWith(words[1..], " ");
      FieldsOfWord(w, "");
      assert w + "" == w;
      if |words| > 1 {
        SpaceIsSpace();
        FieldsOfWord(w, " " + rest);
        FieldsPast(" ", rest);
        FieldsOfJoin(words[1..]);
      }
    }
  }

  // Any white space does: words apart from each other, with more of it at both ends.
  function Spaced(words: seq<string>, gaps: seq<string>): string
    requires |gaps| == |words| + 1
  {
    gaps[0] + if words == [] then "" else words[0] + Spaced(words[1..], gaps[1..])
  }

  predicate WhiteSpace(s: string) {
    forall i :: 0 <= i < |s| ==> IsSpace(s[i])
  }

  lemma {:induction false} FieldsOfSpaced(words: seq<string>, gaps: seq<string>)
    requires |gaps| == |words| + 1 && SolidWords(words)
    requires forall i :: 0 <= i < |gaps| ==> WhiteSpace(gaps[i]) && (0 < i < |words| ==> gaps[i] != "")
    ensures Fields(Spaced(words, gaps)) == words
  {
    hide IsSpace, SolidWord, WhiteSpace, Fields;
    if words == [] {
      FieldsPast(gaps[0], "");
      NoFields();
      assert gaps[0] + "" == gaps[0];
    } else {
      var rest := Spaced(words[1..], gaps[1..]);
      FieldsOfSpaced(words[1..], gaps[1..]);
      FieldsPast(gaps[0], words[0] + rest);
      SpaceFirst(words[1..], gaps[1..]);
      FieldsOfWord(words[0], rest);
    }
  }

  lemma SpaceFirst(words: seq<string>, gaps: seq<string>)
    requires |gaps| == |words| + 1 && WhiteSpace(gaps[0]) && (words != [] ==> gaps[0] != "")
    ensures var s := Spaced(words, gaps); s == "" || IsSpace(s[0])
  {
    hide IsSpace;
    var s := Spaced(words, gaps);
    assert s != "" ==> gaps[0] != "" && s[0] == gaps[0][0];
  }

  lemma {:induction false} FieldsPast(gap: string, s: string)
    requires WhiteSpace(gap)
    ensures Fields(gap + s) == Fields(s)
  {
    hide Fields;
    SpacesAreRun(gap, s);
    FieldsBehind(s, Run(IsSpace, s));
    FieldsBehind(gap + s, |gap| + Run(IsSpace, s));
    assert (gap + s)[|gap| + Run(IsSpace, s)..] == s[Run(IsSpace, s)..];
  }

  lemma FieldsBehind(s: string, a: nat)
    requires a == Run(IsSpace, s)
    ensures var t := s[a..];
            var w := Run(Solid, t);
            Fields(s) == if w == 0 then [] else [t[..w]] + Fields(t[w..])
  {
    hide Run, IsSpace;
    var w := Run(Solid, s[a..]);
    assert s[a..][w..] == s[a + w..];
  }

  lemma SpacesAreRun(gap: string, s: string)
    requires WhiteSpace(gap)
    ensures Run(IsSpace, gap + s) == |gap| + Run(IsSpace, s)
  {
    hide IsSpace;
    RunIs(IsSpace, gap + s, |gap| + Run(IsSpace, s));
  }

  lemma SpaceIsSpace()
    ensures IsSpace(' ')
  {
  }

  lemma NoFields()
    ensures Fields("") == []
  {
  }

  lemma {:induction false} FieldsAreSolid(s: string)
    ensures SolidWords(Fields(s))
    decreases |s|
  {
    hide IsSpace, SolidWord, Run;
    var a := Run(IsSpace, s);
    var w := Run(Solid, s[a..]);
    if w > 0 {
      FieldsAreSolid(s[a + w..]);
      RunIsSolid(s[a..]);
    }
  }

  lemma RunIsSolid(s: string)
    ensures Run(Solid, s) > 0 ==> SolidWord(s[..Run(Solid, s)])
  {
    hide IsSpace;
    var n := Run(Solid, s);
    assert forall i :: 0 <= i < n ==> Solid(s[i]);
  }

  // Joined fields hold no white space but the blank.
  lemma {:induction false} JoinIsPlain(words: seq<string>)
    requires SolidWords(words)
    ensures forall i :: 0 <= i < |JoinWith(words, " ")| ==> JoinWith(words, " ")[i] == ' ' || !IsSpace(JoinWith(words, " ")[i])
  {
    hide IsSpace;
    if |words| == 1 {
      assert SolidWord(words[0]);
    } else if |words| > 1 {
      JoinIsPlain(words[1..]);
      var w, rest := words[0], JoinWith(words[1..], " ");
      assert SolidWord(w);
      assert forall i :: 0 <= i < |JoinWith(words, " ")| ==>
          JoinWith(words, " ")[i] == if i < |w| then w[i] else if i == |w| then ' ' else rest[i - |w| - 1];
    }
  }

  lemma {:induction false} JoinHolds(words: seq<string>, k: nat, i: nat) returns (at: nat)
    requires k < |words| && i < |words[k]|
    ensures at < |JoinWith(words, " ")| && JoinWith(words, " ")[at] == words[k][i]
  {
    if |words| == 1 || k == 0 {
      at := i;
    } else {
      var n := JoinHolds(words[1..], k - 1, i);
      at := |words[0]| + 1 + n;
    }
  }

  lemma {:induction false} GoodAcrs(acrValues: seq<string>)
    ensures FirstBad(acrValues).None? <==> forall i :: 0 <= i < |acrValues| ==> !BadAcr(acrValues[i])
  {
    hide BadAcr;
    if acrValues != [] {
      GoodAcrs(acrValues[1..]);
      assert forall i :: 1 <= i < |acrValues| ==> acrValues[i] == acrValues[1..][i - 1];
      assert forall i :: 0 <= i < |acrValues| - 1 ==> acrValues[1..][i] == acrValues[i + 1];
    }
  }

  lemma SolidIsGood(words: seq<string>)
    requires SolidWords(words)
    ensures FirstBad(words).None?
  {
    GoodAcrs(words);
    forall i | 0 <= i < |words|
      ensures !BadAcr(words[i])
    {
      assert SolidWord(words[i]);
    }
  }

  // --- the parameters of a request ---

  predicate GoodAcr(v: string) {
    v != "" && ' ' !in v && '\t' !in v && '\r' !in v && '\n' !in v
  }

  // A request is refused if and only if a value is empty or holds a blank, a tab or a line break, or
  // the age is negative; the first such value is named. Otherwise it has just what was asked for.
  lemma ParamsAreExact(acrValues: seq<string>, maxAge: Option<GoInt>)
    ensures match Params(acrValues, maxAge)
            case Err(InvalidAcr(v)) =>
              exists k :: 0 <= k < |acrValues| && v == acrValues[k] && !GoodAcr(v) && forall i :: 0 <= i < k ==> GoodAcr(acrValues[i])
            case Err(NegativeMaxAge) =>
              (forall i :: 0 <= i < |acrValues| ==> GoodAcr(acrValues[i])) && maxAge.Some? && maxAge.value < 0
            case Ok(p) =>
              && (forall i :: 0 <= i < |acrValues| ==> GoodAcr(acrValues[i])) && (maxAge.Some? ==> maxAge.value >= 0)
              && ("acr_values" in p <==> acrValues != []) && ("max_age" in p <==> maxAge.Some?)
              && (forall name :: name in p ==> name == "acr_values" || name == "max_age")
              && (acrValues != [] ==> Split(p["acr_values"], ' ') == acrValues)
              && (maxAge.Some? ==> p["max_age"] == Decimal(maxAge.value))
  {
    hide BadAcr, GoodAcr, Decimal, JoinWith, Split, FirstBad;
    FirstBadIsFirst(acrValues);
    if Params(acrValues, maxAge).Ok? && acrValues != [] {
      GoodHasNoBlank(acrValues);
      SplitOfJoin(acrValues, ' ');
    }
  }

  lemma GoodHasNoBlank(acrValues: seq<string>)
    ensures (forall i :: 0 <= i < |acrValues| ==> GoodAcr(acrValues[i])) ==> forall i :: 0 <= i < |acrValues| ==> ' ' !in acrValues[i]
  {
  }

  lemma {:induction false} FirstBadIsFirst(acrValues: seq<string>)
    ensures match FirstBad(acrValues)
            case None => forall i :: 0 <= i < |acrValues| ==> GoodAcr(acrValues[i])
            case Some(v) =>
              exists k :: 0 <= k < |acrValues| && v == acrValues[k] && !GoodAcr(v) && forall i :: 0 <= i < k ==> GoodAcr(acrValues[i])
  {
    hide BadAcr, GoodAcr;
    if acrValues != [] {
      var rest := acrValues[1..];
      BadIsNotGood(acrValues[0]);
      FirstBadIsFirst(rest);
      assert forall i :: 1 <= i < |acrValues| ==> acrValues[i] == rest[i - 1];
      if BadAcr(acrValues[0]) {
        assert FirstBad(acrValues) == Some(acrValues[0]);
      } else if FirstBad(rest).Some? {
        var k :| 0 <= k < |rest| && FirstBad(rest).value == rest[k] && !GoodAcr(rest[k]) && forall i :: 0 <= i < k ==> GoodAcr(rest[i]);
        var next := k + 1;
        assert rest[k] == acrValues[next];
        assert forall i :: 0 <= i < next ==> GoodAcr(acrValues[i]);
      }
    }
  }

  lemma BadIsNotGood(v: string)
    ensures BadAcr(v) <==> !GoodAcr(v)
  {
    if !GoodAcr(v) && v != "" {
      var c :| c in v && c in " \t\r\n";
      var i :| 0 <= i < |v| && v[i] == c;
      assert v[i] in " \t\r\n";
    }
  }

  // --- the age read ---

  // An age is read if and only if it is its decimal numeral, behind any zeros, and fits an `int`.
  lemma MaxAgeIsExact(params: map<string, string>, n: nat)
    ensures (ReadMaxAge(params).Some? && ReadMaxAge(params).value == n) <==>
            n < 0x8000_0000_0000_0000 && "max_age" in params && exists k :: params["max_age"] == Repeat('0', k) + Decimal(n)
    ensures ReadMaxAge(params).Some? ==> ReadMaxAge(params).value >= 0
  {
    hide Decimal, Repeat, Number;
    if "max_age" in params {
      var s := params["max_age"];
      forall k: nat | s == Repeat('0', k) + Decimal(n)
        ensures Digits(s) && Number(s) == n
      {
        NumberBehindZeros(k, n);
      }
      if Digits(s) {
        var k := ZerosInFront(s);
      }
    }
  }

  lemma {:induction false} NumberBehindZeros(k: nat, n: nat)
    ensures var s := Repeat('0', k) + Decimal(n); Digits(s) && Number(s) == n
  {
    hide Decimal, Number;
    RepeatIs('0', k);
    NumberOfDecimal(n);
    NumberPastZeros(Repeat('0', k), Decimal(n));
  }

  lemma {:induction false} NumberPastZeros(z: string, s: string)
    requires (forall i :: 0 <= i < |z| ==> z[i] == '0') && forall i :: 0 <= i < |s| ==> Digit(s[i])
    ensures forall i :: 0 <= i < |z + s| ==> Digit((z + s)[i])
    ensures Number(z + s) == Number(s)
    decreases |z| + |s|
  {
    if s != "" {
      assert (z + s)[..|z + s| - 1] == z + s[..|s| - 1];
      NumberPastZeros(z, s[..|s| - 1]);
    } else if z != "" {
      assert z + s == z;
      assert z[..|z| - 1] + "" == z[..|z| - 1];
      NumberPastZeros(z[..|z| - 1], "");
    }
  }

  lemma {:induction false} ZerosInFront(s: string) returns (k: nat)
    requires Digits(s)
    ensures s == Repeat('0', k) + Decimal(Number(s))
  {
    hide Decimal, Repeat;
    var init, last := s[..|s| - 1], s[|s| - 1];
    assert s == init + [last] && Digit(last);
    OneMoreDigit(Number(init), last);
    if init == "" {
      k := 0;
      assert Repeat('0', 0) == "" by { NoZeros(); }
    } else {
      k := ZerosInFront(init);
      if Number(init) == 0 {
        MoreZeros(k);
        k := k + 1;
      } else {
        assert Repeat('0', k) + Decimal(Number(init)) + [last] == Repeat('0', k) + (Decimal(Number(init)) + [last]);
      }
    }
  }

  lemma OneMoreDigit(n: nat, c: char)
    requires Digit(c)
    ensures Decimal(n * 10 + DigitValue(c)) == if n == 0 then [c] else Decimal(n) + [c]
    ensures n == 0 ==> Decimal(n) == "0"
  {
  }

  lemma NoZeros()
    ensures Repeat('0', 0) == ""
  {
  }

  lemma {:induction false} MoreZeros(k: nat)
    ensures Repeat('0', k) + "0" == Repeat('0', k + 1)
  {
    if k > 0 {
      MoreZeros(k - 1);
    }
  }

  // --- the round trip ---

  lemma MaxAgeIsRead(params: map<string, string>, n: nat)
    requires "max_age" in params && params["max_age"] == Decimal(n) && n < INT_LIMIT
    ensures ReadMaxAge(params) == Some(n)
  {
    NumberOfDecimal(n);
  }

  // A challenge for step-up with just these parameters among its own.
  predicate Carries(c: Challenge, params: map<string, string>) {
    && Asks(c)
    && SameAt("acr_values", c.params, params)
    && SameAt("max_age", c.params, params)
  }

  predicate SameAt(name: string, a: map<string, string>, b: map<string, string>) {
    (name in a <==> name in b) && (name in a ==> a[name] == b[name])
  }

  lemma CarriedIsRead(acrValues: seq<string>, maxAge: Option<GoInt>, c: Challenge)
    requires Params(acrValues, maxAge).Ok? && Carries(c, Params(acrValues, maxAge).value)
    ensures ReadChallenge(c).maxAge == maxAge
    ensures ReadChallenge(c).acrValues == Fields(JoinWith(acrValues, " "))
  {
    hide Decimal, Fields, Digits;
    var p := Params(acrValues, maxAge).value;
    if maxAge.Some? {
      assert p["max_age"] == Decimal(maxAge.value);
      MaxAgeIsRead(c.params, maxAge.value);
    }
    NoFields();
  }

  // White space of any kind in a value is what the trip does not keep.
  lemma FieldsKeepParams(acrValues: seq<string>, maxAge: Option<GoInt>)
    requires Params(acrValues, maxAge).Ok?
    ensures var back := Params(Fields(JoinWith(acrValues, " ")), maxAge);
            back.Ok? && (back == Params(acrValues, maxAge) <==> SolidWords(acrValues))
  {
    hide Fields, JoinWith, IsSpace, BadAcr, FirstBad, Decimal;
    var s := JoinWith(acrValues, " ");
    var words := Fields(s);
    FieldsAreSolid(s);
    SolidIsGood(words);
    if SolidWords(acrValues) {
      FieldsOfJoin(acrValues);
    } else {
      JoinChanges(acrValues);
      var back := Params(words, maxAge).value;
      assert words != [] ==> "acr_values" in back && back["acr_values"] == JoinWith(words, " ");
      assert words == [] ==> "acr_values" !in back;
      assert Params(acrValues, maxAge).value["acr_values"] == s;
    }
  }

  lemma JoinChanges(acrValues: seq<string>)
    requires FirstBad(acrValues).None? && !SolidWords(acrValues)
    ensures acrValues != [] && JoinWith(Fields(JoinWith(acrValues, " ")), " ") != JoinWith(acrValues, " ")
  {
    hide Fields, JoinWith, IsSpace;
    GoodAcrs(acrValues);
    var k :| 0 <= k < |acrValues| && !SolidWord(acrValues[k]);
    var v := acrValues[k];
    assert !BadAcr(v);
    var i :| 0 <= i < |v| && IsSpace(v[i]);
    assert v[i] != ' ';
    var at := JoinHolds(acrValues, k, i);
    FieldsAreSolid(JoinWith(acrValues, " "));
    JoinIsPlain(Fields(JoinWith(acrValues, " ")));
  }

  // A challenge carrying the parameters of a request asks for that very request, if and only if no
  // value holds white space.
  lemma CarriedRoundTrip(acrValues: seq<string>, maxAge: Option<GoInt>, c: Challenge)
    requires Params(acrValues, maxAge).Ok? && Carries(c, Params(acrValues, maxAge).value)
    ensures AuthorizeParams(ReadChallenge(c)) == Params(acrValues, maxAge).value <==> SolidWords(acrValues)
    ensures SolidWords(acrValues) ==> ReadChallenge(c).acrValues == acrValues
    ensures ReadChallenge(c).maxAge == maxAge
  {
    hide ReadChallenge, Carries, Params, Fields, JoinWith, SolidWords;
    CarriedIsRead(acrValues, maxAge, c);
    FieldsKeepParams(acrValues, maxAge);
    if SolidWords(acrValues) {
      FieldsOfJoin(acrValues);
    }
  }

  // The value printed for a parameter, or nothing.
  function Printed(name: string, params: map<string, string>): string {
    if name in params then params[name] else ""
  }

  // The trip through a response: the header may hold other challenges, the response other headers.
  lemma StepUpRoundTrip(acrValues: seq<string>, maxAge: Option<GoInt>,
                        before: seq<string>, lead: string, cs: seq<ChallengeText>, k: nat, behind: seq<string>)
    requires Params(acrValues, maxAge).Ok?
    requires ParseStepUp(before).None?
    requires AllSeparators(lead) && ChallengesOk(cs) && k < |Readings(cs)|
    requires Carries(Readings(cs)[k], Params(acrValues, maxAge).value)
    requires forall i :: 0 <= i < k ==> !Asks(Readings(cs)[i])
    ensures var c := ParseStepUp(before + [lead + PrintChallenges(cs)] + behind);
            && c.Some? && c.value.scheme == Readings(cs)[k].scheme && c.value.maxAge == maxAge
            && c.value.errorDescription == Printed("error_description", Readings(cs)[k].params)
            && c.value.resourceMetadata == Printed("resource_metadata", Readings(cs)[k].params)
            && (SolidWords(acrValues) ==> c.value.acrValues == acrValues)
            && (AuthorizeParams(c.value) == Params(acrValues, maxAge).value <==> SolidWords(acrValues))
  {
    hide ChallengesOk, AllSeparators, Readings, Params, Fields, SolidWords, PrintChallenges, AllChallenges, FirstAsking;
    var header := lead + PrintChallenges(cs);
    var c := Readings(cs)[k];
    HeaderIsRead(lead, cs);
    FirstAskingIsFirst(Readings(cs), k);
    AskedInHeader(before, header, behind);
    CarriedRoundTrip(acrValues, maxAge, c);
  }

  lemma AskedInHeader(before: seq<string>, header: string, behind: seq<string>)
    requires FirstAsking(AllChallenges(before)).None? && FirstAsking(Parse(header)).Some?
    ensures FirstAsking(AllChallenges(before + [header] + behind)) == FirstAsking(Parse(header))
  {
    hide Parse, FirstAsking;
    var rest := [header] + behind;
    assert before + [header] + behind == before + rest;
    ChallengesOfMore(before, rest);
    FirstOfTwo(AllChallenges(before), AllChallenges(rest));
    assert rest[0] == header && rest[1..] == behind;
    FirstOfTwo(Parse(header), AllChallenges(behind));
  }

  // A challenge read from any response asks for a valid request, so `AuthorizeParams` never meets
  // the error it ignores; and sending that request in a challenge changes nothing any more.
  lemma ReadChallengesAreValid(headers: seq<string>)
    requires ParseStepUp(headers).Some?
    ensures var c := ParseStepUp(headers).value;
            && Params(c.acrValues, c.maxAge) == Ok(AuthorizeParams(c))
            && forall again: Challenge :: Carries(again, AuthorizeParams(c)) ==>
                 ReadChallenge(again).acrValues == c.acrValues && ReadChallenge(again).maxAge == c.maxAge
  {
    hide AllChallenges, FirstAsking, Fields, SolidWords, Carries;
    var ch := FirstAsking(AllChallenges(headers)).value;
    var c := ParseStepUp(headers).value;
    FieldsAreSolid(Get(ch.params, "acr_values"));
    SolidIsGood(c.acrValues);
    MaxAgeIsExact(ch.params, 0);
    forall again: Challenge | Carries(again, AuthorizeParams(c))
      ensures ReadChallenge(again).acrValues == c.acrValues && ReadChallenge(again).maxAge == c.maxAge
    {
      CarriedRoundTrip(c.acrValues, c.maxAge, again);
    }
  }

  // --- the challenge a server writes ---

  function Escaped(s: string): seq<QuotedChar> {
    if s == "" then []
    else [if s[0] == '"' || s[0] == '\\' then Pair(s[0]) else Plain(s[0])] + Escaped(s[1..])
  }

  lemma {:induction false} EscapedMeans(s: string)
    ensures ValueOk(QuotedValue(Escaped(s))) && QuotedMeaning(Escaped(s)) == s
  {
    if s != "" {
      EscapedMeans(s[1..]);
      assert Escaped(s)[1..] == Escaped(s[1..]);
    }
  }

  function Quoted(name: string, value: string, sep: string): ParamText {
    ParamText(name, "", "", QuotedValue(Escaped(value)), sep)
  }

  function QuotedIn(name: string, params: map<string, string>): seq<ParamText> {
    if name in params then [Quoted(name, params[name], ", ")] else []
  }

  // `Bearer max_age="…", acr_values="…", error_description="…", resource_metadata="…", error="…"`
  function ServerChallenge(params: map<string, string>): ChallengeText {
    ChallengeText("Bearer", " ",
                  QuotedIn("max_age", params) + (QuotedIn("acr_values", params)
                  + (QuotedIn("error_description", params) + (QuotedIn("resource_metadata", params)
                  + [Quoted("error", "insufficient_user_authentication", "")]))))
  }

  lemma {:induction false} LowerStays(s: string)
    requires forall i :: 0 <= i < |s| ==> !('A' <= s[i] <= 'Z')
    ensures ToLower(s) == s
  {
    if s != "" {
      LowerStays(s[1..]);
    }
  }

  // One more parameter, written as a quoted string.
  lemma {:induction false} QuotedMeans(name: string, value: string, sep: string, ps: seq<ParamText>, params: map<string, string>)
    requires forall i :: 0 <= i < |name| ==> !('A' <= name[i] <= 'Z')
    ensures ParamsMeaning([Quoted(name, value, sep)] + ps, params) == ParamsMeaning(ps, params[name := value])
  {
    hide ToLower, QuotedMeaning, Escaped;
    LowerStays(name);
    EscapedMeans(value);
    assert ([Quoted(name, value, sep)] + ps)[1..] == ps;
  }

  lemma QuotedOk(name: string, value: string, sep: string, last: bool)
    requires Token(name) && AllSeparators(sep) && (last || ',' in sep)
    ensures ParamOk(Quoted(name, value, sep), last)
  {
    hide Escaped;
    EscapedMeans(value);
  }

  function With(name: string, params: map<string, string>, m: map<string, string>): map<string, string> {
    if name in params then m[name := params[name]] else m
  }

  lemma {:induction false} QuotedInMeans(name: string, params: map<string, string>, ps: seq<ParamText>, m: map<string, string>)
    requires forall i :: 0 <= i < |name| ==> !('A' <= name[i] <= 'Z')
    ensures ParamsMeaning(QuotedIn(name, params) + ps, m) == ParamsMeaning(ps, With(name, params, m))
  {
    hide ParamsMeaning, Quoted;
    if name in params {
      QuotedMeans(name, params[name], ", ", ps, m);
    } else {
      assert QuotedIn(name, params) + ps == ps;
    }
  }

  lemma ServerParamsMean(params: map<string, string>)
    ensures ParamsMeaning(ServerChallenge(params).params, map[]) ==
            With("resource_metadata", params, With("error_description", params,
              With("acr_values", params, With("max_age", params, map[]))))["error" := "insufficient_user_authentication"]
  {
    hide Quoted, QuotedIn, ParamsMeaning, With;
    var e := [Quoted("error", "insufficient_user_authentication", "")];
    var m := With("max_age", params, map[]);
    var a := With("acr_values", params, m);
    var d := With("error_description", params, a);
    var r := With("resource_metadata", params, d);
    var re := QuotedIn("resource_metadata", params) + e;
    var de := QuotedIn("error_description", params) + re;
    var ae := QuotedIn("acr_values", params) + de;
    QuotedInMeans("max_age", params, ae, map[]);
    QuotedInMeans("acr_values", params, de, m);
    QuotedInMeans("error_description", params, re, a);
    QuotedInMeans("resource_metadata", params, e, d);
    assert e + [] == e;
    QuotedMeans("error", "insufficient_user_authentication", "", [], r);
    NoMoreParams(r["error" := "insufficient_user_authentication"]);
  }

  lemma NoMoreParams(params: map<string, string>)
    ensures ParamsMeaning([], params) == params
  {
  }

  lemma {:induction false} QuotedInOk(name: string, params: map<string, string>, ps: seq<ParamText>)
    requires Token(name) && ParamsOk(ps, true) && ps != []
    ensures ParamsOk(QuotedIn(name, params) + ps, true) && QuotedIn(name, params) + ps != []
  {
    hide ParamOk, Quoted, Token;
    if name in params {
      QuotedOk(name, params[name], ", ", false);
    }
  }

  lemma ServerChallengeOk(params: map<string, string>)
    ensures ChallengesOk([ServerChallenge(params)])
  {
    hide Quoted, QuotedIn, ParamsOk;
    var e := [Quoted("error", "insufficient_user_authentication", "")];
    QuotedOk("error", "insufficient_user_authentication", "", true);
    assert ParamsOk(e, true) by { OneIsOk(e[0]); }
    var re := QuotedIn("resource_metadata", params) + e;
    var de := QuotedIn("error_description", params) + re;
    var ae := QuotedIn("acr_values", params) + de;
    QuotedInOk("resource_metadata", params, e);
    QuotedInOk("error_description", params, re);
    QuotedInOk("acr_values", params, de);
    QuotedInOk("max_age", params, ae);
  }

  lemma OneIsOk(p: ParamText)
    requires ParamOk(p, true)
    ensures ParamsOk([p], true)
  {
  }

  // In particular the challenge written with escaped quoted strings brings the request back, with the
  // description and the metadata written beside it.
  lemma WrittenRoundTrip(acrValues: seq<string>, maxAge: Option<GoInt>, description: string, metadata: string)
    requires Params(acrValues, maxAge).Ok?
    ensures var p := Params(acrValues, maxAge).value;
            var written := p["error_description" := description]["resource_metadata" := metadata];
            var c := ParseStepUp([PrintChallenges([ServerChallenge(written)])]);
            && c.Some? && c.value.scheme == "Bearer" && c.value.maxAge == maxAge
            && c.value.errorDescription == description && c.value.resourceMetadata == metadata
            && (AuthorizeParams(c.value) == p <==> SolidWords(acrValues))
  {
    hide PrintChallenges, ChallengesOk, SolidWords, Carries, Params, AllChallenges, FirstAsking, ServerChallenge;
    hide AuthorizeParams, ParseStepUp;
    var p := Params(acrValues, maxAge).value;
    var written := p["error_description" := description]["resource_metadata" := metadata];
    var cs := [ServerChallenge(written)];
    ServerChallengeOk(written);
    ServerCarries(p, written);
    NothingBefore();
    StepUpRoundTrip(acrValues, maxAge, [], "", cs, 0, []);
    assert "" + PrintChallenges(cs) == PrintChallenges(cs);
    assert [] + ["" + PrintChallenges(cs)] + [] == [PrintChallenges(cs)];
  }

  lemma NothingBefore()
    ensures ParseStepUp([]).None?
  {
  }

  lemma ServerCarries(p: map<string, string>, written: map<string, string>)
    requires SameAt("acr_values", p, written) && SameAt("max_age", p, written)
    ensures var meaning := Readings([ServerChallenge(written)]);
            && |meaning| == 1 && meaning[0].scheme == "Bearer" && Carries(meaning[0], p)
            && Printed("error_description", meaning[0].params) == Printed("error_description", written)
            && Printed("resource_metadata", meaning[0].params) == Printed("resource_metadata", written)
  {
    hide ParamsMeaning, Quoted;
    ServerParamsMean(written);
    var c := ServerChallenge(written);
    assert Readings([c]) == [Challenge("Bearer", ParamsMeaning(c.params, map[]))];
  }
}
