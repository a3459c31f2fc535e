/** Step-up authentication (RFC 9470): the parameters of an authorization request, and the challenge they answer. */
module StepUp {
  import opened Prelude
  import opened Text
  import opened Challenges

  const INSUFFICIENT := "insufficient_user_authentication"

  // Go's `int` on a 64-bit target.
  const INT_LIMIT: int := 0x8000_0000_0000_0000

  type GoInt = n: int | -INT_LIMIT <= n < INT_LIMIT

  datatype StepUpChallenge = StepUpChallenge(
    scheme: string, acrValues: seq<string>, maxAge: Option<GoInt>,
    errorDescription: string, resourceMetadata: string)

  datatype ParamError = InvalidAcr(value: string) | NegativeMaxAge

  // --- the standard library's part ---

  // `unicode.IsSpace`
  predicate IsSpace(c: char) {
    || c in {'\t', '\n', '\U{B}', '\U{C}', '\r', ' ', '\U{85}', '\U{A0}', '\U{1680}'}
    || '\U{2000}' <= c <= '\U{200A}'
    || c in {'\U{2028}', '\U{2029}', '\U{202F}', '\U{205F}', '\U{3000}'}
  }

  predicate Solid(c: char) {
    !IsSpace(c)
  }

  // `strings.Fields`
  function Fields(s: string): seq<string>
    decreases |s|
  {
    var a := Run(IsSpace, s);
    var w := Run(Solid, s[a..]);
    if w == 0 then [] else [s[a..][..w]] + Fields(s[a + w..])
  }

  // `strconv.Atoi` on digits fails only out of range.
  function Atoi(s: string): Option<GoInt>
    requires Digits(s)
  {
    if Number(s) < INT_LIMIT then Some(Number(s)) else None
  }

  // --- what the loops compute ---

  // The validator knows fewer spaces than `Fields`.
  predicate BadAcr(v: string) {
    v == "" || exists i :: 0 <= i < |v| && v[i] in " \t\r\n"
  }

  function FirstBad(acrValues: seq<string>): Option<string> {
    if acrValues == [] then None
    else if BadAcr(acrValues[0]) then Some(acrValues[0])
    else FirstBad(acrValues[1..])
  }

  function Params(acrValues: seq<string>, maxAge: Option<GoInt>): Result<map<string, string>, ParamError> {
    if FirstBad(acrValues).Some? then Err(InvalidAcr(FirstBad(acrValues).value))
    else if maxAge.Some? && maxAge.value < 0 then Err(NegativeMaxAge)
    else Ok((if acrValues == [] then map[] else map["acr_values" := JoinWith(acrValues, " ")])
            + if maxAge.None? then map[] else map["max_age" := Decimal(maxAge.value)])
  }

  // An error leaves no parameters.
  function AuthorizeParams(c: StepUpChallenge): map<string, string> {
    var r := Params(c.acrValues, c.maxAge);
    if r.Ok? then r.value else map[]
  }

  function Get(params: map<string, string>, name: string): string {
    if name in params then params[name] else ""
  }

  predicate AsksForStepUp(c: Challenge) {
    Get(c.params, "error") == INSUFFICIENT
  }

  function ReadMaxAge(params: map<string, string>): Option<GoInt> {
    if "max_age" in params && Digits(params["max_age"]) then Atoi(params["max_age"]) else None
  }

  function ReadChallenge(c: Challenge): StepUpChallenge {
    StepUpChallenge(c.scheme, Fields(Get(c.params, "acr_values")), ReadMaxAge(c.params),
                    Get(c.params, "error_description"), Get(c.params, "resource_metadata"))
  }

  function AllChallenges(headers: seq<string>): seq<Challenge> {
    if headers == [] then [] else Parse(headers[0]) + AllChallenges(headers[1..])
  }

  function FirstAsking(cs: seq<Challenge>): Option<Challenge> {
    if cs == [] then None
    else if AsksForStepUp(cs[0]) then Some(cs[0])
    else FirstAsking(cs[1..])
  }

  function ParseStepUp(headers: seq<string>): Option<StepUpChallenge> {
    var c := FirstAsking(AllChallenges(headers));
    if c.Some? then Some(ReadChallenge(c.value)) else None
  }

  // --- the source's loops ---

  method IsDigits(s: string) returns (r: bool)
    ensures r == Digits(s)
  {
    if s == "" {
      return false;
    }
    for i := 0 to |s|
      invariant forall k :: 0 <= k < i ==> Digit(s[k])
    {
      if s[i] < '0' || s[i] > '9' {
        return false;
      }
    }
    return true;
  }

  method StepUpParams(acrValues: seq<string>, maxAge: Option<GoInt>)
    returns (r: Result<map<string, string>, ParamError>)
    ensures r == Params(acrValues, maxAge)
  {
    assert acrValues[0..] == acrValues;
    for i := 0 to |acrValues|
      invariant FirstBad(acrValues[i..]) == FirstBad(acrValues)
    {
      assert acrValues[i..][1..] == acrValues[i + 1..];
      var v := acrValues[i];
      if BadAcr(v) {
        return Err(InvalidAcr(v));
      }
    }
    assert acrValues[|acrValues|..] == [];
    assert FirstBad(acrValues).None?;
    var params: map<string, string> := map[];
    if |acrValues| > 0 {
      params := params["acr_values" := JoinWith(acrValues, " ")];
    }
    if maxAge.Some? {
      if maxAge.value < 0 {
        return Err(NegativeMaxAge);
      }
      params := params["max_age" := Decimal(maxAge.value)];
    }
    assert params == (if acrValues == [] then map[] else map["acr_values" := JoinWith(acrValues, " ")])
                     + if maxAge.None? then map[] else map["max_age" := Decimal(maxAge.value)];
    return Ok(params);
  }

  method ReadStepUp(c: Challenge) returns (r: StepUpChallenge)
    ensures r == ReadChallenge(c)
  {
    var maxAge: Option<GoInt> := None;
    if "max_age" in c.params {
      var raw := c.params["max_age"];
      var digits := IsDigits(raw);
      if digits {
        maxAge := Atoi(raw);
      }
    }
    return StepUpChallenge(c.scheme, Fields(Get(c.params, "acr_values")), maxAge,
                           Get(c.params, "error_description"), Get(c.params, "resource_metadata"));
  }

  method ParseStepUpChallenge(headers: seq<string>) returns (r: Option<StepUpChallenge>)
    ensures r == ParseStepUp(headers)
  {
    hide Parse, ReadChallenge, AsksForStepUp;
    assert headers[0..] == headers;
    for i := 0 to |headers|
      invariant FirstAsking(AllChallenges(headers[i..])) == FirstAsking(AllChallenges(headers))
    {
      assert headers[i..][1..] == headers[i + 1..];
      var cs := ParseChallenges(headers[i]);
      ghost var rest := AllChallenges(headers[i + 1..]);
      assert cs[0..] == cs;
      for j := 0 to |cs|
        invariant FirstAsking(cs[j..] + rest) == FirstAsking(AllChallenges(headers))
      {
        ghost var left := cs[j..] + rest;
        assert left[0] == cs[j] && left[1..] == cs[j + 1..] + rest;
        if AsksForStepUp(cs[j]) {
          var c := ReadStepUp(cs[j]);
          return Some(c);
        }
      }
      assert cs[|cs|..] + rest == rest;
    }
    return None;
  }
}
