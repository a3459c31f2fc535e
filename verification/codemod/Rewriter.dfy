/** `replaceCode`: mapped names and KAVACH_ env names are rewritten in code and comments. */
module Rewriter {
  import opened Text
  import opened Words

  // The result of one regular expression pass: text that was kept, and matches with what
  // replaced them and the key that was counted.
  datatype Piece = Keep(c: char) | Swap(from: string, to: string, key: string)
  {
    function Source(): string {
      if Keep? then [c] else from
    }

    function Target(): string {
      if Keep? then [c] else to
    }

    function Counted(): seq<string> {
      if Keep? then [] else [key]
    }
  }

  function Before(ps: seq<Piece>): string {
    if ps == [] then "" else ps[0].Source() + Before(ps[1..])
  }

  function After(ps: seq<Piece>): string {
    if ps == [] then "" else ps[0].Target() + After(ps[1..])
  }

  function Keys(ps: seq<Piece>): seq<string> {
    if ps == [] then [] else ps[0].Counted() + Keys(ps[1..])
  }

  function Kept(s: string): seq<Piece> {
    if s == "" then [] else [Keep(s[0])] + Kept(s[1..])
  }

  // If `s` starts with `process.env . KAVACH_X` or `import.meta.env . KAVACH_X`, the length of
  // what stands before KAVACH_; otherwise 0. Whitespace is allowed around the last dot.
  function EnvHead(s: string): (n: nat)
    ensures n > 0 ==> n + 7 < |s| && ENV_PREFIX_OLD <= s[n..]
  {
    var h := EnvObject(s);
    if h == 0 || EnvTail(s[h..]) == 0 then 0 else h + EnvTail(s[h..])
  }

  function EnvObject(s: string): (n: nat)
    ensures n <= |s|
  {
    if "process.env" <= s then 11 else if "import.meta.env" <= s then 15 else 0
  }

  // The `\s*\.\s*` between the env object and KAVACH_.
  function EnvTail(x: string): (n: nat)
    ensures n > 0 ==> n + 7 < |x| && ENV_PREFIX_OLD <= x[n..]
  {
    var a := Run(Space, x);
    if !(a < |x| && x[a] == '.') then 0 else
    var b := a + 1 + Run(Space, x[a + 1..]);
    if KavachName(x[b..]) then b else 0
  }

  predicate KavachName(z: string) {
    ENV_PREFIX_OLD <= z && |z| > 7 && WordChar(z[7])
  }

  // Does the identifier alternative match here? The maximal run of `[\w$]` is an old name.
  predicate NameHere(t: Table, s: string) {
    var n := Run(IdentChar, s);
    n > 0 && s[..n] in t
  }

  // One step of the pass: the pieces it produced, whether the last character passed is in
  // `[\w$]`, and what is left.
  datatype Hit = Hit(head: seq<Piece>, prev: bool, rest: string)

  // `prev` says whether the character before `s` is in `[\w$]` (the lookbehind). The env
  // alternative comes first. What follows KAVACH_ belongs to the env match and cannot match
  // again: it is passed with a word character before it.
  function Match(t: Table, prev: bool, s: string): (m: Hit)
    requires s != ""
    ensures |m.rest| < |s|
  {
    if !prev && EnvHead(s) > 0 then EnvHit(s[..EnvHead(s)], s[EnvHead(s) + 7..])
    else if !prev && NameHere(t, s) then
      var n := Run(IdentChar, s);
      Hit([Swap(s[..n], t[s[..n]], s[..n])], true, s[n..])
    else
      Hit([Keep(s[0])], IdentChar(s[0]), s[1..])
  }

  // The env match on `h + KAVACH_ + w`; it extends over the word characters `w` starts with.
  function EnvHit(h: string, w: string): Hit {
    Hit(Kept(h) + [EnvSwap(w)], true, w)
  }

  function EnvSwap(w: string): Piece {
    Swap(ENV_PREFIX_OLD, ENV_PREFIX_NEW, "env:" + ENV_PREFIX_OLD + w[..Run(WordChar, w)])
  }

  function Pieces(t: Table, prev: bool, s: string): seq<Piece>
    decreases |s|
  {
    if s == "" then []
    else
      var m := Match(t, prev, s);
      m.head + Pieces(t, m.prev, m.rest)
  }

  function Rewritten(t: Table, prev: bool, s: string): string {
    After(Pieces(t, prev, s))
  }

  function ReplaceCode(t: Table, text: string): string {
    Rewritten(t, false, text)
  }

  // The keys `replaceCode` counts, in order.
  function CodeKeys(t: Table, text: string): seq<string> {
    Keys(Pieces(t, false, text))
  }

  // --- laws of pieces ---

  lemma BeforeConcat(a: seq<Piece>, b: seq<Piece>)
    ensures Before(a + b) == Before(a) + Before(b)
  {
    if a == [] {
      assert a + b == b;
    } else {
      BeforeConcat(a[1..], b);
      assert (a + b)[1..] == a[1..] + b;
    }
  }

  lemma AfterConcat(a: seq<Piece>, b: seq<Piece>)
    ensures After(a + b) == After(a) + After(b)
  {
    if a == [] {
      assert a + b == b;
    } else {
      AfterConcat(a[1..], b);
      assert (a + b)[1..] == a[1..] + b;
    }
  }

  lemma KeptIsInert(s: string)
    ensures Before(Kept(s)) == s && After(Kept(s)) == s && Keys(Kept(s)) == []
  {
    if s != "" {
      KeptIsInert(s[1..]);
    }
  }

  lemma KeptConcat(a: string, b: string)
    ensures Kept(a + b) == Kept(a) + Kept(b)
  {
    if a == "" {
      assert a + b == b;
    } else {
      KeptConcat(a[1..], b);
      assert (a + b)[1..] == a[1..] + b;
    }
  }

  // Swaps replace identifier text by identifier text, both non-empty.
  predicate Tame(ps: seq<Piece>) {
    forall p :: p in ps && p.Swap? ==> p.from != "" && p.to != "" && AllIdent(p.from) && AllIdent(p.to)
  }

  lemma KeptIsTame(s: string)
    ensures forall p :: p in Kept(s) ==> p.Keep?
  {
  }

  lemma SplitAt(s: string, b: nat)
    requires b + 7 <= |s| && ENV_PREFIX_OLD <= s[b..]
    ensures s == s[..b] + ENV_PREFIX_OLD + s[b + 7..]
  {
    assert s[b..][..7] == ENV_PREFIX_OLD;
  }

  lemma KeptThenSwap(h: string, p: Piece)
    ensures Before(Kept(h) + [p]) == h + p.Source()
    ensures After(Kept(h) + [p]) == h + p.Target()
    ensures Tame([p]) ==> Tame(Kept(h) + [p])
  {
    KeptIsInert(h);
    KeptIsTame(h);
    BeforeConcat(Kept(h), [p]);
    AfterConcat(Kept(h), [p]);
  }

  lemma EnvHitCovers(h: string, w: string)
    ensures Before(EnvHit(h, w).head) == h + ENV_PREFIX_OLD
    ensures After(EnvHit(h, w).head) == h + ENV_PREFIX_NEW
    ensures Tame(EnvHit(h, w).head)
  {
    KeptThenSwap(h, EnvSwap(w));
  }

  lemma MatchCovers(t: Table, prev: bool, s: string)
    requires ValidTable(t) && s != ""
    ensures var m := Match(t, prev, s);
            Before(m.head) + m.rest == s && Tame(m.head)
  {
    var m := Match(t, prev, s);
    if !prev && EnvHead(s) > 0 {
      EnvHitCovers(s[..EnvHead(s)], s[EnvHead(s) + 7..]);
      SplitAt(s, EnvHead(s));
    } else if !prev && NameHere(t, s) {
      var n := Run(IdentChar, s);
      assert AllIdent(s[..n]) && AllIdent(t[s[..n]]);
      assert s == s[..n] + s[n..];
    }
  }

  // The pass covers its input exactly, and only ever swaps identifier text for identifier text.
  lemma {:induction false} PiecesCover(t: Table, prev: bool, s: string)
    requires ValidTable(t)
    ensures Before(Pieces(t, prev, s)) == s
    ensures Tame(Pieces(t, prev, s))
    decreases |s|
  {
    if s != "" {
      var m := Match(t, prev, s);
      MatchCovers(t, prev, s);
      PiecesCover(t, m.prev, m.rest);
      BeforeConcat(m.head, Pieces(t, m.prev, m.rest));
    }
  }

  // Whatever the table, the pieces are the source.
  lemma {:induction false} PiecesAreSource(t: Table, prev: bool, s: string)
    ensures Before(Pieces(t, prev, s)) == s
    decreases |s|
  {
    hide EnvHead, NameHere;
    if s != "" {
      var m := Match(t, prev, s);
      HeadIsSource(t, prev, s);
      PiecesAreSource(t, m.prev, m.rest);
      BeforeConcat(m.head, Pieces(t, m.prev, m.rest));
    }
  }

  lemma HeadIsSource(t: Table, prev: bool, s: string)
    requires s != ""
    ensures var m := Match(t, prev, s); Before(m.head) + m.rest == s
  {
    hide EnvHead, Run, Kept, Before, EnvSwap;
    if !prev && EnvHead(s) > 0 {
      EnvHitCovers(s[..EnvHead(s)], s[EnvHead(s) + 7..]);
      SplitAt(s, EnvHead(s));
    } else {
      var n := Run(IdentChar, s);
      assert s == s[..n] + s[n..] && s == [s[0]] + s[1..];
      OneBefore(Match(t, prev, s).head[0]);
    }
  }

  lemma OneBefore(p: Piece)
    ensures Before([p]) == p.Source()
  {
    assert Before([p]) == p.Source() + "";
  }

  // A swap in front of `rest` is a row of the table, counted under its old name; or the env prefix,
  // counted under the env name: the prefix and the word characters behind it.
  predicate Listed(t: Table, p: Piece, rest: string) {
    p.Swap? ==>
      || (p.from in t && p.to == t[p.from] && p.key == p.from)
      || (p.from == ENV_PREFIX_OLD && p.to == ENV_PREFIX_NEW
          && p.key == "env:" + ENV_PREFIX_OLD + rest[..Run(WordChar, rest)])
  }

  // Every swap is listed, with the text behind it in the source.
  lemma {:induction false} SwapsAreListed(t: Table, prev: bool, s: string, i: nat)
    requires i < |Pieces(t, prev, s)|
    ensures Listed(t, Pieces(t, prev, s)[i], Before(Pieces(t, prev, s)[i + 1..]))
    decreases |s|
  {
    hide EnvHead, NameHere, Listed, Match;
    var m := Match(t, prev, s);
    var ps, qs := Pieces(t, prev, s), Pieces(t, m.prev, m.rest);
    if i >= |m.head| {
      SwapsAreListed(t, m.prev, m.rest, i - |m.head|);
      assert ps[i + 1..] == qs[i - |m.head| + 1..];
    } else {
      PiecesAreSource(t, m.prev, m.rest);
      assert i == |m.head| - 1 ==> ps[i + 1..] == qs;
      MatchIsListed(t, prev, s, i, Before(ps[i + 1..]));
    }
  }

  lemma MatchIsListed(t: Table, prev: bool, s: string, i: nat, rest: string)
    requires s != "" && i < |Match(t, prev, s).head|
    requires i == |Match(t, prev, s).head| - 1 ==> rest == Match(t, prev, s).rest
    ensures Listed(t, Match(t, prev, s).head[i], rest)
  {
    hide EnvHead;
    if !prev && EnvHead(s) > 0 {
      EnvHitIsListed(t, s[..EnvHead(s)], s[EnvHead(s) + 7..], i, rest);
    }
  }

  lemma EnvHitIsListed(t: Table, h: string, w: string, i: nat, rest: string)
    requires i < |EnvHit(h, w).head| && (i == |EnvHit(h, w).head| - 1 ==> rest == w)
    ensures Listed(t, EnvHit(h, w).head[i], rest)
  {
    KeptIsTame(h);
    assert i < |Kept(h)| ==> EnvHit(h, w).head[i] == Kept(h)[i] && Kept(h)[i] in Kept(h);
  }
}
