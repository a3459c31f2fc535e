/** Generating anew: old bodies leave no trace, and the client regions always meet the conditions. */
module Regenerate {
  import opened Prelude
  import opened Text
  import opened Regions
  import opened RegionLaws

  // The texts after applying one region, and all of them in turn.
  function Apply(texts: map<string, string>, r: Region): map<string, string> {
    if HasRegion(texts, r) then WithApplied(texts, r) else texts
  }

  function Generated(texts: map<string, string>, rs: seq<Region>): map<string, string>
    decreases |rs|
  {
    if rs == [] then texts else Generated(Apply(texts, rs[0]), rs[1..])
  }

  lemma TailIsProper(rs: seq<Region>)
    requires rs != [] && Proper(rs)
    ensures Proper(rs[1..])
  {
    hide OwnProper, Keeps;
    var t := rs[1..];
    assert forall i :: 0 <= i < |t| ==> t[i] == rs[i + 1];
  }

  lemma TailHasLayout(texts: map<string, string>, rs: seq<Region>)
    requires rs != [] && Layout(texts, rs)
    ensures Layout(texts, rs[1..])
  {
    hide Placed, Apart;
    var t := rs[1..];
    assert forall i :: 0 <= i < |t| ==> t[i] == rs[i + 1];
    forall i, j | 0 <= i < |t| && 0 <= j < |t| && i != j && t[i].file == t[j].file
      ensures Apart(texts[t[i].file], t[i], t[j])
    {
      assert Apart(texts[rs[i + 1].file], rs[i + 1], rs[j + 1]);
    }
  }

  lemma {:induction false} SyncIsGenerated(disk: map<string, string>, rs: seq<Region>, p: Progress)
    requires Proper(rs) && p.files.Keys <= disk.Keys && Layout(disk + p.files, rs)
    ensures Steps(disk, rs, p).Ok? && disk + Steps(disk, rs, p).value.files == Generated(disk + p.files, rs)
    decreases |rs|
  {
    hide Proper, Layout, HasRegion, WithApplied, Step;
    if rs != [] {
      LayoutHas(disk + p.files, rs, 0);
      StepApplies(disk, rs[0], p);
      LayoutStays(disk + p.files, rs, 0);
      TailIsProper(rs);
      TailHasLayout(WithApplied(disk + p.files, rs[0]), rs);
      SyncIsGenerated(disk, rs[1..], Step(disk, rs[0], p).value);
    }
  }

  // The markers of `rs[i]` with another body, which fakes no marker either.
  predicate Older(a: Region, rs: seq<Region>, i: nat)
    requires i < |rs|
  {
    && a == rs[i].(body := a.body) && OwnProper(a)
    && forall j :: 0 <= j < |rs| && j != i && rs[j].file == a.file ==> Keeps(a, rs[j])
  }

  // Markers alone decide where a region is.
  lemma BodiesDoNotPlace(texts: map<string, string>, a: Region, b: Region)
    requires a == b.(body := a.body)
    ensures HasRegion(texts, a) <==> HasRegion(texts, b)
    ensures forall s, c :: (Apart(s, a, c) <==> Apart(s, b, c)) && (Apart(s, c, a) <==> Apart(s, c, b))
  {
    hide IndexOf;
  }

  lemma OlderOverwritten(texts: map<string, string>, a: Region, r: Region)
    requires a == r.(body := a.body) && OwnProper(a) && HasRegion(texts, r)
    ensures HasRegion(texts, a)
    ensures Apply(WithApplied(texts, a), r) == WithApplied(texts, r)
  {
    hide Markers, Free, Applied, Placed, ApplyRegion;
    BodiesDoNotPlace(texts, a, r);
    var s := texts[r.file];
    assert a.(body := r.body) == r;
    PlacedIsFound(s, a);
    OwnMarkers(s, a);
    LastBodyWins(s, a, r.body);
    StillPlaced(s, a);
    BodiesDoNotPlace(WithApplied(texts, a), a, r);
  }

  lemma OlderCommutes(texts: map<string, string>, a: Region, r: Region)
    requires OwnProper(a) && OwnProper(r) && HasRegion(texts, a) && HasRegion(texts, r)
    requires a.file == r.file ==> Apart(texts[r.file], a, r) && Keeps(a, r) && Keeps(r, a)
    ensures HasRegion(WithApplied(texts, r), a)
    ensures Apply(WithApplied(texts, a), r) == WithApplied(WithApplied(texts, r), a)
  {
    hide Markers, Free, Applied, Placed, ApplyRegion, Keeps, Apart;
    if a.file == r.file {
      var s := texts[r.file];
      ApartSwaps(s, a, r);
      RegionsCommute(s, a, r);
      OtherMarkers(s, a, r);
      OtherMarkers(s, r, a);
    }
  }

  // A region applied before it is generated anew makes no difference.
  lemma {:induction false} OlderIsForgotten(texts: map<string, string>, a: Region, rs: seq<Region>, i: nat)
    requires Proper(rs) && Layout(texts, rs) && i < |rs| && Older(a, rs, i)
    ensures HasRegion(texts, a)
    ensures Generated(WithApplied(texts, a), rs) == Generated(texts, rs)
    decreases |rs|
  {
    hide WithApplied, Placed, Keeps, OwnProper, Apart;
    var r := rs[0];
    assert HasRegion(texts, r) && OwnProper(r) && HasRegion(texts, rs[i]);
    BodiesDoNotPlace(texts, a, rs[i]);
    if i == 0 {
      OlderOverwritten(texts, a, r);
    } else {
      assert rs[i].file == r.file ==> Apart(texts[r.file], rs[i], r) && Keeps(r, rs[i]) && Keeps(a, r);
      KeepsMarkers(r, a, rs[i]);
      OlderCommutes(texts, a, r);
      var texts' := WithApplied(texts, r);
      LayoutStays(texts, rs, 0);
      TailHasLayout(texts', rs);
      TailIsProper(rs);
      assert rs[1..][i - 1] == rs[i];
      OlderIsForgotten(texts', a, rs[1..], i - 1);
    }
  }

  lemma KeepsMarkers(r: Region, a: Region, b: Region)
    requires a == b.(body := a.body)
    ensures Keeps(r, a) <==> Keeps(r, b)
  {
  }

  predicate HasNewer(a: Region, rs: seq<Region>) {
    exists i :: 0 <= i < |rs| && Older(a, rs, i)
  }

  predicate AllOlder(earlier: seq<Region>, rs: seq<Region>) {
    forall k :: 0 <= k < |earlier| ==> HasNewer(earlier[k], rs)
  }

  lemma LayoutAfterOlder(texts: map<string, string>, a: Region, rs: seq<Region>, i: nat)
    requires Proper(rs) && Layout(texts, rs) && i < |rs| && Older(a, rs, i) && HasRegion(texts, a)
    ensures Layout(WithApplied(texts, a), rs)
  {
    hide WithApplied, Keeps, OwnProper, Apart, HasRegion;
    var olds := rs[i := a];
    forall j, k | 0 <= j < |rs| && 0 <= k < |rs| && j != k && rs[j].file == rs[k].file
      ensures Keeps(olds[j], olds[k])
    {
      KeepsMarkers(olds[j], olds[k], rs[k]);
    }
    assert Proper(olds);
    SamePlaces(texts, olds, rs);
    LayoutStays(texts, olds, i);
    SamePlaces(WithApplied(texts, a), olds, rs);
  }

  lemma SamePlaces(texts: map<string, string>, olds: seq<Region>, bs: seq<Region>)
    requires |olds| == |bs| && forall i :: 0 <= i < |olds| ==> olds[i] == bs[i].(body := olds[i].body)
    ensures Layout(texts, olds) <==> Layout(texts, bs)
  {
    hide Placed, Apart;
    forall i | 0 <= i < |olds|
      ensures HasRegion(texts, olds[i]) <==> HasRegion(texts, bs[i])
      ensures forall s, c :: (Apart(s, olds[i], c) <==> Apart(s, bs[i], c)) && (Apart(s, c, olds[i]) <==> Apart(s, c, bs[i]))
    {
      BodiesDoNotPlace(texts, olds[i], bs[i]);
    }
  }

  // Generating over an earlier generation gives what generating over the first text would have:
  // earlier bodies leave no trace, and nothing outside the regions was lost.
  lemma {:induction false} GeneratingForgets(texts: map<string, string>, earlier: seq<Region>, rs: seq<Region>)
    requires Proper(rs) && Layout(texts, rs) && AllOlder(earlier, rs)
    ensures Layout(Generated(texts, earlier), rs)
    ensures Generated(Generated(texts, earlier), rs) == Generated(texts, rs)
    decreases |earlier|
  {
    hide Proper, Layout, Older, HasRegion, WithApplied;
    if earlier != [] {
      var a := earlier[0];
      assert HasNewer(a, rs);
      var i :| 0 <= i < |rs| && Older(a, rs, i);
      OlderIsForgotten(texts, a, rs, i);
      LayoutAfterOlder(texts, a, rs, i);
      GeneratingForgets(WithApplied(texts, a), earlier[1..], rs);
    }
  }

  // --- the client regions ---

  lemma {:induction false} JoinLacks(parts: seq<string>, sep: string, c: char)
    requires c !in sep && forall i :: 0 <= i < |parts| ==> c !in parts[i]
    ensures c !in JoinWith(parts, sep)
  {
    if |parts| > 1 {
      JoinLacks(parts[1..], sep, c);
    }
  }

  lemma PartLacks(part: string, c: char)
    requires c !in part && !('A' <= c <= 'Z')
    ensures c !in GoPart(part)
  {
    if part != "" {
      assert part == [part[0]] + part[1..] && part[0] in part;
    }
  }

  lemma {:induction false} PartsLack(parts: seq<string>, c: char)
    requires !('A' <= c <= 'Z') && forall i :: 0 <= i < |parts| ==> c !in parts[i]
    ensures c !in GoParts(parts)
  {
    hide GoPart;
    if parts != [] {
      PartLacks(parts[0], c);
      PartsLack(parts[1..], c);
    }
  }

  predicate CodesLack(codes: seq<string>, c: char) {
    forall i :: 0 <= i < |codes| ==> c !in codes[i]
  }

  lemma {:induction false} QuotedLack(codes: seq<string>)
    requires CodesLack(codes, '#')
    ensures CodesLack(QuotedLines(codes), '#')
  {
    if codes != [] {
      QuotedLack(codes[1..]);
    }
  }

  lemma {:induction false} ConstsLack(codes: seq<string>, width: int)
    requires CodesLack(codes, '/')
    ensures CodesLack(ConstLines(codes, width), '/')
  {
    hide GoParts, Split, Repeat;
    if codes != [] {
      ConstsLack(codes[1..], width);
      SplitLacks(codes[0], '_', '/');
      PartsLack(Split(codes[0], '_'), '/');
      var left := width - |"Decision" + GoName(codes[0])|;
      RepeatIs(' ', if left > 0 then left else 0);
    }
  }

  lemma LacksMarker(s: string, m: string, c: char)
    requires c in m && c !in s
    ensures Free(s, m)
  {
    var k :| 0 <= k < |m| && m[k] == c;
    forall i | 0 <= i <= |s|
      ensures !OccursAt(s, m, i)
    {
      if i + |m| <= |s| {
        assert s[i..i + |m|][k] == s[i + k] && s[i + k] in s;
      }
    }
  }

  // A marker of one line that holds `c`.
  predicate CommentMarker(m: string, c: char) {
    Marker(m) && c in m
  }

  lemma LiteralBeginIsMarker()
    ensures CommentMarker(LITERAL_BEGIN, '#')
  {
    var m := LITERAL_BEGIN;
    assert m[4] == '#';
    assert forall i :: 0 <= i < |m| ==> m[i] != '\n';
  }

  lemma LiteralEndIsMarker()
    ensures CommentMarker(LITERAL_END, '#')
  {
    var m := LITERAL_END;
    assert m[4] == '#';
    assert forall i :: 0 <= i < |m| ==> m[i] != '\n';
  }

  lemma TupleBeginIsMarker()
    ensures CommentMarker(TUPLE_BEGIN, '#')
  {
    var m := TUPLE_BEGIN;
    assert m[4] == '#';
    assert forall i :: 0 <= i < |m| ==> m[i] != '\n';
  }

  lemma TupleEndIsMarker()
    ensures CommentMarker(TUPLE_END, '#')
  {
    var m := TUPLE_END;
    assert m[4] == '#';
    assert forall i :: 0 <= i < |m| ==> m[i] != '\n';
  }

  lemma GoBeginIsMarker()
    ensures CommentMarker(GO_BEGIN, '/')
  {
    var m := GO_BEGIN;
    assert m[1] == '/';
    assert forall i :: 0 <= i < |m| ==> m[i] != '\n';
  }

  lemma GoEndIsMarker()
    ensures CommentMarker(GO_END, '/')
  {
    var m := GO_END;
    assert m[1] == '/';
    assert forall i :: 0 <= i < |m| ==> m[i] != '\n';
  }

  lemma ClientMarkers(codes: seq<string>)
    ensures var rs := ClientRegions(codes);
            && CommentMarker(rs[0].begin, '#') && CommentMarker(rs[0].end, '#')
            && CommentMarker(rs[1].begin, '#') && CommentMarker(rs[1].end, '#')
            && CommentMarker(rs[2].begin, '/') && CommentMarker(rs[2].end, '/')
  {
    hide CommentMarker, JoinWith, QuotedLines, ConstLines, LongestName;
    LiteralBeginIsMarker();
    LiteralEndIsMarker();
    TupleBeginIsMarker();
    TupleEndIsMarker();
    GoBeginIsMarker();
    GoEndIsMarker();
  }

  lemma ClientBodiesLack(codes: seq<string>)
    requires CodesLack(codes, '#') && CodesLack(codes, '/')
    ensures var rs := ClientRegions(codes); '#' !in rs[0].body && '#' !in rs[1].body && '/' !in rs[2].body
  {
    hide JoinWith, QuotedLines, ConstLines, LongestName, CodesLack;
    QuotedLack(codes);
    var width := LongestName(codes) + |"Decision"|;
    ConstsLack(codes, width);
    LinesLack(QuotedLines(codes), '#');
    LinesLack(ConstLines(codes, width), '/');
  }

  lemma LinesLack(lines: seq<string>, c: char)
    requires c != '\n' && CodesLack(lines, c)
    ensures c !in JoinWith(lines, "\n")
  {
    JoinLacks(lines, "\n", c);
  }

  lemma ClientFiles(codes: seq<string>)
    ensures var rs := ClientRegions(codes); rs[0].file != rs[2].file && rs[1].file != rs[2].file
  {
    hide JoinWith, QuotedLines, ConstLines, LongestName;
    assert PYTHON_CODES[5] != "sdks/go/decision.go"[5];
  }

  // Codes without `#` and `/` make proper regions.
  lemma ClientRegionsAreProper(codes: seq<string>)
    requires CodesLack(codes, '#') && CodesLack(codes, '/')
    ensures Proper(ClientRegions(codes))
  {
    hide ClientRegions, Free, Marker, CodesLack;
    var rs := ClientRegions(codes);
    ClientBodiesLack(codes);
    ClientFiles(codes);
    ClientMarkers(codes);
    forall i, j | 0 <= i < 2 && 0 <= j < 2
      ensures Keeps(rs[i], rs[j]) && Free(rs[i].body, rs[j].end)
    {
      LacksMarker(rs[i].body, rs[j].begin, '#');
      LacksMarker(rs[i].body, rs[j].end, '#');
    }
    LacksMarker(rs[2].body, rs[2].end, '/');
  }

  lemma OtherCodesAreOlder(codes: seq<string>, others: seq<string>)
    requires Proper(ClientRegions(codes)) && Proper(ClientRegions(others))
    ensures AllOlder(ClientRegions(codes), ClientRegions(others))
    ensures forall i :: 0 <= i < 3 ==> ClientRegions(codes)[i] == ClientRegions(others)[i].(body := ClientRegions(codes)[i].body)
  {
    hide JoinWith, QuotedLines, ConstLines, Free, Marker, LongestName;
    var rs, qs := ClientRegions(codes), ClientRegions(others);
    assert Keeps(rs[0], rs[1]) && Keeps(rs[1], rs[0]);
    forall k | 0 <= k < 3
      ensures HasNewer(rs[k], qs)
      ensures rs[k] == qs[k].(body := rs[k].body)
    {
      assert Older(rs[k], qs, k) by {
        assert OwnProper(rs[k]);
      }
    }
  }

  // The client libraries: after generating, the check is clean, and generating for other codes
  // gives what it would have given at first.
  lemma ClientCodesStayInStep(disk: map<string, string>, codes: seq<string>, others: seq<string>)
    requires CodesLack(codes, '#') && CodesLack(codes, '/') && CodesLack(others, '#') && CodesLack(others, '/')
    requires Layout(disk, ClientRegions(codes))
    ensures Sync(disk, ClientRegions(codes)).Ok? && Sync(disk, ClientRegions(others)).Ok?
    ensures var written := disk + Sync(disk, ClientRegions(codes)).value.files;
            && Sync(written, ClientRegions(codes)).Ok? && Sync(written, ClientRegions(codes)).value.stale == []
            && Sync(written, ClientRegions(others)).Ok?
            && written + Sync(written, ClientRegions(others)).value.files ==
               disk + Sync(disk, ClientRegions(others)).value.files
  {
    hide ClientRegions, Proper, Layout, CodesLack, Steps, Generated, AllOlder;
    var rs, qs := ClientRegions(codes), ClientRegions(others);
    ClientRegionsAreProper(codes);
    ClientRegionsAreProper(others);
    OtherCodesAreOlder(codes, others);
    SamePlaces(disk, rs, qs);
    GenerateThenCheck(disk, rs);
    GeneratingForgets(disk, rs, qs);
    NothingYet(disk);
    SyncIsGenerated(disk, rs, Progress(map[], []));
    SyncIsGenerated(disk, qs, Progress(map[], []));
    var written := disk + Sync(disk, rs).value.files;
    NothingYet(written);
    SyncIsGenerated(written, qs, Progress(map[], []));
  }

  lemma NothingYet(disk: map<string, string>)
    ensures var none: map<string, string> := map[]; disk + none == disk && none.Keys <= disk.Keys
  {
  }
}
