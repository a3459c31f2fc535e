/** Generating changes the interiors of the regions and nothing else. */
module Outside {
  import opened Prelude
  import opened Text
  import opened Regions
  import opened RegionLaws

  // --- the text of a file outside its regions ---

  // Is position `k` of `s` between the markers of `r`?
  predicate Inside(s: string, r: Region, k: nat) {
    Found(s, r) && Start(s, r) + |r.begin| <= k < Stop(s, r)
  }

  predicate InRegion(f: string, s: string, rs: seq<Region>, k: nat) {
    exists i :: 0 <= i < |rs| && rs[i].file == f && Inside(s, rs[i], k)
  }

  function Kept(f: string, s: string, rs: seq<Region>, from: nat, end: nat): string
    requires from <= end <= |s|
    decreases end
  {
    if from == end then ""
    else Kept(f, s, rs, from, end - 1) + if InRegion(f, s, rs, end - 1) then "" else [s[end - 1]]
  }

  // The text `s` of the file `f`, without what stands between the markers of its regions.
  function Outside(f: string, s: string, rs: seq<Region>): string {
    Kept(f, s, rs, 0, |s|)
  }

  // What stands between the markers.
  function Interior(s: string, r: Region): string
    requires Placed(s, r)
  {
    s[Start(s, r) + |r.begin|..Stop(s, r)]
  }

  lemma {:induction false} KeptSplits(f: string, s: string, rs: seq<Region>, from: nat, mid: nat, end: nat)
    requires from <= mid <= end <= |s|
    ensures Kept(f, s, rs, from, end) == Kept(f, s, rs, from, mid) + Kept(f, s, rs, mid, end)
    decreases end
  {
    hide InRegion;
    if mid < end {
      KeptSplits(f, s, rs, from, mid, end - 1);
    }
  }

  lemma {:induction false} NothingKept(f: string, s: string, rs: seq<Region>, from: nat, end: nat)
    requires from <= end <= |s| && forall k :: from <= k < end ==> InRegion(f, s, rs, k)
    ensures Kept(f, s, rs, from, end) == ""
    decreases end
  {
    hide InRegion;
    if from < end {
      NothingKept(f, s, rs, from, end - 1);
    }
  }

  lemma {:induction false} KeptMoves(f: string, s: string, rs: seq<Region>, from: nat, end: nat, t: string, d: int)
    requires from <= end <= |s| && 0 <= from + d && end + d <= |t|
    requires forall k :: from <= k < end ==> s[k] == t[k + d]
    requires forall k :: from <= k < end ==> (InRegion(f, s, rs, k) <==> InRegion(f, t, rs, k + d))
    ensures Kept(f, t, rs, from + d, end + d) == Kept(f, s, rs, from, end)
    decreases end
  {
    hide InRegion;
    if from < end {
      KeptMoves(f, s, rs, from, end - 1, t, d);
    }
  }

  // --- one region of one file ---

  // Every region of `f` has its place, and stays apart from `a`, whose body fakes no marker.
  predicate Around(f: string, s: string, rs: seq<Region>, a: Region) {
    && Placed(s, a) && OwnProper(a)
    && forall i :: 0 <= i < |rs| && rs[i].file == f ==>
         Markers(rs[i]) && Placed(s, rs[i]) && (rs[i] == a || (Apart(s, a, rs[i]) && Keeps(a, rs[i])))
  }

  lemma InsideMoves(s: string, a: Region, b: Region, k: nat)
    requires Placed(s, a) && OwnProper(a) && Markers(b) && Placed(s, b)
    requires b == a || (Apart(s, a, b) && Keeps(a, b))
    ensures k < |HeadOf(s, a)| ==> (Inside(s, b, k) <==> Inside(Applied(s, a), b, k))
    ensures var d := |Applied(s, a)| - |s|;
            k >= Stop(s, a) ==> k + d >= 0 && (Inside(s, b, k) <==> Inside(Applied(s, a), b, k + d))
  {
    hide IndexOf, Build, Free, Keeps, Markers;
    if b == a {
      OwnMarkers(s, a);
    } else {
      OtherMarkers(s, a, b);
    }
  }

  lemma InRegionMoves(f: string, s: string, rs: seq<Region>, a: Region, k: nat)
    requires Around(f, s, rs, a)
    ensures k < |HeadOf(s, a)| ==> (InRegion(f, s, rs, k) <==> InRegion(f, Applied(s, a), rs, k))
    ensures var d := |Applied(s, a)| - |s|;
            k >= Stop(s, a) ==> k + d >= 0 && (InRegion(f, s, rs, k) <==> InRegion(f, Applied(s, a), rs, k + d))
  {
    hide IndexOf, Applied, Inside, Free, Keeps, Markers, Placed, Apart, HeadOf;
    PlacedIsFound(s, a);
    InsideMoves(s, a, a, k);
    forall i | 0 <= i < |rs| && rs[i].file == f
      ensures k < |HeadOf(s, a)| ==> (Inside(s, rs[i], k) <==> Inside(Applied(s, a), rs[i], k))
      ensures var d := |Applied(s, a)| - |s|;
              k >= Stop(s, a) ==> k + d >= 0 && (Inside(s, rs[i], k) <==> Inside(Applied(s, a), rs[i], k + d))
    {
      InsideMoves(s, a, rs[i], k);
    }
  }

  // Two texts that differ from `h` on up to `n` in one and `n + d` in the other, all of it inside
  // regions, have the same outside.
  lemma SameOutside(f: string, s: string, t: string, rs: seq<Region>, h: nat, n: nat, d: int)
    requires h <= n <= |s| && |t| == |s| + d && h <= n + d
    requires (forall k :: 0 <= k < h ==> s[k] == t[k]) && forall k :: n <= k < |s| ==> s[k] == t[k + d]
    requires forall k :: h <= k < n ==> InRegion(f, s, rs, k)
    requires forall k :: h <= k < n + d ==> InRegion(f, t, rs, k)
    requires forall k :: 0 <= k < h ==> (InRegion(f, s, rs, k) <==> InRegion(f, t, rs, k))
    requires forall k :: n <= k < |s| ==> (InRegion(f, s, rs, k) <==> InRegion(f, t, rs, k + d))
    ensures Outside(f, t, rs) == Outside(f, s, rs)
  {
    hide Kept, InRegion;
    NothingKept(f, s, rs, h, n);
    NothingKept(f, t, rs, h, n + d);
    assert forall k :: 0 <= k < h ==> s[k] == t[k + 0];
    KeptMoves(f, s, rs, 0, h, t, 0);
    KeptMoves(f, s, rs, n, |s|, t, d);
    KeptSplits(f, s, rs, 0, h, |s|);
    KeptSplits(f, s, rs, h, n, |s|);
    KeptSplits(f, t, rs, 0, h, |t|);
    KeptSplits(f, t, rs, h, n + d, |t|);
  }

  // What `a` covers is kept out before and after; the rest moves unchanged.
  lemma AppliedKeepsOutside(f: string, s: string, rs: seq<Region>, a: Region)
    requires Around(f, s, rs, a) && a.file == f && a in rs
    ensures Outside(f, Applied(s, a), rs) == Outside(f, s, rs)
  {
    hide Outside, InRegion, Applied, HeadOf, Around, IndexOf, Placed;
    InteriorIsInside(f, s, rs, a);
    PlacedIsFound(s, a);
    HeadAndTail(s, a);
    InRegionsMove(f, s, rs, a);
    var t := Applied(s, a);
    SameOutside(f, s, t, rs, |HeadOf(s, a)|, Stop(s, a), |t| - |s|);
  }

  lemma InRegionsMove(f: string, s: string, rs: seq<Region>, a: Region)
    requires Around(f, s, rs, a)
    ensures var t, h, n := Applied(s, a), |HeadOf(s, a)|, Stop(s, a);
            && (forall k :: 0 <= k < h ==> (InRegion(f, s, rs, k) <==> InRegion(f, t, rs, k)))
            && (forall k :: n <= k < |s| ==> k + |t| - |s| >= 0 && (InRegion(f, s, rs, k) <==> InRegion(f, t, rs, k + (|t| - |s|))))
  {
    hide InRegion, Applied, HeadOf, IndexOf;
    forall k: nat
      ensures k < |HeadOf(s, a)| ==> (InRegion(f, s, rs, k) <==> InRegion(f, Applied(s, a), rs, k))
      ensures var d := |Applied(s, a)| - |s|;
              k >= Stop(s, a) ==> k + d >= 0 && (InRegion(f, s, rs, k) <==> InRegion(f, Applied(s, a), rs, k + d))
    {
      InRegionMoves(f, s, rs, a, k);
    }
  }

  lemma HeadAndTail(s: string, a: Region)
    requires Placed(s, a)
    ensures var t, h, n := Applied(s, a), |HeadOf(s, a)|, Stop(s, a);
            var d := |t| - |s|;
            && h <= n <= |s| && n + d == h + |a.body| + 2
            && (forall k :: 0 <= k < h ==> s[k] == t[k])
            && (forall k :: n <= k < |s| ==> s[k] == t[k + d])
  {
    hide Build, IndexOf;
    var t, h, n := Applied(s, a), |HeadOf(s, a)|, Stop(s, a);
    var d := |t| - |s|;
    assert forall k :: 0 <= k < h ==> s[k] == HeadOf(s, a)[k] == t[..h][k];
    forall k | n <= k < |s|
      ensures s[k] == t[k + d]
    {
      assert s[k] == TailOf(s, a)[k - n] == t[h + |a.body| + 2..][k - n];
    }
  }

  // Between the markers, in the old text and in the new one.
  lemma InteriorIsInside(f: string, s: string, rs: seq<Region>, a: Region)
    requires Around(f, s, rs, a) && a.file == f && a in rs
    ensures Placed(s, a) && Placed(Applied(s, a), a)
    ensures var t, h, n := Applied(s, a), |HeadOf(s, a)|, Stop(s, a);
            && (forall k :: h <= k < n ==> InRegion(f, s, rs, k))
            && (forall k :: h <= k < n + |t| - |s| ==> InRegion(f, t, rs, k))
  {
    hide IndexOf, Build, Free, Markers;
    OwnMarkers(s, a);
    var i :| 0 <= i < |rs| && rs[i] == a;
    var t, h, n := Applied(s, a), |HeadOf(s, a)|, Stop(s, a);
    assert forall k :: h <= k < n ==> Inside(s, rs[i], k);
    assert forall k :: h <= k < n + |t| - |s| ==> Inside(t, rs[i], k);
  }

  // --- all files ---

  lemma LayoutIsAround(texts: map<string, string>, rs: seq<Region>, k: nat)
    requires Proper(rs) && Layout(texts, rs) && k < |rs|
    ensures HasRegion(texts, rs[k]) && Around(rs[k].file, texts[rs[k].file], rs, rs[k])
  {
    hide Markers, Free, Placed, Apart, Keeps;
    var a := rs[k];
    assert HasRegion(texts, a) && OwnProper(a);
    forall i | 0 <= i < |rs| && rs[i].file == a.file
      ensures Markers(rs[i]) && Placed(texts[a.file], rs[i])
      ensures rs[i] == a || (Apart(texts[a.file], a, rs[i]) && Keeps(a, rs[i]))
    {
      assert HasRegion(texts, rs[i]) && OwnProper(rs[i]);
      assert i != k ==> Apart(texts[a.file], a, rs[i]) && Keeps(a, rs[i]);
    }
  }

  // One step keeps the outside of every file.
  lemma StepKeepsOutside(texts: map<string, string>, rs: seq<Region>, k: nat, f: string)
    requires Proper(rs) && Layout(texts, rs) && k < |rs| && f in texts
    ensures HasRegion(texts, rs[k])
    ensures Outside(f, WithApplied(texts, rs[k])[f], rs) == Outside(f, texts[f], rs)
  {
    hide Proper, Layout, Around, Outside, Placed, Applied;
    LayoutIsAround(texts, rs, k);
    if f == rs[k].file {
      AppliedKeepsOutside(f, texts[f], rs, rs[k]);
    }
  }

  lemma {:induction false} StepsKeepOutside(disk: map<string, string>, rs: seq<Region>, k: nat, p: Progress, f: string)
    requires Proper(rs) && k <= |rs| && p.files.Keys <= disk.Keys && Layout(disk + p.files, rs) && f in disk
    requires Steps(disk, rs[k..], p).Ok?
    ensures Outside(f, (disk + Steps(disk, rs[k..], p).value.files)[f], rs) == Outside(f, (disk + p.files)[f], rs)
    ensures f in Steps(disk, rs[k..], p).value.files ==> f in p.files || exists i :: k <= i < |rs| && rs[i].file == f
    decreases |rs| - k
  {
    hide Proper, Layout, Outside, Applied, ApplyRegion, Placed;
    if k < |rs| {
      var texts := disk + p.files;
      LayoutHas(texts, rs, k);
      StepApplies(disk, rs[k], p);
      StepKeepsOutside(texts, rs, k, f);
      LayoutStays(texts, rs, k);
      assert rs[k..][1..] == rs[k + 1..];
      StepsKeepOutside(disk, rs, k + 1, Step(disk, rs[k], p).value, f);
    }
  }

  lemma InteriorOfCurrent(s: string, r: Region)
    requires Placed(s, r) && ApplyRegion(s, r) == Some(s)
    ensures Interior(s, r) == "\n" + r.body + "\n"
  {
    hide Build, IndexOf, ApplyRegion;
    var head, tail := HeadOf(s, r), TailOf(s, r);
    assert Applied(s, r) == s == Build(head, r.body, tail);
    assert |tail| == |s| - Stop(s, r);
    BuildInterior(head, r.body, tail);
  }

  lemma BuildInterior(head: string, body: string, tail: string)
    ensures Build(head, body, tail)[|head|..|head| + |body| + 2] == "\n" + body + "\n"
  {
    assert Build(head, body, tail) == head + ("\n" + body + "\n") + tail;
  }

  // Generating changes a file only between the markers of its regions: there it leaves each body on
  // lines of its own, everywhere else the text is as it was. Other files are untouched.
  lemma OnlyInteriorsChange(disk: map<string, string>, rs: seq<Region>, f: string)
    requires Proper(rs) && Layout(disk, rs) && f in disk
    ensures Sync(disk, rs).Ok?
    ensures var written := disk + Sync(disk, rs).value.files;
            && written.Keys == disk.Keys
            && Outside(f, written[f], rs) == Outside(f, disk[f], rs)
            && ((forall i :: 0 <= i < |rs| ==> rs[i].file != f) ==> written[f] == disk[f])
            && forall i :: 0 <= i < |rs| && rs[i].file == f ==>
                 Placed(written[f], rs[i]) && Interior(written[f], rs[i]) == "\n" + rs[i].body + "\n"
  {
    hide Proper, Layout, UpToDate, Steps, Outside, Placed, Interior;
    var none: map<string, string> := map[];
    assert disk + none == disk && rs[0..] == rs;
    StepsMakeCurrent(disk, rs, 0, Progress(map[], []));
    StepsKeepOutside(disk, rs, 0, Progress(map[], []), f);
    var written := disk + Sync(disk, rs).value.files;
    forall i | 0 <= i < |rs| && rs[i].file == f
      ensures Placed(written[f], rs[i]) && Interior(written[f], rs[i]) == "\n" + rs[i].body + "\n"
    {
      LayoutHas(written, rs, i);
      CurrentText(written, rs[i]);
      InteriorOfCurrent(written[f], rs[i]);
    }
  }

  lemma CurrentText(texts: map<string, string>, r: Region)
    requires UpToDate(texts, r)
    ensures r.file in texts && ApplyRegion(texts[r.file], r) == Some(texts[r.file])
  {
  }
}
