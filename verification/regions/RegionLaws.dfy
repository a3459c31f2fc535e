/** Laws of `Regions`: what one region leaves alone, and that generating leaves nothing stale. */
module RegionLaws {
  import opened Prelude
  import opened Text
  import opened Regions

  // --- first occurrences ---

  lemma IndexIs(s: string, m: string, i: nat)
    requires OccursAt(s, m, i)
    requires forall j :: 0 <= j < i ==> !OccursAt(s, m, j)
    ensures IndexOf(s, m) == i
  {
  }

  predicate Free(s: string, m: string) {
    forall i :: 0 <= i <= |s| ==> !OccursAt(s, m, i)
  }

  predicate Marker(m: string) {
    m != "" && forall i :: 0 <= i < |m| ==> m[i] != '\n'
  }

  // A text made of a head, a body line or more, and a tail.
  function Build(head: string, body: string, tail: string): (s: string)
    ensures |s| == |head| + |body| + 2 + |tail|
    ensures s[..|head|] == head && s[|head| + |body| + 2..] == tail
    ensures s[|head|] == '\n' == s[|head| + |body| + 1] && s[|head| + 1..|head| + |body| + 1] == body
  {
    head + ("\n" + body + "\n" + tail)
  }

  // A marker lies on one line: in the head, in the body or in the tail.
  lemma MarkerPlaces(head: string, body: string, tail: string, m: string, i: nat)
    requires Marker(m) && OccursAt(Build(head, body, tail), m, i)
    ensures || OccursAt(head, m, i)
            || (i > |head| && OccursAt(body, m, i - |head| - 1))
            || (i >= |head| + |body| + 2 && OccursAt(tail, m, i - |head| - |body| - 2))
  {
    hide Build;
    var s := Build(head, body, tail);
    NotAcross(s, m, i, |head|);
    NotAcross(s, m, i, |head| + |body| + 1);
    if i + |m| <= |head| {
      SliceOf(s, 0, |head|, i, |m|);
    } else if i > |head| && i + |m| <= |head| + |body| + 1 {
      SliceOf(s, |head| + 1, |head| + |body| + 1, i, |m|);
    } else {
      SliceOf(s, |head| + |body| + 2, |s|, i, |m|);
    }
  }

  lemma NotAcross(s: string, m: string, i: nat, n: nat)
    requires Marker(m) && OccursAt(s, m, i) && n < |s| && s[n] == '\n'
    ensures i + |m| <= n || i > n
  {
    assert forall k :: 0 <= k < |m| ==> m[k] == s[i..i + |m|][k] == s[i + k];
    assert forall k :: i <= k < i + |m| ==> s[k] == m[k - i] && m[k - i] in m;
  }

  lemma SliceOf(s: string, from: nat, to: nat, i: nat, n: nat)
    requires from <= i && i + n <= to <= |s|
    ensures s[from..to][i - from..i - from + n] == s[i..i + n]
  {
    var a, b := s[from..to][i - from..i - from + n], s[i..i + n];
    assert forall k :: 0 <= k < n ==> a[k] == s[from..to][i - from + k] == s[i + k] == b[k];
    assert a == b;
  }

  // --- one region ---

  function Start(s: string, r: Region): int { IndexOf(s, r.begin) }

  function Stop(s: string, r: Region): int { IndexOf(s, r.end) }

  predicate Markers(r: Region) {
    Marker(r.begin) && Marker(r.end)
  }

  // What `applyRegion` asks for.
  predicate Found(s: string, r: Region) {
    Start(s, r) >= 0 && Stop(s, r) >= Start(s, r)
  }

  // The end marker follows the begin marker.
  predicate Placed(s: string, r: Region) {
    Found(s, r) && Stop(s, r) >= Start(s, r) + |r.begin|
  }

  function HeadOf(s: string, r: Region): string
    requires Found(s, r)
  {
    s[..Start(s, r) + |r.begin|]
  }

  function TailOf(s: string, r: Region): string
    requires Found(s, r)
  {
    s[Stop(s, r)..]
  }

  function Applied(s: string, r: Region): (t: string)
    requires Found(s, r)
    ensures ApplyRegion(s, r) == Some(t)
  {
    Build(HeadOf(s, r), r.body, TailOf(s, r))
  }

  // An occurrence in the unchanged head stays the first one.
  lemma FoundInHead(s: string, head: string, body: string, tail: string, m: string)
    requires |head| <= |s| && s[..|head|] == head
    requires 0 <= IndexOf(s, m) && IndexOf(s, m) + |m| <= |head|
    ensures IndexOf(Build(head, body, tail), m) == IndexOf(s, m)
  {
    hide Build, IndexOf;
    var t := Build(head, body, tail);
    var p := IndexOf(s, m);
    SliceOf(s, 0, |head|, p, |m|);
    SliceOf(t, 0, |head|, p, |m|);
    forall j | 0 <= j < p
      ensures !OccursAt(t, m, j)
    {
      assert !OccursAt(s, m, j);
      SliceOf(s, 0, |head|, j, |m|);
      SliceOf(t, 0, |head|, j, |m|);
    }
    IndexIs(t, m, p);
  }

  // An occurrence in the unchanged tail moves with it, unless the body brings an earlier one.
  lemma FoundInTail(s: string, head: string, body: string, n: nat, m: string)
    requires Marker(m) && |head| <= n <= |s| && s[..|head|] == head && IndexOf(s, m) >= n
    requires Free(body, m)
    ensures IndexOf(Build(head, body, s[n..]), m) == IndexOf(s, m) - n + |head| + |body| + 2
  {
    hide Build, IndexOf;
    var tail := s[n..];
    var t := Build(head, body, tail);
    var p := IndexOf(s, m);
    var k := |head| + |body| + 2;
    SliceOf(s, n, |s|, p, |m|);
    SliceOf(t, k, |t|, p - n + k, |m|);
    forall j: nat
      ensures OccursAt(t, m, j) ==> j >= p - n + k
    {
      if OccursAt(t, m, j) {
        MarkerPlaces(head, body, tail, m, j);
        InHead(s, head, m, j);
        if j >= k {
          InTail(s, n, m, j - k);
        }
      }
    }
    IndexIs(t, m, p - n + k);
  }

  lemma InHead(s: string, head: string, m: string, i: nat)
    requires |head| <= |s| && s[..|head|] == head
    ensures OccursAt(head, m, i) ==> OccursAt(s, m, i)
  {
    if OccursAt(head, m, i) {
      SliceOf(s, 0, |head|, i, |m|);
    }
  }

  lemma InTail(s: string, n: nat, m: string, i: nat)
    requires n <= |s|
    ensures OccursAt(s[n..], m, i) ==> OccursAt(s, m, n + i)
  {
    if OccursAt(s[n..], m, i) {
      SliceOf(s, n, |s|, n + i, |m|);
    }
  }

  // --- a region applied twice ---

  // The end marker is found inside the begin marker just when it is part of it.
  lemma EndInBegin(s: string, r: Region)
    requires Markers(r) && Found(s, r)
    ensures if Free(r.begin, r.end) then Free(HeadOf(s, r), r.end) else Stop(s, r) + |r.end| <= |HeadOf(s, r)|
  {
    hide IndexOf;
    if Free(r.begin, r.end) {
      forall j | 0 <= j <= |HeadOf(s, r)|
        ensures !OccursAt(HeadOf(s, r), r.end, j)
      {
        HeadEndsInBegin(s, r, j);
      }
    } else {
      var j :| 0 <= j <= |r.begin| && OccursAt(r.begin, r.end, j);
      BeginInText(s, r, j);
    }
  }

  lemma BeginInText(s: string, r: Region, j: nat)
    requires Found(s, r)
    ensures OccursAt(r.begin, r.end, j) ==> OccursAt(s, r.end, Start(s, r) + j) && j + |r.end| <= |r.begin|
  {
    hide IndexOf;
    var i := Start(s, r);
    if OccursAt(r.begin, r.end, j) {
      SliceOf(s, i, i + |r.begin|, i + j, |r.end|);
    }
  }

  lemma HeadEndsInBegin(s: string, r: Region, j: nat)
    requires Found(s, r)
    ensures OccursAt(HeadOf(s, r), r.end, j) ==> j >= Start(s, r) && OccursAt(r.begin, r.end, j - Start(s, r))
  {
    hide IndexOf;
    var i, head := Start(s, r), HeadOf(s, r);
    InHead(s, head, r.end, j);
    if OccursAt(head, r.end, j) {
      SliceOf(s, i, i + |r.begin|, j, |r.end|);
    }
  }

  lemma PlacedIsFound(s: string, r: Region)
    ensures Placed(s, r) ==> Found(s, r)
  {
  }

  // Where its own markers are afterwards.
  lemma OwnMarkers(s: string, r: Region)
    requires Markers(r) && Found(s, r)
    ensures Placed(s, r) ==> Free(r.begin, r.end)
    ensures var t, h := Applied(s, r), |HeadOf(s, r)|;
            && Start(t, r) == Start(s, r)
            && (if !Free(r.begin, r.end) then Stop(t, r) == Stop(s, r) < h
                else if Free(r.body, r.end) then Stop(t, r) == h + |r.body| + 2
                else h < Stop(t, r) <= h + |r.body|)
  {
    hide Build, IndexOf, Free;
    FoundInHead(s, HeadOf(s, r), r.body, TailOf(s, r), r.begin);
    EndInBegin(s, r);
    if !Free(r.begin, r.end) {
      FoundInHead(s, HeadOf(s, r), r.body, TailOf(s, r), r.end);
    } else if Free(r.body, r.end) {
      FoundBehind(HeadOf(s, r), r.body, TailOf(s, r), r.end);
    } else {
      FoundInBody(HeadOf(s, r), r.body, TailOf(s, r), r.end);
    }
  }

  lemma FoundBehind(head: string, body: string, tail: string, m: string)
    requires Marker(m) && Free(head, m) && Free(body, m) && OccursAt(tail, m, 0)
    ensures IndexOf(Build(head, body, tail), m) == |head| + |body| + 2
  {
    hide Build, IndexOf;
    var t, k := Build(head, body, tail), |head| + |body| + 2;
    SliceOf(t, k, |t|, k, |m|);
    forall j: nat
      ensures OccursAt(t, m, j) ==> j >= k
    {
      if OccursAt(t, m, j) {
        MarkerPlaces(head, body, tail, m, j);
      }
    }
    IndexIs(t, m, k);
  }

  lemma FoundInBody(head: string, body: string, tail: string, m: string)
    requires Marker(m) && Free(head, m) && !Free(body, m)
    ensures |head| < IndexOf(Build(head, body, tail), m) <= |head| + |body|
  {
    hide Build;
    var t := Build(head, body, tail);
    var i :| 0 <= i <= |body| && OccursAt(body, m, i);
    SliceOf(t, |head| + 1, |head| + |body| + 1, |head| + 1 + i, |m|);
    assert OccursAt(t, m, |head| + 1 + i);
    MarkerPlaces(head, body, tail, m, IndexOf(t, m));
  }

  // Generating again changes nothing exactly when neither the begin marker nor the body holds the
  // end marker; when one does, the text grows each time.
  lemma ApplyTwice(s: string, r: Region)
    requires Markers(r) && ApplyRegion(s, r).Some?
    ensures var t := ApplyRegion(s, r).value;
            && ApplyRegion(t, r).Some?
            && (ApplyRegion(t, r) == Some(t) <==> Free(r.begin, r.end) && Free(r.body, r.end))
            && (ApplyRegion(t, r) != Some(t) ==> |ApplyRegion(t, r).value| > |t|)
  {
    hide IndexOf, Markers, Free;
    var t := Applied(s, r);
    OwnMarkers(s, r);
    assert t[..Start(s, r) + |r.begin|] == HeadOf(s, r);
    if Free(r.begin, r.end) && Free(r.body, r.end) {
      assert t[Stop(t, r)..] == TailOf(s, r);
    }
  }

  // The last body wins: an earlier one leaves no trace.
  lemma LastBodyWins(s: string, r: Region, body: string)
    requires Markers(r) && Found(s, r) && Free(r.begin, r.end) && Free(r.body, r.end)
    ensures ApplyRegion(Applied(s, r), r.(body := body)) == ApplyRegion(s, r.(body := body))
  {
    hide IndexOf, Markers, Free;
    var t := Applied(s, r);
    OwnMarkers(s, r);
    assert t[..Start(s, r) + |r.begin|] == HeadOf(s, r);
    assert t[Stop(t, r)..] == TailOf(s, r);
  }

  // --- two regions of one text ---

  predicate Before(s: string, a: Region, b: Region) {
    Stop(s, a) + |a.end| <= Start(s, b)
  }

  predicate Apart(s: string, a: Region, b: Region) {
    Before(s, a, b) || Before(s, b, a)
  }

  // The body of `a` does not fake the markers of `b`.
  predicate Keeps(a: Region, b: Region) {
    Free(a.body, b.begin) && Free(a.body, b.end)
  }

  // How far `b` moves when `a` is applied.
  function Shift(s: string, a: Region, b: Region): int
    requires Placed(s, a)
  {
    if Before(s, a, b) then |Applied(s, a)| - |s| else 0
  }

  // The markers of another region are still its first ones; they move as one.
  lemma OtherMarkers(s: string, a: Region, b: Region)
    requires Markers(b) && Placed(s, a) && Placed(s, b) && Apart(s, a, b) && Keeps(a, b)
    ensures var t := Applied(s, a);
            && Start(t, b) == Start(s, b) + Shift(s, a, b)
            && Stop(t, b) == Stop(s, b) + Shift(s, a, b)
            && Placed(t, b)
  {
    hide IndexOf, Build, Free;
    if Before(s, a, b) {
      FoundInTail(s, HeadOf(s, a), a.body, Stop(s, a), b.begin);
      FoundInTail(s, HeadOf(s, a), a.body, Stop(s, a), b.end);
    } else {
      FoundInHead(s, HeadOf(s, a), a.body, TailOf(s, a), b.begin);
      FoundInHead(s, HeadOf(s, a), a.body, TailOf(s, a), b.end);
    }
  }

  // `a` and then `b`, where `a` comes first.
  function Both(s: string, a: Region, b: Region): string
    requires Placed(s, a) && Placed(s, b) && Before(s, a, b)
  {
    Build(HeadOf(s, a), a.body, Build(s[Stop(s, a)..Start(s, b) + |b.begin|], b.body, TailOf(s, b)))
  }

  lemma CutAtMarker(head: string, body: string, s: string, n: nat, m: nat)
    requires n <= m <= |s|
    ensures Build(head, body, s[n..])[..m - n + |head| + |body| + 2] == Build(head, body, s[n..m])
    ensures Build(head, body, s[n..])[m - n + |head| + |body| + 2..] == s[m..]
  {
    var t := Build(head, body, s[n..]);
    var front := head + ("\n" + body + "\n");
    assert t == front + s[n..];
    assert Build(head, body, s[n..m]) == front + s[n..m];
    assert s[n..] == s[n..m] + s[m..];
    assert t == (front + s[n..m]) + s[m..];
  }

  lemma BuildTwice(h: string, a: string, x: string, b: string, t: string)
    ensures Build(Build(h, a, x), b, t) == Build(h, a, Build(x, b, t))
  {
    var front, back := h + ("\n" + a + "\n"), "\n" + b + "\n" + t;
    assert Build(h, a, x) == front + x;
    assert Build(h, a, Build(x, b, t)) == front + (x + back);
  }

  // A region's result, from the text before its interior and the text behind it.
  lemma AppliedIs(t: string, r: Region, n: nat, m: nat)
    requires Start(t, r) >= 0 && n == Start(t, r) + |r.begin| && m == Stop(t, r) && n <= m
    ensures ApplyRegion(t, r) == Some(Build(t[..n], r.body, t[m..]))
  {
    hide Build, IndexOf;
    assert Applied(t, r) == Build(t[..n], r.body, t[m..]);
  }

  // Where the markers of `b` are, and what stands before and behind, after `a`.
  lemma SecondAfterFirst(s: string, a: Region, b: Region)
    requires Markers(b) && Placed(s, a) && Placed(s, b) && Before(s, a, b) && Keeps(a, b)
    ensures var t, k := Applied(s, a), |HeadOf(s, a)| + |a.body| + 2 - Stop(s, a);
            Start(t, b) == Start(s, b) + k && Stop(t, b) == Stop(s, b) + k
  {
    hide IndexOf, Build, Free, Keeps, Markers, ApplyRegion;
    OtherMarkers(s, a, b);
  }

  lemma FirstThenSecond(s: string, a: Region, b: Region)
    requires Markers(b) && Placed(s, a) && Placed(s, b) && Before(s, a, b) && Keeps(a, b)
    ensures ApplyRegion(Applied(s, a), b) == Some(Both(s, a, b))
  {
    hide IndexOf, Build, Free, Keeps, Markers, ApplyRegion;
    SecondAfterFirst(s, a, b);
    var h, n, m, e := HeadOf(s, a), Stop(s, a), Start(s, b) + |b.begin|, Stop(s, b);
    var k := |h| + |a.body| + 2 - n;
    CutAtMarker(h, a.body, s, n, m);
    CutAtMarker(h, a.body, s, n, e);
    BuildTwice(h, a.body, s[n..m], b.body, s[e..]);
    AppliedIs(Applied(s, a), b, m + k, e + k);
  }

  lemma CutInHead(s: string, body: string, tail: string, n: nat, m: nat)
    requires n <= m <= |s|
    ensures Build(s[..m], body, tail)[..n] == s[..n]
    ensures Build(s[..m], body, tail)[n..] == Build(s[n..m], body, tail)
  {
    var back := "\n" + body + "\n" + tail;
    assert Build(s[..m], body, tail) == s[..n] + (s[n..m] + back);
  }

  // Where the markers of `a` still are after `b`.
  lemma FirstAfterSecond(s: string, a: Region, b: Region)
    requires Markers(a) && Placed(s, a) && Placed(s, b) && Before(s, a, b) && Keeps(b, a)
    ensures var t := Applied(s, b); Start(t, a) == Start(s, a) && Stop(t, a) == Stop(s, a)
  {
    hide IndexOf, Build, Free, Keeps, Markers, ApplyRegion;
    NotBoth(s, a, b);
    OtherMarkers(s, b, a);
  }

  lemma SecondThenFirst(s: string, a: Region, b: Region)
    requires Markers(a) && Placed(s, a) && Placed(s, b) && Before(s, a, b) && Keeps(b, a)
    ensures ApplyRegion(Applied(s, b), a) == Some(Both(s, a, b))
  {
    hide IndexOf, Build, Free, Keeps, Markers, ApplyRegion;
    FirstAfterSecond(s, a, b);
    var n, e, m, tail := Start(s, a) + |a.begin|, Stop(s, a), Start(s, b) + |b.begin|, TailOf(s, b);
    CutInHead(s, b.body, tail, n, m);
    CutInHead(s, b.body, tail, e, m);
    AppliedIs(Applied(s, b), a, n, e);
  }

  lemma NotBoth(s: string, a: Region, b: Region)
    requires Markers(a) && Placed(s, a) && Placed(s, b) && Before(s, a, b)
    ensures !Before(s, b, a)
  {
  }

  // Two regions of one text can be generated in either order.
  lemma RegionsCommute(s: string, a: Region, b: Region)
    requires Markers(a) && Markers(b) && Placed(s, a) && Placed(s, b) && Apart(s, a, b) && Keeps(a, b) && Keeps(b, a)
    ensures ApplyRegion(Applied(s, a), b).Some?
    ensures ApplyRegion(Applied(s, a), b) == ApplyRegion(Applied(s, b), a)
  {
    hide IndexOf, Build, Free, Keeps, Markers, ApplyRegion, Both;
    if Before(s, a, b) {
      FirstThenSecond(s, a, b);
      SecondThenFirst(s, a, b);
    } else {
      FirstThenSecond(s, b, a);
      SecondThenFirst(s, b, a);
    }
  }

  lemma ApartFromApplied(s: string, a: Region, b: Region)
    requires Markers(a) && Markers(b) && Placed(s, a) && Placed(s, b) && Apart(s, a, b) && Keeps(a, b)
    requires Free(a.body, a.end)
    ensures Placed(Applied(s, a), a) && Apart(Applied(s, a), a, b)
  {
    hide IndexOf, Build, Free, Markers, ApplyRegion;
    OtherMarkers(s, a, b);
    OwnMarkers(s, a);
  }

  lemma ApartStays(s: string, a: Region, b: Region, c: Region)
    requires Markers(b) && Markers(c) && Placed(s, a) && Placed(s, b) && Placed(s, c)
    requires Apart(s, a, b) && Apart(s, a, c) && Apart(s, b, c) && Keeps(a, b) && Keeps(a, c)
    ensures Apart(Applied(s, a), b, c)
  {
    hide IndexOf, Build, Free, Markers, ApplyRegion, Keeps;
    OtherMarkers(s, a, b);
    OtherMarkers(s, a, c);
  }

  // --- all files ---

  predicate HasRegion(texts: map<string, string>, r: Region) {
    r.file in texts && Placed(texts[r.file], r)
  }

  // The regions' places: each in its file, and no two overlapping.
  predicate Layout(texts: map<string, string>, rs: seq<Region>) {
    && (forall i :: 0 <= i < |rs| ==> HasRegion(texts, rs[i]))
    && forall i, j :: 0 <= i < |rs| && 0 <= j < |rs| && i != j && rs[i].file == rs[j].file ==>
         Apart(texts[rs[i].file], rs[i], rs[j])
  }

  predicate OwnProper(r: Region) {
    Markers(r) && Free(r.body, r.end)
  }

  // Markers of one line, and bodies without them.
  predicate Proper(rs: seq<Region>) {
    && (forall i :: 0 <= i < |rs| ==> OwnProper(rs[i]))
    && forall i, j :: 0 <= i < |rs| && 0 <= j < |rs| && i != j && rs[i].file == rs[j].file ==> Keeps(rs[i], rs[j])
  }

  predicate UpToDate(texts: map<string, string>, r: Region) {
    r.file in texts && ApplyRegion(texts[r.file], r) == Some(texts[r.file])
  }

  function WithApplied(texts: map<string, string>, r: Region): map<string, string>
    requires HasRegion(texts, r)
  {
    texts[r.file := Applied(texts[r.file], r)]
  }

  lemma LayoutStays(texts: map<string, string>, rs: seq<Region>, k: nat)
    requires Proper(rs) && Layout(texts, rs) && k < |rs|
    ensures Layout(WithApplied(texts, rs[k]), rs)
  {
    hide Applied, Placed, Markers, Free, Apart, Keeps;
    var r := rs[k];
    assert HasRegion(texts, r) && OwnProper(r);
    var after := WithApplied(texts, r);
    var s := texts[r.file];
    forall i | 0 <= i < |rs|
      ensures HasRegion(after, rs[i])
      ensures rs[i].file == r.file && i != k ==> Apart(after[r.file], r, rs[i]) && Apart(after[r.file], rs[i], r)
    {
      assert HasRegion(texts, rs[i]) && OwnProper(rs[i]);
      if rs[i].file == r.file && i != k {
        assert Apart(s, r, rs[i]) && Keeps(r, rs[i]);
        OtherMarkers(s, r, rs[i]);
        ApartFromApplied(s, r, rs[i]);
        ApartSwaps(after[r.file], r, rs[i]);
      } else if i == k {
        StillPlaced(s, r);
      }
    }
    forall i, j | 0 <= i < |rs| && 0 <= j < |rs| && i != j && rs[i].file == rs[j].file
      ensures Apart(after[rs[i].file], rs[i], rs[j])
    {
      assert HasRegion(texts, rs[i]) && OwnProper(rs[i]) && HasRegion(texts, rs[j]) && OwnProper(rs[j]);
      assert Apart(texts[rs[i].file], rs[i], rs[j]);
      if rs[i].file == r.file && i != k && j != k {
        assert Apart(s, r, rs[i]) && Keeps(r, rs[i]) && Apart(s, r, rs[j]) && Keeps(r, rs[j]);
        ApartStays(s, r, rs[i], rs[j]);
      }
    }
  }

  lemma ApartSwaps(s: string, a: Region, b: Region)
    ensures Apart(s, a, b) <==> Apart(s, b, a)
  {
  }

  lemma StillPlaced(s: string, r: Region)
    requires Markers(r) && Placed(s, r) && Free(r.body, r.end)
    ensures Placed(Applied(s, r), r)
  {
    hide IndexOf, Build, Free, Markers;
    OwnMarkers(s, r);
  }

  // Generating one region makes it current, and leaves current what was.
  lemma UpToDateStays(texts: map<string, string>, rs: seq<Region>, k: nat, i: nat)
    requires Proper(rs) && Layout(texts, rs) && k < |rs| && i < |rs|
    requires i == k || UpToDate(texts, rs[i])
    ensures UpToDate(WithApplied(texts, rs[k]), rs[i])
  {
    hide Applied, Placed, Markers, Free, Apart, Keeps, ApplyRegion;
    var r := rs[k];
    assert HasRegion(texts, r) && OwnProper(r) && HasRegion(texts, rs[i]) && OwnProper(rs[i]);
    if i == k {
      PlacedIsFound(texts[r.file], r);
      OwnMarkers(texts[r.file], r);
      ApplyTwice(texts[r.file], r);
    } else if rs[i].file == r.file {
      assert Apart(texts[r.file], r, rs[i]) && Keeps(r, rs[i]) && Keeps(rs[i], r);
      RegionsCommute(texts[r.file], r, rs[i]);
    }
  }

  // --- main results ---

  lemma {:induction false} StepsMakeCurrent(disk: map<string, string>, rs: seq<Region>, k: nat, p: Progress)
    requires Proper(rs) && k <= |rs| && p.files.Keys <= disk.Keys && Layout(disk + p.files, rs)
    requires forall i :: 0 <= i < k ==> UpToDate(disk + p.files, rs[i])
    ensures var r := Steps(disk, rs[k..], p);
            && r.Ok? && r.value.files.Keys <= disk.Keys && Layout(disk + r.value.files, rs)
            && forall i :: 0 <= i < |rs| ==> UpToDate(disk + r.value.files, rs[i])
    decreases |rs| - k
  {
    hide Proper, Layout, UpToDate, Applied, ApplyRegion, Placed;
    if k < |rs| {
      var r := rs[k];
      var texts := disk + p.files;
      LayoutHas(texts, rs, k);
      StepApplies(disk, r, p);
      var p' := Step(disk, r, p).value;
      assert disk + p'.files == WithApplied(texts, r);
      LayoutStays(texts, rs, k);
      forall i | 0 <= i < k + 1
        ensures UpToDate(disk + p'.files, rs[i])
      {
        UpToDateStays(texts, rs, k, i);
      }
      StepsMakeCurrent(disk, rs, k + 1, p');
      assert rs[k..][1..] == rs[k + 1..];
    }
  }

  lemma StepApplies(disk: map<string, string>, r: Region, p: Progress)
    requires p.files.Keys <= disk.Keys && HasRegion(disk + p.files, r)
    ensures var r' := Step(disk, r, p);
            && r'.Ok? && r'.value.files.Keys <= disk.Keys
            && disk + r'.value.files == WithApplied(disk + p.files, r)
  {
    hide ApplyRegion, Placed;
    assert Current(disk, p.files, r.file) == (disk + p.files)[r.file];
    PlacedIsFound((disk + p.files)[r.file], r);
    assert ApplyRegion((disk + p.files)[r.file], r) == Some(Applied((disk + p.files)[r.file], r));
  }

  lemma LayoutHas(texts: map<string, string>, rs: seq<Region>, k: nat)
    requires Layout(texts, rs) && k < |rs|
    ensures HasRegion(texts, rs[k])
  {
  }

  // A step that finds its region current on disk.
  lemma {:induction false} CurrentStepsDoNothing(disk: map<string, string>, rs: seq<Region>, p: Progress)
    requires forall i :: 0 <= i < |rs| ==> UpToDate(disk, rs[i])
    requires disk + p.files == disk && p.files.Keys <= disk.Keys
    ensures var r := Steps(disk, rs, p);
            r.Ok? && r.value.stale == p.stale && disk + r.value.files == disk
    decreases |rs|
  {
    hide ApplyRegion;
    if rs != [] {
      assert UpToDate(disk, rs[0]);
      assert Current(disk, p.files, rs[0].file) == (disk + p.files)[rs[0].file];
      var p' := Step(disk, rs[0], p).value;
      assert disk + p'.files == (disk + p.files)[rs[0].file := disk[rs[0].file]];
      assert forall i :: 0 <= i < |rs| - 1 ==> rs[1..][i] == rs[i + 1];
      CurrentStepsDoNothing(disk, rs[1..], p');
    }
  }

  // Generating works on every file with its markers in place, and a check right after it finds
  // nothing stale; another generation would find all markers again and write the same texts.
  lemma GenerateThenCheck(disk: map<string, string>, rs: seq<Region>)
    requires Proper(rs) && Layout(disk, rs)
    ensures Sync(disk, rs).Ok?
    ensures var written := disk + Sync(disk, rs).value.files;
            && written.Keys == disk.Keys && Layout(written, rs)
            && Sync(written, rs).Ok? && Sync(written, rs).value.stale == []
            && written + Sync(written, rs).value.files == written
  {
    hide Proper, Layout, UpToDate, Steps;
    var none: map<string, string> := map[];
    assert disk + none == disk;
    StepsMakeCurrent(disk, rs, 0, Progress(map[], []));
    assert rs[0..] == rs;
    var written := disk + Sync(disk, rs).value.files;
    assert written + none == written;
    CurrentStepsDoNothing(written, rs, Progress(map[], []));
  }

  // --- which files are reported ---

  predicate CurrentIn(disk: map<string, string>, rs: seq<Region>, k: nat, file: string)
    requires k <= |rs|
  {
    forall i :: 0 <= i < k && rs[i].file == file ==> UpToDate(disk, rs[i])
  }

  // After `k` regions: what is reported, and what has changed.
  predicate Reported(disk: map<string, string>, rs: seq<Region>, k: nat, p: Progress)
    requires k <= |rs|
  {
    && p.files.Keys <= disk.Keys
    && (forall f :: f in p.files && p.files[f] != disk[f] ==> f in p.stale)
    && (forall f :: f in p.stale ==> f in p.files && !CurrentIn(disk, rs, k, f))
    && (forall f :: f in p.files && CurrentIn(disk, rs, k, f) ==> p.files[f] == disk[f])
  }

  lemma ReportedStep(disk: map<string, string>, rs: seq<Region>, k: nat, p: Progress)
    requires k < |rs| && Reported(disk, rs, k, p) && Step(disk, rs[k], p).Ok?
    ensures Reported(disk, rs, k + 1, Step(disk, rs[k], p).value)
  {
    hide ApplyRegion, UpToDate;
    var p' := Step(disk, rs[k], p).value;
    var r := rs[k];
    forall f | f in p'.files
      ensures CurrentIn(disk, rs, k + 1, f) ==> CurrentIn(disk, rs, k, f)
      ensures CurrentIn(disk, rs, k + 1, f) ==> p'.files[f] == disk[f]
    {
      if CurrentIn(disk, rs, k + 1, f) && f == r.file {
        assert UpToDate(disk, rs[k]);
        UpToDateMeans(disk, r);
        assert Current(disk, p.files, f) == disk[f];
      }
    }
    forall f | f in p'.stale
      ensures f in p'.files && !CurrentIn(disk, rs, k + 1, f)
    {
      if f !in p.stale {
        assert f == r.file && p'.files[f] != disk[f];
      }
    }
  }

  lemma UpToDateMeans(disk: map<string, string>, r: Region)
    requires UpToDate(disk, r)
    ensures r.file in disk && ApplyRegion(disk[r.file], r) == Some(disk[r.file])
  {
  }

  lemma {:induction false} ReportedSteps(disk: map<string, string>, rs: seq<Region>, k: nat, p: Progress)
    requires k <= |rs| && Reported(disk, rs, k, p) && Steps(disk, rs[k..], p).Ok?
    ensures Reported(disk, rs, |rs|, Steps(disk, rs[k..], p).value)
    decreases |rs| - k
  {
    hide Step, Reported;
    if k < |rs| {
      assert rs[k..][1..] == rs[k + 1..];
      ReportedStep(disk, rs, k, p);
      ReportedSteps(disk, rs, k + 1, Step(disk, rs[k], p).value);
    }
  }

  // The check reports exactly the files that generating would change.
  lemma StaleIsExact(disk: map<string, string>, rs: seq<Region>, f: string)
    requires Proper(rs) && Layout(disk, rs)
    ensures var r := Sync(disk, rs);
            && r.Ok? && r.value.files.Keys <= disk.Keys
            && (f in r.value.stale <==> f in r.value.files && r.value.files[f] != disk[f])
  {
    hide Proper, Layout, UpToDate, Steps;
    var none: map<string, string> := map[];
    assert disk + none == disk && rs[0..] == rs;
    StepsMakeCurrent(disk, rs, 0, Progress(map[], []));
    ReportedSteps(disk, rs, 0, Progress(map[], []));
    var p := Sync(disk, rs).value;
    if f in p.stale {
      assert f in p.files;
      var i :| 0 <= i < |rs| && rs[i].file == f && !UpToDate(disk, rs[i]);
      assert UpToDate(disk + p.files, rs[i]);
      SameText(disk, disk + p.files, rs[i]);
    }
  }

  lemma SameText(a: map<string, string>, b: map<string, string>, r: Region)
    requires r.file in a && UpToDate(b, r) && !UpToDate(a, r)
    ensures a[r.file] != b[r.file]
  {
  }
}
