/** What the client regions hold, and when generating fails. */
module Bodies {
  import opened Prelude
  import opened Text
  import opened Regions

  // --- the Go name of a code ---

  // A code is named part by part: `a_b` is named by the names of `a` and of `b`.
  lemma GoNameOfParts(part: string, rest: string)
    requires '_' !in part
    ensures GoName(part + ("_" + rest)) == GoName(part) + GoName(rest)
  {
    hide GoPart;
    SplitOfTwo(part, '_', rest);
    SplitOfPlain(part, '_');
    var parts := [part] + Split(rest, '_');
    assert parts[1..] == Split(rest, '_');
    assert GoParts([part]) == GoPart(part);
  }

  // `ip` is an acronym; any other part gets a capital.
  lemma GoNameOfPart(part: string)
    requires '_' !in part
    ensures part == "ip" ==> GoName(part) == "IP"
    ensures part == "" ==> GoName(part) == ""
    ensures part != "ip" && part != "" ==>
              var letters, capitals := "abcdefghijklmnopqrstuvwxyz", "ABCDEFGHIJKLMNOPQRSTUVWXYZ";
              && |GoName(part)| == |part| && GoName(part)[1..] == part[1..]
              && (forall k :: 0 <= k < 26 && part[0] == letters[k] ==> GoName(part)[0] == capitals[k])
              && (part[0] !in letters ==> GoName(part)[0] == part[0])
  {
    SplitOfPlain(part, '_');
    assert GoParts([part]) == GoPart(part) + GoParts([]);
    LettersInOrder();
  }

  // --- the bodies ---

  predicate OneLine(code: string) {
    '\n' !in code
  }

  predicate PythonLine(line: string, code: string) {
    line == "    \"" + code + "\","
  }

  // The constant of a code, its name filled up to `width`.
  predicate GoLine(line: string, code: string, width: nat) {
    && |GoName(code)| <= width
    && line == "\tDecision" + GoName(code) + Repeat(' ', width - |GoName(code)|) + " DecisionCode = \"" + code + "\""
  }

  // Both Python bodies list every code on its line; the Go body declares its constant, the names
  // aligned on the longest.
  lemma ClientBodies(codes: seq<string>) returns (width: nat)
    requires codes != [] && forall i :: 0 <= i < |codes| ==> OneLine(codes[i])
    ensures var rs := ClientRegions(codes);
            var python, go := Split(rs[0].body, '\n'), Split(rs[2].body, '\n');
            && rs[1].body == rs[0].body
            && |python| == |codes| == |go|
            && (forall i :: 0 <= i < |codes| ==> PythonLine(python[i], codes[i]) && GoLine(go[i], codes[i], width))
    ensures exists i :: 0 <= i < |codes| && |GoName(codes[i])| == width
  {
    hide GoName, Split, JoinWith, Repeat, OneLine, GoLine, PythonLine;
    width := LongestName(codes);
    LongestIsLongest(codes);
    PythonLines(codes);
    GoLines(codes, width);
    SplitOfJoin(QuotedLines(codes), '\n');
    SplitOfJoin(ConstLines(codes, width + 8), '\n');
    assert |"Decision"| == 8;
  }

  lemma NoBodies()
    ensures var rs := ClientRegions([]); rs[0].body == "" && rs[1].body == "" && rs[2].body == ""
  {
  }

  lemma {:induction false} LongestIsLongest(codes: seq<string>)
    ensures forall i :: 0 <= i < |codes| ==> |GoName(codes[i])| <= LongestName(codes)
    ensures codes != [] ==> exists i :: 0 <= i < |codes| && |GoName(codes[i])| == LongestName(codes)
  {
    hide GoName;
    if codes != [] {
      var rest := codes[1..];
      LongestIsLongest(rest);
      assert forall i :: 1 <= i < |codes| ==> codes[i] == rest[i - 1];
      if |GoName(codes[0])| < LongestName(codes) {
        assert rest != [] by { assert LongestName([]) == 0; }
        var i :| 0 <= i < |rest| && |GoName(rest[i])| == LongestName(rest);
        assert codes[i + 1] == rest[i];
      } else {
        assert |GoName(codes[0])| == LongestName(codes);
      }
    }
  }

  lemma {:induction false} PythonLines(codes: seq<string>)
    requires forall i :: 0 <= i < |codes| ==> OneLine(codes[i])
    ensures var lines := QuotedLines(codes);
            && |lines| == |codes|
            && forall i :: 0 <= i < |codes| ==> PythonLine(lines[i], codes[i]) && '\n' !in lines[i]
  {
    if codes != [] {
      assert OneLine(codes[0]);
      PythonLines(codes[1..]);
    }
  }

  lemma {:induction false} GoLines(codes: seq<string>, width: nat)
    requires forall i :: 0 <= i < |codes| ==> OneLine(codes[i]) && |GoName(codes[i])| <= width
    ensures var lines := ConstLines(codes, width + 8);
            && |lines| == |codes|
            && forall i :: 0 <= i < |codes| ==> GoLine(lines[i], codes[i], width) && '\n' !in lines[i]
  {
    hide GoName, OneLine, GoLine, PadEnd;
    if codes != [] {
      OneGoLine(codes[0], width);
      GoLines(codes[1..], width);
    }
  }

  lemma OneGoLine(code: string, width: nat)
    requires OneLine(code) && |GoName(code)| <= width
    ensures var line := "\t" + PadEnd("Decision" + GoName(code), width + 8) + " DecisionCode = \"" + code + "\"";
            GoLine(line, code, width) && '\n' !in line
  {
    hide GoName, Repeat;
    var name := GoName(code);
    var fill := Repeat(' ', width - |name|);
    RepeatIs(' ', width - |name|);
    GoNameOneLine(code);
    Filled("Decision", name, width);
    assert "\t" + ("Decision" + name + fill) == "\tDecision" + name + fill;
    LineOfPieces("\tDecision", name, fill, " DecisionCode = \"", code);
  }

  lemma Filled(word: string, name: string, width: nat)
    requires |name| <= width
    ensures PadEnd(word + name, width + |word|) == word + name + Repeat(' ', width - |name|)
  {
    hide Repeat;
    assert Repeat(' ', 0) == "" by { RepeatIs(' ', 0); }
  }

  lemma LineOfPieces(a: string, b: string, c: string, d: string, e: string)
    requires OneLine(a) && OneLine(b) && (forall i :: 0 <= i < |c| ==> c[i] == ' ') && OneLine(d) && OneLine(e)
    ensures OneLine(a + b + c + d + e + "\"")
  {
  }

  lemma GoNameOneLine(code: string)
    requires OneLine(code)
    ensures '\n' !in GoName(code)
  {
    SplitLacks(code, '_', '\n');
    PartsOneLine(Split(code, '_'));
  }

  lemma {:induction false} PartsOneLine(parts: seq<string>)
    requires forall i :: 0 <= i < |parts| ==> OneLine(parts[i])
    ensures '\n' !in GoParts(parts)
  {
    if parts != [] {
      assert OneLine(parts[0]);
      PartsOneLine(parts[1..]);
    }
  }

  // --- failing ---

  predicate FirstAt(s: string, m: string, i: nat) {
    OccursAt(s, m, i) && forall j :: 0 <= j < i ==> !OccursAt(s, m, j)
  }

  // A region applies if and only if both markers occur, the first end marker not before the first
  // begin marker; the body then stands between them.
  lemma RegionApplies(source: string, r: Region)
    ensures ApplyRegion(source, r).Some? <==> exists i: nat, j: nat :: FirstAt(source, r.begin, i) && FirstAt(source, r.end, j) && i <= j
    ensures forall i: nat, j: nat :: FirstAt(source, r.begin, i) && FirstAt(source, r.end, j) && i <= j ==>
              ApplyRegion(source, r) == Some(source[..i] + r.begin + "\n" + r.body + "\n" + source[j..])
  {
    hide OccursAt;
    var start, stop := IndexOf(source, r.begin), IndexOf(source, r.end);
    if start >= 0 && stop >= start {
      assert FirstAt(source, r.begin, start) && FirstAt(source, r.end, stop);
    }
    forall i: nat, j: nat | FirstAt(source, r.begin, i) && FirstAt(source, r.end, j) && i <= j
      ensures ApplyRegion(source, r) == Some(source[..i] + r.begin + "\n" + r.body + "\n" + source[j..])
    {
      assert start == i && stop == j;
      HeadEnds(source, r.begin, i);
      var head := source[..i] + r.begin;
      assert head + ("\n" + r.body + "\n" + source[j..]) == head + "\n" + r.body + "\n" + source[j..];
    }
  }

  lemma HeadEnds(s: string, m: string, i: nat)
    requires OccursAt(s, m, i)
    ensures s[..i + |m|] == s[..i] + m
  {
  }

  // Does region `r` fail on what the regions before it have made of the files, and how?
  predicate FailsWith(disk: map<string, string>, files: map<string, string>, r: Region, error: SyncError) {
    if r.file !in disk then error == MissingFile(r.file)
    else
      && error == MissingMarkers(r.file)
      && ApplyRegion(if r.file in files then files[r.file] else disk[r.file], r).None?
  }

  // Generating fails if and only if some region does, and with the error of the first that does.
  lemma FirstFailureWins(disk: map<string, string>, rs: seq<Region>, k: nat, error: SyncError)
    requires k < |rs| && Sync(disk, rs[..k]).Ok? && FailsWith(disk, Sync(disk, rs[..k]).value.files, rs[k], error)
    ensures Sync(disk, rs) == Err(error)
  {
    hide ApplyRegion;
    assert rs == rs[..k] + ([rs[k]] + rs[k + 1..]);
    StepsOfMore(disk, rs[..k], [rs[k]] + rs[k + 1..], Progress(map[], []));
  }

  lemma {:induction false} StepsOfMore(disk: map<string, string>, a: seq<Region>, b: seq<Region>, p: Progress)
    ensures Steps(disk, a + b, p) ==
            if Steps(disk, a, p).Ok? then Steps(disk, b, Steps(disk, a, p).value) else Steps(disk, a, p)
    decreases |a|
  {
    hide Step;
    if a == [] {
      assert a + b == b;
    } else {
      assert (a + b)[1..] == a[1..] + b;
      if Step(disk, a[0], p).Ok? {
        StepsOfMore(disk, a[1..], b, Step(disk, a[0], p).value);
      }
    }
  }

  lemma {:induction false} SomeRegionFails(disk: map<string, string>, rs: seq<Region>) returns (k: nat)
    requires Sync(disk, rs).Err?
    ensures k < |rs| && Sync(disk, rs[..k]).Ok?
    ensures FailsWith(disk, Sync(disk, rs[..k]).value.files, rs[k], Sync(disk, rs).error)
    decreases |rs|
  {
    hide ApplyRegion;
    var n := |rs| - 1;
    assert rs == rs[..n] + [rs[n]];
    StepsOfMore(disk, rs[..n], [rs[n]], Progress(map[], []));
    if Sync(disk, rs[..n]).Err? {
      k := SomeRegionFails(disk, rs[..n]);
      assert rs[..n][..k] == rs[..k];
    } else {
      k := n;
    }
  }
}
