/** Generated regions: `applyRegion`, the decision-code regions, and `syncClientCodes` over a set of files. */
module Regions {
  import opened Prelude
  import opened Text

  datatype Region = Region(file: string, begin: string, end: string, body: string)

  // --- one region of one text ---

  function ApplyRegion(source: string, region: Region): Option<string> {
    var start, stop := IndexOf(source, region.begin), IndexOf(source, region.end);
    if start < 0 || stop < start then None
    else
      var head := source[..start + |region.begin|];
      Some(head + ("\n" + region.body + "\n" + source[stop..]))
  }

  // --- the regions of the client libraries ---

  function Upper(c: char): char {
    if 'a' <= c <= 'z' then c - 32 as char else c
  }

  function GoPart(part: string): string {
    if part == "ip" then "IP"
    else if part == "" then ""
    else [Upper(part[0])] + part[1..]
  }

  function GoParts(parts: seq<string>): string {
    if parts == [] then "" else GoPart(parts[0]) + GoParts(parts[1..])
  }

  function GoName(code: string): string {
    GoParts(Split(code, '_'))
  }

  function PadEnd(s: string, width: int): string {
    s + Repeat(' ', if width > |s| then width - |s| else 0)
  }

  function LongestName(codes: seq<string>): nat {
    if codes == [] then 0
    else
      var n, rest := |GoName(codes[0])|, LongestName(codes[1..]);
      if n > rest then n else rest
  }

  function QuotedLines(codes: seq<string>): seq<string> {
    if codes == [] then [] else ["    \"" + codes[0] + "\","] + QuotedLines(codes[1..])
  }

  function ConstLines(codes: seq<string>, width: int): seq<string> {
    if codes == [] then []
    else ["\t" + PadEnd("Decision" + GoName(codes[0]), width) + " DecisionCode = \"" + codes[0] + "\""]
         + ConstLines(codes[1..], width)
  }

  const PYTHON_CODES := "sdks/python/theauth/codes.py"
  const LITERAL_BEGIN := "    # BEGIN GENERATED decision-codes literal"
  const LITERAL_END := "    # END GENERATED decision-codes literal"
  const TUPLE_BEGIN := "    # BEGIN GENERATED decision-codes tuple"
  const TUPLE_END := "    # END GENERATED decision-codes tuple"

  const GO_CODES := "sdks/go/decision.go"
  const GO_BEGIN := "\t// BEGIN GENERATED decision-codes"
  const GO_END := "\t// END GENERATED decision-codes"

  function ClientRegions(codes: seq<string>): (rs: seq<Region>)
    ensures |rs| == 3
  {
    var quoted := JoinWith(QuotedLines(codes), "\n");
    var consts := JoinWith(ConstLines(codes, LongestName(codes) + |"Decision"|), "\n");
    [Region(PYTHON_CODES, LITERAL_BEGIN, LITERAL_END, quoted),
     Region(PYTHON_CODES, TUPLE_BEGIN, TUPLE_END, quoted),
     Region(GO_CODES, GO_BEGIN, GO_END, consts)]
  }

  // --- all regions of all files ---

  datatype SyncError = MissingFile(file: string) | MissingMarkers(file: string)

  datatype Progress = Progress(files: map<string, string>, stale: seq<string>)

  function Current(disk: map<string, string>, files: map<string, string>, file: string): string
    requires file in disk
  {
    if file in files then files[file] else disk[file]
  }

  function Step(disk: map<string, string>, r: Region, p: Progress): Result<Progress, SyncError> {
    if r.file !in disk then Err(MissingFile(r.file))
    else
      var after := ApplyRegion(Current(disk, p.files, r.file), r);
      if after.None? then Err(MissingMarkers(r.file))
      else
        var stale := if after.value != disk[r.file] && r.file !in p.stale then p.stale + [r.file] else p.stale;
        Ok(Progress(p.files[r.file := after.value], stale))
  }

  function Steps(disk: map<string, string>, rs: seq<Region>, p: Progress): Result<Progress, SyncError>
    decreases |rs|
  {
    if rs == [] then Ok(p)
    else
      var r := Step(disk, rs[0], p);
      if r.Ok? then Steps(disk, rs[1..], r.value) else r
  }

  function Sync(disk: map<string, string>, rs: seq<Region>): Result<Progress, SyncError> {
    Steps(disk, rs, Progress(map[], []))
  }

  class Workspace {
    var disk: map<string, string>

    constructor (disk: map<string, string>)
      ensures this.disk == disk
    {
      this.disk := disk;
    }

    // All regions are computed before the first file is written.
    method SyncClientCodes(regions: seq<Region>, write: bool) returns (r: Result<seq<string>, SyncError>)
      modifies this
      ensures var s := Sync(old(disk), regions);
              if s.Err? then r == Err(s.error) && disk == old(disk)
              else r == Ok(s.value.stale) && disk == if write then old(disk) + s.value.files else old(disk)
    {
      var stale: seq<string> := [];
      var files: map<string, string> := map[];
      assert regions[0..] == regions;
      for i := 0 to |regions|
        invariant disk == old(disk)
        invariant Steps(disk, regions[i..], Progress(files, stale)) == Sync(disk, regions)
      {
        assert regions[i..][1..] == regions[i + 1..];
        var region := regions[i];
        if region.file !in disk {
          return Err(MissingFile(region.file));
        }
        var before := if region.file in files then files[region.file] else disk[region.file];
        var after := ApplyRegion(before, region);
        if after.None? {
          return Err(MissingMarkers(region.file));
        }
        files := files[region.file := after.value];
        if after.value != disk[region.file] && region.file !in stale {
          stale := stale + [region.file];
        }
      }
      if write {
        disk := disk + files;
      }
      return Ok(stale);
    }
  }
}
