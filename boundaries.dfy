/**
  The walk over the marker comments (lib/analyze-bundle.js, lines 55-126):
  every marker opens a module, the next marker closes it, and the gap
  between the end of one marker and the start of the next is the size of
  the module it opened; the last module ends at the webpack terminator
  `}]))`. When asked to, the walk also keeps the code between markers,
  trimmed, as the rewritten bundle.

  `AnalyzeSpec` states the outcome in closed form; `Analyze` is the loop
  that builds it step by step, as the `forEach` does.
*/
module Boundaries {
  import opened Wrappers
  import opened JsString
  import opened Markers
  import opened Manifest
  import opened Reports

  /** The two ways the analysis stops before writing anything. */
  datatype Error =
    | NoMarkersFound                 // no marker comment at all; the program exits with status 1
    | UnknownModuleId(value: string) // no manifest module renders as this marker; reading its identifier throws

  /** What the analysis writes: the records, the rewritten bundle when asked for, and the TSV report. */
  datatype Analysis = Analysis(reports: seq<ModuleReport>, rewritten: Option<string>, tsv: string)

  /** `current`: the module opened by the last marker seen, whose size is not known yet. */
  datatype OpenModule = OpenModule(id: nat, name: string, end: nat, iden: string)

  /** The text webpack writes after the last module of the bundle. */
  const Terminator := "}]))"

  /**
    `findLastEndIndex`: the first `}]))` after the last marker, or the end
    of the code when there is none or it starts right where the marker ends.
  */
  function FinalEnd(code: string, end: nat): (r: nat)
    ensures r == |code| || end < r <= |code| - |Terminator|
  {
    var x := IndexOf(code, Terminator, end);
    if x <= end then |code| else x
  }

  /**
    `FinalEnd` is the first terminator strictly after `end` when there is
    one and none starts at `end` itself; otherwise it is the end of the code.
  */
  lemma FinalEndSpec(code: string, end: nat)
    ensures var r := FinalEnd(code, end);
      r != |code| ==> OccursAt(code, Terminator, r) && forall j :: end <= j < r ==> !OccursAt(code, Terminator, j)
    ensures FinalEnd(code, end) == |code| <==>
      (OccursAt(code, Terminator, end) || forall j :: end <= j ==> !OccursAt(code, Terminator, j))
  {
    IndexOfSpec(code, Terminator, end);
  }

  predicate Resolves(manifest: seq<ManifestModule>, c: Comment)
  {
    FindModule(manifest, c.value).Some?
  }

  /** `m`: the manifest module a marker names. */
  function ModuleOf(manifest: seq<ManifestModule>, c: Comment): ManifestModule
    requires Resolves(manifest, c)
  {
    manifest[FindModule(manifest, c.value).value]
  }

  /** The module a marker names is in the manifest, and its id renders as the marker text. */
  lemma ModuleOfSpec(manifest: seq<ManifestModule>, c: Comment)
    requires Resolves(manifest, c)
    ensures ModuleOf(manifest, c) in manifest && IdComment(ModuleOf(manifest, c).id) == c.value
  {
    FindModuleSpec(manifest, c.value);
  }

  /** The position of the first marker no manifest module renders as. */
  function FirstUnresolved(manifest: seq<ManifestModule>, ms: seq<Comment>): (r: Option<nat>)
    ensures r.None? <==> forall i :: 0 <= i < |ms| ==> Resolves(manifest, ms[i])
    ensures r.Some? ==> r.value < |ms| && !Resolves(manifest, ms[r.value])
    ensures r.Some? ==> forall i :: 0 <= i < r.value ==> Resolves(manifest, ms[i])
  {
    if ms == [] then None
    else if !Resolves(manifest, ms[0]) then Some(0)
    else match FirstUnresolved(manifest, ms[1..])
      case None => None
      case Some(k) => Some(k + 1)
  }

  /**
    The size recorded for the module marker `i` opens: up to the next
    marker's start, or for the last one up to and including the byte at
    `FinalEnd`.
  */
  function SizeAt(code: string, ms: seq<Comment>, i: nat): int
    requires i < |ms|
  {
    if i + 1 < |ms| then ms[i + 1].start - ms[i].end
    else FinalEnd(code, ms[i].end) - ms[i].end + 1
  }

  /** `current` after marker `k`. */
  function OpenAt(manifest: seq<ManifestModule>, cwd: string, ms: seq<Comment>, k: nat): OpenModule
    requires k < |ms| && Resolves(manifest, ms[k])
  {
    var m := ModuleOf(manifest, ms[k]);
    OpenModule(m.id, m.name, ms[k].end, Normalize(m.identifier, cwd))
  }

  /** The record pushed for marker `i`. */
  function ReportAt(code: string, manifest: seq<ManifestModule>, cwd: string, ms: seq<Comment>, i: nat): ModuleReport
    requires i < |ms| && Resolves(manifest, ms[i])
  {
    var m := ModuleOf(manifest, ms[i]);
    ModuleReport(m.id, m.name, Normalize(m.identifier, cwd), SizeAt(code, ms, i))
  }

  /** The first `k` markers all name a manifest module. */
  predicate ResolvedUpTo(manifest: seq<ManifestModule>, ms: seq<Comment>, k: nat)
    requires k <= |ms|
  {
    k == 0 || (ResolvedUpTo(manifest, ms, k - 1) && Resolves(manifest, ms[k - 1]))
  }

  /** The records for the first `k` markers, in marker order. */
  function ReportsUpTo(code: string, manifest: seq<ManifestModule>, cwd: string, ms: seq<Comment>, k: nat): (rs: seq<ModuleReport>)
    requires k <= |ms| && ResolvedUpTo(manifest, ms, k)
    ensures |rs| == k
  {
    if k == 0 then [] else ReportsUpTo(code, manifest, cwd, ms, k - 1) + [ReportAt(code, manifest, cwd, ms, k - 1)]
  }

  /** `mods` at the end: one record per marker, in marker order. */
  function ModuleReports(code: string, manifest: seq<ManifestModule>, cwd: string, ms: seq<Comment>): (rs: seq<ModuleReport>)
    requires ResolvedUpTo(manifest, ms, |ms|)
  {
    ReportsUpTo(code, manifest, cwd, ms, |ms|)
  }

  /** Where the code before marker `i` starts: the end of the previous marker, or 0. */
  function GapStart(ms: seq<Comment>, i: nat): nat
    requires i <= |ms|
  {
    if i == 0 then 0 else ms[i - 1].end
  }

  /** Where the code before marker `i` ends: its start, or the end of the code after the last marker. */
  function GapEnd(code: string, ms: seq<Comment>, i: nat): nat
    requires i <= |ms|
  {
    if i < |ms| then ms[i].start else |code|
  }

  /** `code.substring(start, end)` passed to `saveCode`. */
  function Gap(code: string, ms: seq<Comment>, i: nat): string
    requires i <= |ms|
  {
    Substring(code, GapStart(ms, i), GapEnd(code, ms, i))
  }

  /** The first `k` gaps, trimmed. */
  function PiecesUpTo(code: string, ms: seq<Comment>, k: nat): (ps: seq<string>)
    requires k <= |ms| + 1
    ensures |ps| == k
  {
    if k == 0 then [] else PiecesUpTo(code, ms, k - 1) + [Trim(Gap(code, ms, k - 1))]
  }

  /** `updatedCode` at the end: every gap, trimmed. */
  function Pieces(code: string, ms: seq<Comment>): (ps: seq<string>)
  {
    PiecesUpTo(code, ms, |ms| + 1)
  }

  /** What lines 60-131 compute for the markers `ms`, in the order they were found. */
  function WalkSpec(code: string, ms: seq<Comment>, manifest: seq<ManifestModule>, cwd: string, rewrite: bool)
    : Result<Analysis, Error>
  {
    match FirstUnresolved(manifest, ms)
    case Some(k) => Err(UnknownModuleId(ms[k].value))
    case None =>
      ResolvedUpToAll(manifest, ms, |ms|);
      var rs := ModuleReports(code, manifest, cwd, ms);
      Ok(Analysis(rs, if rewrite then Some(Join(Pieces(code, ms))) else None, Tsv(rs)))
  }

  /** What lines 48-131 compute, from the parsed comments, the manifest and the working directory. */
  function AnalyzeSpec(code: string, comments: seq<Comment>, manifest: seq<ManifestModule>, cwd: string,
                       rewrite: bool): Result<Analysis, Error>
  {
    var ms := MarkerComments(code, comments);
    if |ms| == 0 then Err(NoMarkersFound) else WalkSpec(code, ms, manifest, cwd, rewrite)
  }

  lemma {:induction false} ResolvedUpToAll(manifest: seq<ManifestModule>, ms: seq<Comment>, k: nat)
    requires k <= |ms|
    ensures ResolvedUpTo(manifest, ms, k) <==> forall j :: 0 <= j < k ==> Resolves(manifest, ms[j])
  {
    if k > 0 {
      ResolvedUpToAll(manifest, ms, k - 1);
    }
  }

  /** The walk stops at marker `i` when every earlier marker resolved and this one does not. */
  lemma StopsAt(manifest: seq<ManifestModule>, ms: seq<Comment>, i: nat)
    requires i < |ms| && ResolvedUpTo(manifest, ms, i) && !Resolves(manifest, ms[i])
    ensures FirstUnresolved(manifest, ms) == Some(i)
  {
    ResolvedUpToAll(manifest, ms, i);
  }

  /** The walk completes when every marker resolves. */
  lemma Completes(manifest: seq<ManifestModule>, ms: seq<Comment>)
    requires ResolvedUpTo(manifest, ms, |ms|)
    ensures FirstUnresolved(manifest, ms) == None
  {
    ResolvedUpToAll(manifest, ms, |ms|);
  }

  /** The record for a marker is the module it opened, sized up to the next marker or to `FinalEnd`. */
  lemma ReportOfOpen(code: string, manifest: seq<ManifestModule>, cwd: string, ms: seq<Comment>, i: nat, size: int)
    requires i < |ms| && Resolves(manifest, ms[i])
    requires size == if i + 1 < |ms| then ms[i + 1].start - ms[i].end else FinalEnd(code, ms[i].end) - ms[i].end + 1
    ensures var o := OpenAt(manifest, cwd, ms, i);
      ReportAt(code, manifest, cwd, ms, i) == ModuleReport(o.id, o.name, o.iden, size)
  {
  }

  /** The next piece of the rewritten bundle is the trimmed code before marker `i`, or after the last marker. */
  lemma PieceStep(code: string, ms: seq<Comment>, i: nat, from: nat, to: nat)
    requires i <= |ms| && from == GapStart(ms, i) && to == GapEnd(code, ms, i)
    ensures PiecesUpTo(code, ms, i + 1) == PiecesUpTo(code, ms, i) + [Trim(Substring(code, from, to))]
  {
  }

  /** The program from the marker filter to the reports. */
  method Analyze(code: string, comments: seq<Comment>, manifest: seq<ManifestModule>, cwd: string, rewrite: bool)
    returns (res: Result<Analysis, Error>)
    ensures res == AnalyzeSpec(code, comments, manifest, cwd, rewrite)
  {
    var ms := MarkerComments(code, comments);
    if |ms| <= 0 {
      return Err(NoMarkersFound);
    }
    res := Walk(code, ms, manifest, cwd, rewrite);
  }

  /** The `forEach` over the markers with `current`, `codeIndex`, `mods` and `updatedCode`, and what follows it. */
  method Walk(code: string, ms: seq<Comment>, manifest: seq<ManifestModule>, cwd: string, rewrite: bool)
    returns (res: Result<Analysis, Error>)
    requires ms != []
    ensures res == WalkSpec(code, ms, manifest, cwd, rewrite)
  {
    var mods: seq<ModuleReport> := [];
    var current: Option<OpenModule> := None;
    var codeIndex: nat := 0;
    var updatedCode: seq<string> := [];
    var i := 0;
    while i < |ms|
      invariant 0 <= i <= |ms| && ResolvedUpTo(manifest, ms, i)
      invariant codeIndex == GapStart(ms, i)
      invariant i == 0 ==> current.None? && mods == []
      invariant i > 0 ==> current == Some(OpenAt(manifest, cwd, ms, i - 1))
      invariant i > 0 ==> mods == ReportsUpTo(code, manifest, cwd, ms, i - 1)
      invariant updatedCode == if rewrite then PiecesUpTo(code, ms, i) else []
    {
      var c := ms[i];
      var found := FindModule(manifest, c.value);
      if found.None? {
        StopsAt(manifest, ms, i);
        return Err(UnknownModuleId(c.value));
      }
      assert ResolvedUpTo(manifest, ms, i + 1);
      var m := ModuleOf(manifest, c);
      var iden := Normalize(m.identifier, cwd);
      if current.Some? {
        var size := c.start - current.value.end;
        ReportOfOpen(code, manifest, cwd, ms, i - 1, size);
        mods := mods + [ModuleReport(current.value.id, current.value.name, current.value.iden, size)];
      }
      if rewrite {
        PieceStep(code, ms, i, codeIndex, c.start);
        updatedCode := updatedCode + [Trim(Substring(code, codeIndex, c.start))];
      }
      codeIndex := c.end;
      current := Some(OpenModule(m.id, m.name, c.end, iden));
      i := i + 1;
    }
    res := Finish(code, ms, manifest, cwd, rewrite, current.value, mods, updatedCode);
  }

  /**
    What follows the `forEach`: the last module is closed at `FinalEnd`,
    the code after the last marker is kept, and the outputs are assembled.
  */
  method Finish(code: string, ms: seq<Comment>, manifest: seq<ManifestModule>, cwd: string, rewrite: bool,
                last: OpenModule, mods: seq<ModuleReport>, updatedCode: seq<string>)
    returns (res: Result<Analysis, Error>)
    requires ms != [] && ResolvedUpTo(manifest, ms, |ms|)
    requires last == OpenAt(manifest, cwd, ms, |ms| - 1)
    requires mods == ReportsUpTo(code, manifest, cwd, ms, |ms| - 1)
    requires updatedCode == if rewrite then PiecesUpTo(code, ms, |ms|) else []
    ensures res == WalkSpec(code, ms, manifest, cwd, rewrite)
  {
    var pieces := updatedCode;
    var reports := mods;
    var endAt := FinalEnd(code, last.end);
    ReportOfOpen(code, manifest, cwd, ms, |ms| - 1, endAt - last.end + 1);
    if rewrite {
      PieceStep(code, ms, |ms|, last.end, |code|);
      pieces := pieces + [Trim(Substring(code, last.end, |code|))];
    }
    reports := reports + [ModuleReport(last.id, last.name, last.iden, endAt - last.end + 1)];
    Completes(manifest, ms);
    var rewritten := if rewrite then Some(Join(pieces)) else None;
    return Ok(Analysis(reports, rewritten, Tsv(reports)));
  }
}
