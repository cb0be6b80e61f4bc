/**
  What the analysis promises about its outputs (lib/analyze-bundle.js,
  lines 48-131), stated over `AnalyzeSpec`: when it stops and why, which
  record each marker yields, how the sizes add up, what the rewritten
  bundle is made of, and that the TSV report reads back as the records.
*/
module Outcomes {
  import opened Wrappers
  import opened JsString
  import opened Markers
  import opened Manifest
  import opened Reports
  import opened Boundaries

  /** The analysis stops for want of markers exactly when no comment is a marker. */
  lemma NoMarkersIff(code: string, comments: seq<Comment>, manifest: seq<ManifestModule>, cwd: string, rewrite: bool)
    ensures AnalyzeSpec(code, comments, manifest, cwd, rewrite) == Err(NoMarkersFound)
            <==> forall c :: c in comments ==> !IsMarker(code, c)
  {
    MarkerCommentsSpec(code, comments);
    var ms := MarkerComments(code, comments);
    if ms != [] {
      assert ms[0] in ms;
    }
  }

  /** The analysis succeeds exactly when some comment is a marker and every marker names a manifest module. */
  lemma SucceedsIff(code: string, comments: seq<Comment>, manifest: seq<ManifestModule>, cwd: string, rewrite: bool)
    ensures AnalyzeSpec(code, comments, manifest, cwd, rewrite).Ok? <==>
      && (exists c :: c in comments && IsMarker(code, c))
      && (forall c :: c in comments && IsMarker(code, c) ==> FindModule(manifest, c.value).Some?)
  {
    MarkerCommentsSpec(code, comments);
    var ms := MarkerComments(code, comments);
    if ms != [] {
      assert ms[0] in ms;
    }
    assert (forall i :: 0 <= i < |ms| ==> Resolves(manifest, ms[i])) <==> (forall c :: c in ms ==> Resolves(manifest, c));
  }

  /**
    An unknown module id is the text of the first marker, in comment order,
    that no manifest module renders as; every earlier marker was found.
  */
  lemma UnknownModuleIsFirstUnresolved(code: string, comments: seq<Comment>, manifest: seq<ManifestModule>,
                                       cwd: string, rewrite: bool, v: string)
    requires AnalyzeSpec(code, comments, manifest, cwd, rewrite) == Err(UnknownModuleId(v))
    ensures forall m :: m in manifest ==> IdComment(m.id) != v
    ensures exists k ::
      (&& 0 <= k < |MarkerComments(code, comments)|
       && MarkerComments(code, comments)[k].value == v
       && forall j :: 0 <= j < k ==> FindModule(manifest, MarkerComments(code, comments)[j].value).Some?)
  {
    var ms := MarkerComments(code, comments);
    assert |ms| > 0 && FirstUnresolved(manifest, ms).Some?;
    var k := FirstUnresolved(manifest, ms).value;
    assert ms[k].value == v && FindModule(manifest, v).None?;
    FindModuleSpec(manifest, v);
    forall m | m in manifest ensures IdComment(m.id) != v {
      var i :| 0 <= i < |manifest| && manifest[i] == m;
      assert !Matches(manifest[i], v);
    }
    assert forall j :: 0 <= j < k ==> Resolves(manifest, ms[j]);
    assert 0 <= k < |ms| && ms[k].value == v && forall j :: 0 <= j < k ==> FindModule(manifest, ms[j].value).Some?;
  }

  lemma {:induction false} ReportsUpToIndex(code: string, manifest: seq<ManifestModule>, cwd: string,
                                            ms: seq<Comment>, k: nat, i: nat)
    requires k <= |ms| && ResolvedUpTo(manifest, ms, k) && i < k
    ensures Resolves(manifest, ms[i])
    ensures ReportsUpTo(code, manifest, cwd, ms, k)[i] == ReportAt(code, manifest, cwd, ms, i)
  {
    if i < k - 1 {
      ReportsUpToIndex(code, manifest, cwd, ms, k - 1, i);
    }
  }

  /** On success some comment is a marker, every marker resolves, and the records are the walk's records. */
  lemma SuccessReports(code: string, comments: seq<Comment>, manifest: seq<ManifestModule>, cwd: string,
                       rewrite: bool, a: Analysis)
    requires AnalyzeSpec(code, comments, manifest, cwd, rewrite) == Ok(a)
    ensures var ms := MarkerComments(code, comments);
      && ms != [] && ResolvedUpTo(manifest, ms, |ms|)
      && a.reports == ModuleReports(code, manifest, cwd, ms)
  {
    var ms := MarkerComments(code, comments);
    ResolvedUpToAll(manifest, ms, |ms|);
  }

  /** On success the rewritten bundle, when asked for, joins the trimmed gaps. */
  lemma SuccessRewritten(code: string, comments: seq<Comment>, manifest: seq<ManifestModule>, cwd: string,
                         rewrite: bool, a: Analysis)
    requires AnalyzeSpec(code, comments, manifest, cwd, rewrite) == Ok(a)
    ensures a.rewritten == if rewrite then Some(Join(Pieces(code, MarkerComments(code, comments)))) else None
  {
  }

  /** On success the TSV report is written from the records. */
  lemma SuccessTsv(code: string, comments: seq<Comment>, manifest: seq<ManifestModule>, cwd: string,
                   rewrite: bool, a: Analysis)
    requires AnalyzeSpec(code, comments, manifest, cwd, rewrite) == Ok(a)
    ensures a.tsv == Tsv(a.reports)
  {
  }

  /** The record for marker `i`: the manifest module it names, with its normalised identifier, and its size. */
  lemma ReportOfMarker(code: string, manifest: seq<ManifestModule>, cwd: string, ms: seq<Comment>, i: nat)
    requires ResolvedUpTo(manifest, ms, |ms|) && i < |ms|
    ensures var r := ModuleReports(code, manifest, cwd, ms)[i];
      && (exists k :: FirstMatch(manifest, ms[i].value, k)
           && r == ModuleReport(manifest[k].id, manifest[k].name, Normalize(manifest[k].identifier, cwd), r.size))
      && r.size == SizeAt(code, ms, i)
  {
    ReportsUpToIndex(code, manifest, cwd, ms, |ms|, i);
    FindModuleSpec(manifest, ms[i].value);
    var k := FindModule(manifest, ms[i].value).value;
    assert FirstMatch(manifest, ms[i].value, k);
  }

  /** The walk's records, one per marker, each the module its marker names. */
  lemma ReportsFollowMarkers(code: string, manifest: seq<ManifestModule>, cwd: string, ms: seq<Comment>,
                             rs: seq<ModuleReport>)
    requires ResolvedUpTo(manifest, ms, |ms|) && rs == ModuleReports(code, manifest, cwd, ms)
    ensures |rs| == |ms|
    ensures forall i :: 0 <= i < |ms| ==>
      && (exists k :: FirstMatch(manifest, ms[i].value, k)
           && rs[i] == ModuleReport(manifest[k].id, manifest[k].name, Normalize(manifest[k].identifier, cwd), rs[i].size))
      && rs[i].size == if i + 1 < |ms| then ms[i + 1].start - ms[i].end
                       else FinalEnd(code, ms[i].end) - ms[i].end + 1
  {
    forall i | 0 <= i < |ms|
      ensures exists k :: (FirstMatch(manifest, ms[i].value, k)
                && rs[i] == ModuleReport(manifest[k].id, manifest[k].name, Normalize(manifest[k].identifier, cwd),
                                         rs[i].size))
      ensures rs[i].size == SizeAt(code, ms, i)
    {
      ReportOfMarker(code, manifest, cwd, ms, i);
    }
  }

  /**
    For comments in source order, not overlapping and inside the code,
    every size is non-negative, and the last one is at least 1.
  */
  lemma SizesNonNegative(code: string, comments: seq<Comment>, manifest: seq<ManifestModule>, cwd: string,
                         rewrite: bool, a: Analysis)
    requires WellPlaced(code, comments)
    requires AnalyzeSpec(code, comments, manifest, cwd, rewrite) == Ok(a)
    ensures a.reports != []
    ensures forall i :: 0 <= i < |a.reports| ==> a.reports[i].size >= 0
    ensures a.reports[|a.reports| - 1].size >= 1
  {
    var ms := MarkerComments(code, comments);
    MarkersWellPlaced(code, comments);
    SuccessReports(code, comments, manifest, cwd, rewrite, a);
    ReportsFollowMarkers(code, manifest, cwd, ms, a.reports);
    forall i | 0 <= i < |ms| ensures a.reports[i].size >= 0 {
      if i + 1 < |ms| {
        assert ms[i].end <= ms[i + 1].start;
      }
    }
  }

  /** The sum of the sizes of a list of records. */
  function TotalSize(rs: seq<ModuleReport>): int
  {
    if rs == [] then 0 else TotalSize(rs[..|rs| - 1]) + rs[|rs| - 1].size
  }

  /** The bytes taken by the first `k` marker comments. */
  function MarkerBytes(ms: seq<Comment>, k: nat): int
    requires k <= |ms|
  {
    if k == 0 then 0 else MarkerBytes(ms, k - 1) + (ms[k - 1].end - ms[k - 1].start)
  }

  lemma TotalSizeSnoc(rs: seq<ModuleReport>, r: ModuleReport)
    ensures TotalSize(rs + [r]) == TotalSize(rs) + r.size
  {
    assert (rs + [r])[..|rs + [r]| - 1] == rs;
  }

  /** The records before marker `k` and the first `k` markers together cover the code from the first marker to marker `k`. */
  lemma {:induction false} SizesUpTo(code: string, manifest: seq<ManifestModule>, cwd: string, ms: seq<Comment>, k: nat)
    requires k < |ms| && ResolvedUpTo(manifest, ms, k)
    ensures TotalSize(ReportsUpTo(code, manifest, cwd, ms, k)) + MarkerBytes(ms, k) == ms[k].start - ms[0].start
  {
    if k > 0 {
      SizesUpTo(code, manifest, cwd, ms, k - 1);
      TotalSizeSnoc(ReportsUpTo(code, manifest, cwd, ms, k - 1), ReportAt(code, manifest, cwd, ms, k - 1));
    }
  }

  /**
    The sizes and the marker comments together account for every byte from
    the start of the first marker to the byte at `FinalEnd`, inclusive.
  */
  lemma SizesAccountForBytes(code: string, comments: seq<Comment>, manifest: seq<ManifestModule>, cwd: string,
                             rewrite: bool, a: Analysis)
    requires AnalyzeSpec(code, comments, manifest, cwd, rewrite) == Ok(a)
    ensures var ms := MarkerComments(code, comments);
      ms != [] &&
      TotalSize(a.reports) + MarkerBytes(ms, |ms|) == FinalEnd(code, ms[|ms| - 1].end) + 1 - ms[0].start
  {
    var ms := MarkerComments(code, comments);
    SuccessReports(code, comments, manifest, cwd, rewrite, a);
    var n := |ms| - 1;
    SizesUpTo(code, manifest, cwd, ms, n);
    TotalSizeSnoc(ReportsUpTo(code, manifest, cwd, ms, n), ReportAt(code, manifest, cwd, ms, n));
  }

  /** The gaps before the first `k` markers interleaved with those markers' own text. */
  function Woven(code: string, ms: seq<Comment>, k: nat): string
    requires k <= |ms|
  {
    if k == 0 then "" else Woven(code, ms, k - 1) + Gap(code, ms, k - 1) + Substring(code, ms[k - 1].start, ms[k - 1].end)
  }

  lemma {:induction false} WovenPrefix(code: string, ms: seq<Comment>, k: nat)
    requires WellPlaced(code, ms) && k <= |ms|
    ensures Woven(code, ms, k) == code[..GapStart(ms, k)]
  {
    if k > 0 {
      WovenPrefix(code, ms, k - 1);
      if k > 1 {
        assert ms[k - 2].end <= ms[k - 1].start;
      }
      assert ms[k - 1].start < ms[k - 1].end <= |code|;
      WovenStep(code, ms, k);
    }
  }

  /** One marker further: its gap and its text extend the rebuilt prefix. */
  lemma WovenStep(code: string, ms: seq<Comment>, k: nat)
    requires 0 < k <= |ms|
    requires GapStart(ms, k - 1) <= ms[k - 1].start < ms[k - 1].end <= |code|
    requires Woven(code, ms, k - 1) == code[..GapStart(ms, k - 1)]
    ensures Woven(code, ms, k) == code[..GapStart(ms, k)]
  {
    var a, b, c := GapStart(ms, k - 1), ms[k - 1].start, ms[k - 1].end;
    assert Gap(code, ms, k - 1) == code[a..b];
    assert Substring(code, b, c) == code[b..c];
    SlicesJoin(code, a, b, c);
  }

  /** Three adjacent slices of a prefix join into that prefix. */
  lemma SlicesJoin(s: string, a: nat, b: nat, c: nat)
    requires a <= b <= c <= |s|
    ensures s[..a] + s[a..b] + s[b..c] == s[..c]
  {
    var t := s[..a] + s[a..b] + s[b..c];
    assert |t| == c;
    forall i | 0 <= i < c ensures t[i] == s[i] {
      if i < a {
        assert t[i] == s[..a][i];
      } else if i < b {
        assert t[i] == s[a..b][i - a];
      } else {
        assert t[i] == s[b..c][i - b];
      }
    }
  }

  /**
    Cut at the markers, the code falls into the gaps `saveCode` is given
    and the marker comments: put back together in order, they are the code.
  */
  lemma GapsAndMarkersRebuildCode(code: string, ms: seq<Comment>)
    requires WellPlaced(code, ms)
    ensures Woven(code, ms, |ms|) + Gap(code, ms, |ms|) == code
  {
    WovenPrefix(code, ms, |ms|);
    var a := GapStart(ms, |ms|);
    if |ms| > 0 {
      assert ms[|ms| - 1].start < ms[|ms| - 1].end <= |code|;
    }
    assert code[..a] + code[a..] == code;
  }

  lemma {:induction false} PiecesUpToIndex(code: string, ms: seq<Comment>, k: nat, i: nat)
    requires k <= |ms| + 1 && i < k
    ensures PiecesUpTo(code, ms, k)[i] == Trim(Gap(code, ms, i))
  {
    if i < k - 1 {
      PiecesUpToIndex(code, ms, k - 1, i);
    }
  }

  /**
    When asked for, the rewritten bundle is the gaps between the marker
    comments, each trimmed, joined in order. For comments as a parser
    delivers them, those gaps interleaved with the marker texts are the
    whole code, so no byte of a marker is copied. Otherwise nothing is
    rewritten.
  */
  lemma RewrittenDropsMarkers(code: string, comments: seq<Comment>, manifest: seq<ManifestModule>, cwd: string,
                              rewrite: bool, a: Analysis)
    requires AnalyzeSpec(code, comments, manifest, cwd, rewrite) == Ok(a)
    ensures var ms := MarkerComments(code, comments);
      if rewrite then
        exists ps: seq<string> :: |ps| == |ms| + 1 && a.rewritten == Some(Join(ps))
          && forall i :: 0 <= i <= |ms| ==> ps[i] == Trim(Gap(code, ms, i))
      else a.rewritten == None
    ensures var ms := MarkerComments(code, comments);
      WellPlaced(code, comments) ==> Woven(code, ms, |ms|) + Gap(code, ms, |ms|) == code
  {
    var ms := MarkerComments(code, comments);
    SuccessRewritten(code, comments, manifest, cwd, rewrite, a);
    if WellPlaced(code, comments) {
      MarkersWellPlaced(code, comments);
      GapsAndMarkersRebuildCode(code, ms);
    }
    if rewrite {
      var ps := Pieces(code, ms);
      forall i | 0 <= i <= |ms| ensures ps[i] == Trim(Gap(code, ms, i)) {
        PiecesUpToIndex(code, ms, |ms| + 1, i);
      }
    }
  }

  /** Records drawn from a manifest without tabs or line breaks in its names and identifiers have none either. */
  lemma ReportsArePlain(code: string, manifest: seq<ManifestModule>, cwd: string, ms: seq<Comment>,
                        rs: seq<ModuleReport>)
    requires ResolvedUpTo(manifest, ms, |ms|) && rs == ModuleReports(code, manifest, cwd, ms)
    requires forall m :: m in manifest ==>
      '\t' !in m.name && '\n' !in m.name && '\t' !in m.identifier && '\n' !in m.identifier
    ensures forall i :: 0 <= i < |rs| ==> Plain(rs[i])
  {
    forall i | 0 <= i < |rs| ensures Plain(rs[i]) {
      ReportOfMarker(code, manifest, cwd, ms, i);
      var k :| FirstMatch(manifest, ms[i].value, k)
        && rs[i] == ModuleReport(manifest[k].id, manifest[k].name, Normalize(manifest[k].identifier, cwd), rs[i].size);
      NormalizeKeepsCharacters(manifest[k].identifier, cwd);
    }
  }

  /**
    When no manifest name or identifier holds a tab or a line break, the
    TSV report reads back as the records, in order.
  */
  lemma TsvReadsBack(code: string, comments: seq<Comment>, manifest: seq<ManifestModule>, cwd: string,
                     rewrite: bool, a: Analysis)
    requires AnalyzeSpec(code, comments, manifest, cwd, rewrite) == Ok(a)
    requires forall m :: m in manifest ==>
      '\t' !in m.name && '\n' !in m.name && '\t' !in m.identifier && '\n' !in m.identifier
    ensures ParseTsv(a.tsv) == Some(a.reports)
  {
    SuccessTsv(code, comments, manifest, cwd, rewrite, a);
    SuccessReports(code, comments, manifest, cwd, rewrite, a);
    ReportsArePlain(code, manifest, cwd, MarkerComments(code, comments), a.reports);
    TsvRoundTrip(a.reports);
  }

  /** The example's filter: `/* 7 */` fails the lookahead, `/* 1 */` passes it. */
  lemma ExampleMarkers(code: string, c7: Comment, c1: Comment)
    requires code == "a=[0,/* 7 */ /* 1 */ 1,2]"
    requires c7 == Comment(Block, " 7 ", 5, 12) && c1 == Comment(Block, " 1 ", 13, 20)
    ensures !IsMarker(code, c7) && IsMarker(code, c1)
    ensures MarkerComments(code, [c7, c1]) == [c1]
  {
    assert IsIdValue(" 7 ") && IsIdValue(" 1 ");
    assert Substr(code, 13, 1) == "/" && Substr(code, 13, 8) == "/* 1 */ ";
    assert Substr(code, 21, 1) == "1";
    assert HasDigit("1") by { assert IsDigit("1"[0]); }
    assert MarkerComments(code, [c1]) == [c1];
  }

  /** The example's rewritten text: the two gaps around `/* 1 */`, trimmed and joined. */
  lemma ExamplePieces(code: string, c1: Comment)
    requires code == "a=[0,/* 7 */ /* 1 */ 1,2]" && c1 == Comment(Block, " 1 ", 13, 20)
    ensures Join(Pieces(code, [c1])) == "a=[0,/* 7 */1,2]"
  {
    var ms := [c1];
    assert Gap(code, ms, 0) == "a=[0,/* 7 */ " && Gap(code, ms, 1) == " 1,2]";
    assert Trim("a=[0,/* 7 */ ") == "a=[0,/* 7 */";
    assert Trim(" 1,2]") == "1,2]";
    assert PiecesUpTo(code, ms, 1) == ["a=[0,/* 7 */"];
    assert Pieces(code, ms) == ["a=[0,/* 7 */", "1,2]"];
    assert Join(["a=[0,/* 7 */", "1,2]"]) == "a=[0,/* 7 */1,2]";
  }

  /**
    Rewriting can create a marker. Here `/* 7 */` fails the lookahead, since
    the character two past it is `/`; once the gap before `/* 1 */` is
    trimmed, that character is `,`, so a second run over the rewritten text
    would treat `/* 7 */` as a marker.
  */
  lemma RewriteCanCreateMarker()
    ensures var code, t := "a=[0,/* 7 */ /* 1 */ 1,2]", "a=[0,/* 7 */1,2]";
      var c7, c1 := Comment(Block, " 7 ", 5, 12), Comment(Block, " 1 ", 13, 20);
      var r := AnalyzeSpec(code, [c7, c1], [ManifestModule(1, "m", "x")], "/p", true);
      && !IsMarker(code, c7) && IsMarker(code, c1)
      && r.Ok? && r.value.rewritten == Some(t) && IsMarker(t, c7)
  {
    var code, t := "a=[0,/* 7 */ /* 1 */ 1,2]", "a=[0,/* 7 */1,2]";
    var c7, c1 := Comment(Block, " 7 ", 5, 12), Comment(Block, " 1 ", 13, 20);
    var manifest := [ManifestModule(1, "m", "x")];
    ExampleMarkers(code, c7, c1);
    assert IdComment(1) == " 1 ";
    assert FindModule(manifest, " 1 ") == Some(0);
    assert FirstUnresolved(manifest, [c1]) == None;
    ExamplePieces(code, c1);
    assert Substr(t, 13, 1) == "," by { assert t[13] == ','; }
    assert IsMarker(t, c7) by { assert IsIdValue(" 7 "); }
  }
}
