# electrode-bundle-analyzer: the bundle analysis, modelled in Dafny

`lib/analyze-bundle.js` works out how many bytes each module takes up in a webpack
bundle. The bundle carries module-ID comments such as `/* 12 */`. The script:

1. picks these marker comments out of the bundle's comments (`Markers`);
2. finds the manifest module each marker names, and shortens its identifier to the
   path written in the report (`Manifest`);
3. walks the markers in order. Each marker closes the module opened by the previous
   marker, at the distance between the two; the last module ends at webpack's `}]))`
   terminator (`Boundaries`);
4. can optionally rebuild the bundle without the markers, trimming the code between
   them (`Boundaries`);
5. writes the records as a tab-separated report (`Reports`).

`Outcomes` proves what the whole run promises. The JavaScript built-ins the script
relies on are modelled, with their edge cases, in `JsString`:

- `indexOf` and `lastIndexOf`;
- `substr` and `substring`, with their clamping;
- `replace` with a string pattern and a replacement without `$`;
- `trim`;
- number rendering.

The bundle text, the parsed comments, the manifest's `modules` list and the working
directory are inputs. `Boundaries.AnalyzeSpec` states the result in closed form.
`Boundaries.Analyze` and `Boundaries.Walk` use the script's own loop: the `forEach`
with `current`, `codeIndex`, `mods` and `updatedCode`. `Boundaries.Finish` is what
follows that loop. The `ensures` clauses of these methods tie them to `AnalyzeSpec`.

The run stops in one of two ways:

- `NoMarkersFound`: no comment is a marker. The script prints an error and exits
  with status 1.
- `UnknownModuleId(v)`: no manifest module renders as the marker text `v`. The
  script throws when it reads `m.identifier` of `undefined`.

Three facts about the sizes follow from the code:

- The last module's size is `endAt - current.end + 1`, measured from the *end* of the
  last marker, not from its start.
- When no terminator follows the marker (or one starts right at its end), `endAt` is
  the length of the code. The size is then one more than the bytes left after the
  marker.
- The sizes do not add up to the length of the bundle. Together with the marker
  comments, they cover the bytes from the start of the first marker up to and
  including the byte at `endAt`. `Outcomes.SizesAccountForBytes` states this.

## Model

| member | source | states |
|---|---|---|
| Markers.IsIdValue | lib/analyze-bundle.js:49 | defines the `^ [0-9]+ $` test: a space, one or more ASCII digits, a space |
| Markers.FollowedByModule | lib/analyze-bundle.js:50-51 | defines the lookahead: `substr(end + 1, 1)` is `,`, `[` or a digit, or `substr(end + 1, 8)` is `function` |
| Markers.HasDigit | lib/analyze-bundle.js:51 | defines `x.match(/[0-9]/)`: some character of `x` is an ASCII digit |
| Markers.IsMarker | lib/analyze-bundle.js:49-52 | defines the filter's test: a block comment, with an id value, followed by a module |
| Markers.MarkerComments | lib/analyze-bundle.js:48-53 | defines `comments.filter(...)`, keeping input order; the kept list is no longer than the input |
| Manifest.IdComment | lib/analyze-bundle.js:76 | defines the `` ` ${x.id} ` `` text: a space, the id's decimal digits, a space |
| Manifest.Matches | lib/analyze-bundle.js:76 | defines the `_.find` test: the module's ` id ` text equals the marker text |
| Manifest.FindModule | lib/analyze-bundle.js:75-77 | defines `_.find` over the manifest by marker text; a found position is inside the manifest |
| Manifest.StripLoaders | lib/analyze-bundle.js:80-87 | defines the cut after `lastIndexOf("!")`, from 0 when there is none |
| Manifest.Relativised | lib/analyze-bundle.js:88 | defines the replacement of the first occurrence of the working directory by `.` |
| Manifest.CollapseNodeModules | lib/analyze-bundle.js:89-93 | defines `~` followed by the text after the last `node_modules`, when there is one |
| Manifest.Normalize | lib/analyze-bundle.js:79-93 | defines the reported path: loaders cut, working directory relativised, `node_modules` collapsed |
| Boundaries.ModuleOf | lib/analyze-bundle.js:75-79 | defines `m`: the manifest module `_.find` returns for a marker that resolves |
| Boundaries.SizeAt | lib/analyze-bundle.js:95-120 | defines a size: next marker start minus this marker end, or `endAt - end + 1` for the last |
| Boundaries.OpenAt | lib/analyze-bundle.js:103 | defines `current` after marker `k`: its module's id and name, the marker end and the normalised identifier |
| Boundaries.ReportAt | lib/analyze-bundle.js:95-121 | defines the record pushed for marker `i` |
| Boundaries.Gap | lib/analyze-bundle.js:100-118 | defines the code handed to `saveCode` before marker `i`, or after the last one |
| Boundaries.ModuleReports | lib/analyze-bundle.js:95-121 | defines `mods` at the end: one record per marker, in order |
| Boundaries.Pieces | lib/analyze-bundle.js:100-125 | defines `updatedCode` at the end: every gap, trimmed, in order |
| Boundaries.WalkSpec | lib/analyze-bundle.js:60-131 | defines the outcome for the markers: the first unresolved marker's error, or the records, the rewritten bundle and the report |
| Boundaries.AnalyzeSpec | lib/analyze-bundle.js:48-131 | defines the whole run: no markers is an error, otherwise `WalkSpec` |
| Reports.RowText | lib/analyze-bundle.js:130 | defines one report line without its line break: id, name, path and size, tab-separated |
| Reports.TsvLine | lib/analyze-bundle.js:130 | defines one report line with its line break |
| Reports.AppendLines | lib/analyze-bundle.js:129-131 | defines the `reduce`: lines appended in record order |
| Reports.Tsv | lib/analyze-bundle.js:129-131 | defines the report: the title line followed by one line per record |
| JsString.IndexOf | lib/analyze-bundle.js:107 | defines `indexOf` from a clamped start; the result is -1 or an in-range position at or after the start |
| JsString.LastIndexOf | lib/analyze-bundle.js:80-89 | defines `lastIndexOf`; the result is -1 or an in-range position |
| JsString.Substr | lib/analyze-bundle.js:50-51 | defines `substr` with a non-negative start: clamped to the string |
| JsString.Substring | lib/analyze-bundle.js:87-92 | defines `substring`: both ends clamped, swapped when out of order |
| JsString.ReplaceFirst | lib/analyze-bundle.js:88 | defines `replace` with a string pattern and a replacement without `$` |
| JsString.Trim | lib/analyze-bundle.js:70 | defines `trim`: leading and trailing whitespace and line terminators cut |
| JsString.Join | lib/analyze-bundle.js:125 | defines `join("")` |
| JsString.NatToString | lib/analyze-bundle.js:76 | defines the decimal rendering of a natural number; it is all digits, with no leading zero |
| JsString.IntToString | lib/analyze-bundle.js:130 | defines the rendering of a size, with `-` for a negative one |
| Markers.MarkerCommentsSpec | lib/analyze-bundle.js:48-53 | the filter keeps only markers and keeps every marker: a comment is kept exactly when it is a block comment, its text is one space, digits and one space, and the lookahead succeeds |
| Markers.LookaheadAt | lib/analyze-bundle.js:50-51 | the lookahead holds exactly when the character at `end + 1` is `,`, `[` or a digit, or the 8 characters from `end + 1` are `function`; a lookahead past the end of the code fails |
| Markers.MarkersInOrder | lib/analyze-bundle.js:48-53 | the kept comments sit at strictly increasing positions of the input, and every position that holds a marker is among them |
| Markers.MarkersWellPlaced | lib/analyze-bundle.js:48-53 | comments that are ordered, do not overlap and lie inside the code stay so after filtering |
| Manifest.FindModuleSpec | lib/analyze-bundle.js:75-77 | the lookup finds nothing exactly when no module's ` id ` equals the marker text; otherwise it finds the first module in manifest order that matches |
| Manifest.IdCommentIsIdValue | lib/analyze-bundle.js:76 | every module's rendered marker text passes the filter's `^ [0-9]+ $` test |
| Manifest.MatchDeterminesId | lib/analyze-bundle.js:76 | a module matches the marker text of id `n` exactly when its id is `n` |
| Manifest.LeadingZeroNeverMatches | lib/analyze-bundle.js:76 | the comparison is on text: a marker with a leading zero matches no module |
| Manifest.FoundModuleIsUnique | lib/analyze-bundle.js:75-77 | when ids are distinct, the module found is the only one that matches |
| Manifest.StripLoadersSpec | lib/analyze-bundle.js:80-87 | dropping the loader chain leaves the suffix of the identifier that starts right after a `!` (or at 0) and holds no `!`, so the cut is just after the last `!`; an identifier without `!` is unchanged |
| Manifest.StripLoadersChain | lib/analyze-bundle.js:80-87 | `chain + "!" + path` with no `!` in `path` is cut down to `path`, whatever `chain` holds |
| Manifest.NormalizeIgnoresLoaders | lib/analyze-bundle.js:79-93 | a module behind a loader chain is reported as the file the loaders apply to |
| Manifest.NormalizeDropsLoaders | lib/analyze-bundle.js:79-93 | no `!` survives normalisation |
| Manifest.NormalizeKeepsCharacters | lib/analyze-bundle.js:79-93 | every character of the reported path comes from the identifier or is the `.` or `~` put in |
| Manifest.RelativisedPrefix | lib/analyze-bundle.js:88 | an identifier with no `!` that starts with the working directory gets `.` in its place |
| Manifest.NormalizeCollapsesNodeModules | lib/analyze-bundle.js:89-93 | with `node_modules` in the relativised identifier, the result is `~` and the text after its last occurrence, and holds no `node_modules` |
| Manifest.TailAfterLastIsFree | lib/analyze-bundle.js:92 | after the last occurrence of a pattern, the `~` and the rest of the text hold no occurrence |
| Manifest.NormalizeWithoutNodeModules | lib/analyze-bundle.js:89-93 | without `node_modules`, the relativised identifier is reported as it is |
| Manifest.NormalizeUnchanged | lib/analyze-bundle.js:79-93 | an identifier with no `!`, no working directory and no `node_modules` is reported unchanged |
| Manifest.NormalizeIdempotent | lib/analyze-bundle.js:79-93 | normalising again changes nothing when the working directory does not occur in the result |
| Manifest.NormalizeNotIdempotent | lib/analyze-bundle.js:88 | without that proviso idempotence fails: `d + d` normalises to `.d`, and `.d` normalises to `..` |
| Manifest.NormalizePackageFile | lib/analyze-bundle.js:79-93 | `cwd + "/node_modules/" + path` is reported as `~/` and `path` when the working directory and the path hold no `!` and the path holds no `node_modules` |
| JsString.IndexOfSpec | lib/analyze-bundle.js:107 | `indexOf` gives -1 exactly when the pattern does not occur at or after the clamped start, and otherwise the first occurrence there |
| JsString.LastIndexOfSpec | lib/analyze-bundle.js:89 | `lastIndexOf` gives -1 exactly when the pattern does not occur, and otherwise the last occurrence |
| JsString.ReplaceFirstSpec | lib/analyze-bundle.js:88 | `replace` with a string pattern replaces only the first occurrence, wherever it is, and leaves a string without one unchanged |
| JsString.ReplaceFirstCharacters | lib/analyze-bundle.js:88 | the result of `replace` is made of characters of the string and of the replacement |
| JsString.TrimSpec | lib/analyze-bundle.js:70 | `trim` gives a slice of its input with only whitespace cut on both sides, and neither starting nor ending with whitespace |
| JsString.TrimStartSpec | lib/analyze-bundle.js:70 | the leading cut of `trim` is a whitespace prefix, and what remains does not start with whitespace |
| JsString.TrimEndSpec | lib/analyze-bundle.js:70 | the trailing cut of `trim` is a whitespace suffix, and what remains does not end with whitespace |
| JsString.NatToStringRoundTrip | lib/analyze-bundle.js:130 | the decimal rendering of a number reads back as that number |
| JsString.NatToStringInjective | lib/analyze-bundle.js:76 | distinct numbers render differently |
| Boundaries.FinalEnd | lib/analyze-bundle.js:106-114 | `findLastEndIndex` is the code length or lies strictly after the marker's end, with room for the terminator |
| Boundaries.FinalEndSpec | lib/analyze-bundle.js:106-114 | it is the first `}]))` after the marker's end when one exists and none starts at that end; otherwise it is the code length, both ways |
| Boundaries.FirstUnresolved | lib/analyze-bundle.js:74-79 | nothing is missing exactly when every marker resolves; otherwise it gives the first marker that does not resolve, after markers that all do |
| Boundaries.ModuleOfSpec | lib/analyze-bundle.js:75-77 | the module a marker names is in the manifest, and its id renders as the marker text |
| Boundaries.StopsAt | lib/analyze-bundle.js:74-79 | the walk stops at the first marker that does not resolve |
| Boundaries.Completes | lib/analyze-bundle.js:74-104 | the walk completes when every marker resolves |
| Boundaries.Analyze | lib/analyze-bundle.js:48-131 | the program, from the marker filter to the outputs, computes `AnalyzeSpec` |
| Boundaries.Walk | lib/analyze-bundle.js:74-104 | the `forEach` with its running state, followed by `Finish`, computes `WalkSpec`; its loop invariants say which records, open module and pieces hold after each marker |
| Boundaries.Finish | lib/analyze-bundle.js:106-131 | closing the last module at `endAt`, keeping the trailing code and assembling the outputs completes `WalkSpec` |
| Outcomes.NoMarkersIff | lib/analyze-bundle.js:48-58 | the run stops for want of markers exactly when no comment is a marker |
| Outcomes.SucceedsIff | lib/analyze-bundle.js:48-104 | the run succeeds exactly when some comment is a marker and every marker names a manifest module |
| Outcomes.UnknownModuleIsFirstUnresolved | lib/analyze-bundle.js:74-79 | an unknown-module error names a marker that no manifest module renders as, coming after markers that were all found |
| Outcomes.SuccessReports | lib/analyze-bundle.js:55-121 | on success some comment is a marker, every marker resolves, and the records are the walk's records |
| Outcomes.SuccessRewritten | lib/analyze-bundle.js:123-126 | unfolding the definitions: on success the rewritten bundle, when asked for, joins the trimmed gaps; otherwise there is none |
| Outcomes.SuccessTsv | lib/analyze-bundle.js:129-131 | unfolding the definitions: on success the report is written from the records |
| Outcomes.ReportOfMarker | lib/analyze-bundle.js:75-103 | the record for a marker is the first manifest module, in manifest order, whose ` id ` is the marker text, with that module's id, name and normalised identifier and its span's size |
| Outcomes.ReportsFollowMarkers | lib/analyze-bundle.js:75-121 | one record per marker, in marker order, with the id, name and normalised identifier of the first manifest module that matches the marker; size is next marker start minus this marker end, or `endAt - end + 1` for the last |
| Outcomes.SizesNonNegative | lib/analyze-bundle.js:95-120 | for ordered, non-overlapping comments inside the code, every size is non-negative and the last is at least 1 |
| Outcomes.SizesUpTo | lib/analyze-bundle.js:96 | the records before a marker and the markers before it cover the code from the first marker to that marker |
| Outcomes.SizesAccountForBytes | lib/analyze-bundle.js:95-120 | the sizes and the marker comments add up to the bytes from the first marker's start to `endAt`, inclusive |
| Outcomes.WovenPrefix | lib/analyze-bundle.js:100-101 | the gaps and marker texts before a marker, in order, are the code up to that marker's end |
| Outcomes.GapsAndMarkersRebuildCode | lib/analyze-bundle.js:100-118 | the gaps handed to `saveCode`, interleaved with the marker comments, are exactly the code |
| Outcomes.RewrittenDropsMarkers | lib/analyze-bundle.js:66-125 | with rewriting on, the output joins the `n + 1` gaps, each trimmed; with it off, nothing is rewritten; for ordered, non-overlapping comments inside the code, those gaps interleaved with the marker texts are the whole code, so no marker byte is copied |
| Outcomes.RewriteCanCreateMarker | lib/analyze-bundle.js:48-125 | rewriting can create a marker: in `a=[0,/* 7 */ /* 1 */ 1,2]` only `/* 1 */` is a marker, but in the rewritten `a=[0,/* 7 */1,2]` `/* 7 */` passes the lookahead |
| Outcomes.ReportsArePlain | lib/analyze-bundle.js:79-97 | records drawn from names and identifiers free of tabs and line breaks have none either |
| Outcomes.TsvReadsBack | lib/analyze-bundle.js:129-131 | when names and identifiers hold no tab or line break, the report reads back as the records, in order |
| Reports.TsvLayout | lib/analyze-bundle.js:129-131 | the report's lines are the title line, one line per record in order, and the empty piece after the final line break |
| Reports.HeaderLine | lib/analyze-bundle.js:131 | the initial value of the `reduce` is one title line and a line break |
| Reports.RowRoundTrip | lib/analyze-bundle.js:130 | one line reads back as its record, field by field |
| Reports.IntRoundTrip | lib/analyze-bundle.js:130 | a size, negative or not, reads back from its `${}` rendering |
| Reports.TsvRoundTrip | lib/analyze-bundle.js:129-131 | reading the report back gives every record, in order |

## Left out

- Argument parsing with yargs (lines 11-28) is not modelled. The `--rewrite` flag is the parameter `rewrite`.
- Reading the stats file and the bundle (lines 30-31) is I/O. The manifest and the code are parameters.
- `acorn.parse` (line 33) is a foreign parser. The comment list is a parameter. The lemmas that need order assume what acorn delivers: comments in order, not overlapping, each inside the code.
- `getOutputDir`, the directory it creates and the `.gitignore` it seeds (lines 35-46) are file-system effects.
- `console.error` and `process.exit(1)` become `NoMarkersFound`. The `TypeError` on an unknown id becomes `UnknownModuleId`. `console.log` and the `fs.writeFileSync` calls (lines 124-131) are sinks: the model keeps only the strings they write.
- `JSON.stringify` of the records (line 128) is library serialisation. In the script, the last record pushed also carries the `end` field of `current`; the JSON output is not modelled.
- Manifest ids are natural numbers, and names and identifiers are strings. A non-numeric id, or a missing name rendered as `undefined`, is not modelled.
- `${n}` for numbers of 10^21 and more (exponent notation) is not modelled. Integers are unbounded here.
- Offsets count Dafny characters (Unicode scalar values). JavaScript counts UTF-16 code units, so text outside the Basic Multilingual Plane is not modelled.
- The `x === null` and `isNaN(x)` tests at line 109 are never true for the result of `indexOf`. Only `x <= current.end` is modelled.
- JsString.ReplaceFirst: `$` patterns in the replacement are not expanded. The only replacement used, `.` at line 88, holds none.
- Boundaries.FinalEnd: its own `ensures` gives only the bounds. The properties of the terminator search are in Boundaries.FinalEndSpec.
- Manifest.NormalizeIdempotent: proved only when the working directory does not occur in the result. Manifest.NormalizeNotIdempotent shows that idempotence fails in general.
- Rewriting twice is not modelled. The marker comments found are not copied (Outcomes.GapsAndMarkersRebuildCode). A second run would need the parser's comments for the new text, and the filter can find new markers there (Outcomes.RewriteCanCreateMarker).
