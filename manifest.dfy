/**
  The build manifest: finding the module a marker names, and normalising
  the module's identifier for the report (lib/analyze-bundle.js, lines
  75-93).
*/
module Manifest {
  import opened Wrappers
  import opened JsString
  import opened Markers

  /** One entry of the manifest's `modules` list. */
  datatype ManifestModule = ManifestModule(id: nat, name: string, identifier: string)

  /** The marker text for module `id`: its decimal rendering between two single spaces. */
  function IdComment(id: nat): string
  {
    " " + NatToString(id) + " "
  }

  predicate Matches(m: ManifestModule, value: string)
  {
    IdComment(m.id) == value
  }

  /**
    `_.find(modules, x => " " + x.id + " " === value)`, giving the position
    of the module found: the first one whose rendered id equals the marker
    text exactly.
  */
  function FindModule(manifest: seq<ManifestModule>, value: string): (r: Option<nat>)
    ensures r.Some? ==> r.value < |manifest|
  {
    if manifest == [] then None
    else if Matches(manifest[0], value) then Some(0)
    else match FindModule(manifest[1..], value)
      case None => None
      case Some(k) => Some(k + 1)
  }

  /** `manifest[k]` is the first module, in manifest order, whose marker text is `value`. */
  predicate FirstMatch(manifest: seq<ManifestModule>, value: string, k: int)
  {
    0 <= k < |manifest| && Matches(manifest[k], value)
    && forall j :: 0 <= j < k ==> !Matches(manifest[j], value)
  }

  /**
    The lookup finds nothing exactly when no module matches, and otherwise
    the first module that matches.
  */
  lemma {:induction false} FindModuleSpec(manifest: seq<ManifestModule>, value: string)
    ensures var r := FindModule(manifest, value);
      r.None? <==> forall i :: 0 <= i < |manifest| ==> !Matches(manifest[i], value)
    ensures var r := FindModule(manifest, value);
      r.Some? ==> Matches(manifest[r.value], value) && forall i :: 0 <= i < r.value ==> !Matches(manifest[i], value)
    decreases |manifest|
  {
    if manifest != [] && !Matches(manifest[0], value) {
      var tail := manifest[1..];
      FindModuleSpec(tail, value);
      assert forall i :: 1 <= i < |manifest| ==> manifest[i] == tail[i - 1];
    }
  }

  /** Every module's marker text passes the filter's `^ [0-9]+ $` test. */
  lemma IdCommentIsIdValue(id: nat)
    ensures IsIdValue(IdComment(id))
  {
    var v := IdComment(id);
    assert v[1..|v| - 1] == NatToString(id);
  }

  /** A marker text names one numeric id: matching it pins the module's id down. */
  lemma MatchDeterminesId(m: ManifestModule, id: nat)
    ensures Matches(m, IdComment(id)) <==> m.id == id
  {
    if Matches(m, IdComment(id)) {
      assert NatToString(m.id) == IdComment(id)[1..|IdComment(id)| - 1] == NatToString(id);
      NatToStringInjective(m.id, id);
    }
  }

  /** The match is on text, not on number: a marker with a leading zero matches no module. */
  lemma LeadingZeroNeverMatches(m: ManifestModule, digits: string)
    requires |digits| >= 1
    ensures !Matches(m, " 0" + digits + " ")
  {
    var s, v := NatToString(m.id), " 0" + digits + " ";
    assert IdComment(m.id)[1..|IdComment(m.id)| - 1] == s;
    assert v[1..|v| - 1] == "0" + digits;
  }

  /** When the manifest's ids are distinct, the module found is the only one that matches. */
  lemma FoundModuleIsUnique(manifest: seq<ManifestModule>, value: string, j: nat)
    requires forall a, b :: 0 <= a < b < |manifest| ==> manifest[a].id != manifest[b].id
    requires j < |manifest| && Matches(manifest[j], value)
    ensures FindModule(manifest, value) == Some(j)
  {
    FindModuleSpec(manifest, value);
    var k := FindModule(manifest, value).value;
    MatchDeterminesId(manifest[k], manifest[j].id);
  }

  const NodeModules := "node_modules"

  /** Keeps the text after the last `!`, dropping the loader chain. */
  function StripLoaders(identifier: string): string
  {
    var x := LastIndexOf(identifier, "!");
    identifier[if x < 0 then 0 else x + 1..]
  }

  /** Collapses everything up to the last `node_modules` into `~`. */
  function CollapseNodeModules(s: string): string
  {
    var n := LastIndexOf(s, NodeModules);
    if n >= 0 then "~" + s[n + |NodeModules|..] else s
  }

  /** The identifier after its loader chain is cut and the working directory is replaced. */
  function Relativised(identifier: string, cwd: string): string
  {
    ReplaceFirst(StripLoaders(identifier), cwd, ".")
  }

  /** The path written to the report for a manifest identifier. */
  function Normalize(identifier: string, cwd: string): string
  {
    CollapseNodeModules(Relativised(identifier, cwd))
  }

  /**
    Cutting the loader chain leaves a suffix of the identifier with no `!`
    in it, and leaves an identifier without `!` alone.
  */
  lemma StripLoadersSpec(identifier: string)
    ensures '!' !in StripLoaders(identifier)
    ensures '!' !in identifier ==> StripLoaders(identifier) == identifier
    ensures exists a :: (0 <= a <= |identifier| && (a == 0 || identifier[a - 1] == '!')
                         && StripLoaders(identifier) == identifier[a..])
  {
    LastIndexOfSpec(identifier, "!");
    var x := LastIndexOf(identifier, "!");
    var a := if x < 0 then 0 else x + 1;
    forall k | a <= k < |identifier| ensures identifier[k] != '!' {
      OccursAtChar(identifier, '!', k);
    }
    if x != -1 {
      OccursAtChar(identifier, '!', x);
    }
    assert (0 <= a <= |identifier| && (a == 0 || identifier[a - 1] == '!')
            && StripLoaders(identifier) == identifier[a..]);
  }

  /** The loader chain in front of the last `!` is dropped whole, whatever it holds. */
  lemma StripLoadersChain(chain: string, path: string)
    requires '!' !in path
    ensures StripLoaders(chain + "!" + path) == path
  {
    var s := chain + "!" + path;
    LastIndexOfSpec(s, "!");
    assert OccursAt(s, "!", |chain|) by { assert s[|chain|..|chain| + 1] == "!"; }
    forall j | |chain| < j ensures !OccursAt(s, "!", j) {
      OccursAtChar(s, '!', j);
      if j < |s| {
        assert s[j] == path[j - |chain| - 1];
      }
    }
    assert LastIndexOf(s, "!") == |chain|;
    assert s[|chain| + 1..] == path;
  }

  /** A module behind loaders is reported as the file the loaders are applied to. */
  lemma NormalizeIgnoresLoaders(chain: string, path: string, cwd: string)
    requires '!' !in path
    ensures Normalize(chain + "!" + path, cwd) == Normalize(path, cwd)
  {
    StripLoadersChain(chain, path);
    StripLoadersSpec(path);
  }

  /** No `!` survives normalisation. */
  lemma NormalizeDropsLoaders(identifier: string, cwd: string)
    ensures '!' !in Normalize(identifier, cwd)
  {
    StripLoadersSpec(identifier);
    ReplaceFirstCharacters(StripLoaders(identifier), cwd, ".");
  }

  /** Every character of the reported path comes from the identifier, or is the `.` or `~` put in. */
  lemma NormalizeKeepsCharacters(identifier: string, cwd: string)
    ensures forall c :: c in Normalize(identifier, cwd) ==> c in identifier || c == '.' || c == '~'
  {
    StripLoadersSpec(identifier);
    var s := StripLoaders(identifier);
    assert forall c :: c in s ==> c in identifier;
    ReplaceFirstCharacters(s, cwd, ".");
    var x := Relativised(identifier, cwd);
    var n := LastIndexOf(x, NodeModules);
    if n >= 0 {
      assert forall c :: c in x[n + |NodeModules|..] ==> c in x;
    }
  }

  /**
    With `node_modules` in the relativised identifier, the result is `~`
    followed by the text after its last occurrence, and contains no
    `node_modules` at all.
  */
  lemma NormalizeCollapsesNodeModules(identifier: string, cwd: string)
    requires Contains(Relativised(identifier, cwd), NodeModules)
    ensures var x := Relativised(identifier, cwd);
      exists n :: OccursAt(x, NodeModules, n) && (forall j :: n < j ==> !OccursAt(x, NodeModules, j))
                  && Normalize(identifier, cwd) == "~" + x[n + |NodeModules|..]
    ensures !Contains(Normalize(identifier, cwd), NodeModules)
  {
    var x := Relativised(identifier, cwd);
    LastIndexOfSpec(x, NodeModules);
    var n := LastIndexOf(x, NodeModules);
    assert Normalize(identifier, cwd) == "~" + x[n + |NodeModules|..];
    TailAfterLastIsFree(x, NodeModules, n, '~');
  }

  /**
    After the last occurrence of a pattern, a character the pattern does not
    start with, followed by the rest of the string, holds no occurrence.
  */
  lemma TailAfterLastIsFree(x: string, pat: string, n: nat, c: char)
    requires pat != [] && pat[0] != c
    requires OccursAt(x, pat, n) && forall j :: n < j ==> !OccursAt(x, pat, j)
    ensures !Contains([c] + x[n + |pat|..], pat)
  {
    var t := x[n + |pat|..];
    var r := [c] + t;
    assert r[1..] == t;
    forall k ensures !OccursAt(r, pat, k) {
      if k == 0 {
        MismatchExcludes(r, pat, 0, 0);
      } else if k > 0 {
        OccursInSuffix(r, pat, 1, k);
        OccursInSuffix(x, pat, n + |pat|, n + |pat| + k - 1);
      }
    }
  }

  /** Without `node_modules` the relativised identifier is reported as it is. */
  lemma NormalizeWithoutNodeModules(identifier: string, cwd: string)
    requires !Contains(Relativised(identifier, cwd), NodeModules)
    ensures Normalize(identifier, cwd) == Relativised(identifier, cwd)
  {
    LastIndexOfSpec(Relativised(identifier, cwd), NodeModules);
  }

  /** An identifier with no `!`, no working directory and no `node_modules` in it comes back unchanged. */
  lemma NormalizeUnchanged(identifier: string, cwd: string)
    requires '!' !in identifier
    requires !Contains(identifier, cwd) && !Contains(identifier, NodeModules)
    ensures Normalize(identifier, cwd) == identifier
  {
    StripLoadersSpec(identifier);
    ReplaceFirstSpec(identifier, cwd, ".");
    NormalizeWithoutNodeModules(identifier, cwd);
  }

  /**
    Normalising a normalised identifier again changes nothing, provided the
    working directory does not occur in it.
  */
  lemma NormalizeIdempotent(identifier: string, cwd: string)
    requires !Contains(Normalize(identifier, cwd), cwd)
    ensures Normalize(Normalize(identifier, cwd), cwd) == Normalize(identifier, cwd)
  {
    var r := Normalize(identifier, cwd);
    NormalizeDropsLoaders(identifier, cwd);
    if Contains(Relativised(identifier, cwd), NodeModules) {
      NormalizeCollapsesNodeModules(identifier, cwd);
    } else {
      NormalizeWithoutNodeModules(identifier, cwd);
    }
    assert !Contains(r, NodeModules);
    NormalizeUnchanged(r, cwd);
  }

  /** An identifier that starts with the working directory and has no `!` gets `.` in its place. */
  lemma RelativisedPrefix(cwd: string, rest: string)
    requires '!' !in cwd + rest
    ensures Relativised(cwd + rest, cwd) == "." + rest
  {
    var s := cwd + rest;
    assert StripLoaders(s) == s by { StripLoadersSpec(s); }
    assert s[..|cwd|] == cwd;
    FirstOccurrence(s, cwd, ".", 0);
    assert s[|cwd|..] == rest;
  }

  lemma PackagePathShape(path: string, x: string)
    requires x == "." + ("/node_modules/" + path)
    ensures x[15..] == path && x[2..14] == NodeModules
    ensures forall j :: 3 <= j < 15 ==> x[j] != 'n'
  {
    var gap := "ode_modules/";
    assert x[..15] == "./node_modules/";
    assert x[3..15] == gap;
    assert 'n' !in gap;
    forall j | 3 <= j < 15 ensures x[j] != 'n' {
      assert x[j] == gap[j - 3];
    }
  }

  /** In `./node_modules/` followed by a path free of `node_modules`, the last occurrence is the visible one. */
  lemma LastNodeModulesOfPackage(path: string)
    requires !Contains(path, NodeModules)
    ensures LastIndexOf("." + ("/node_modules/" + path), NodeModules) == 2
  {
    var x := "." + ("/node_modules/" + path);
    PackagePathShape(path, x);
    assert NodeModules[0] == 'n';
    forall j | 2 < j ensures !OccursAt(x, NodeModules, j) {
      if j < 15 {
        MismatchExcludes(x, NodeModules, j, 0);
      } else {
        OccursInSuffix(x, NodeModules, 15, j);
      }
    }
    LastOccurrence(x, NodeModules, 2);
  }

  /**
    A file of a package installed under the working directory's
    `node_modules` is reported as `~/` followed by its path in the package
    directory; `/abs/project/node_modules/lodash/index.js` under
    `/abs/project` becomes `~/lodash/index.js`.
  */
  lemma NormalizePackageFile(cwd: string, path: string)
    requires '!' !in cwd + ("/node_modules/" + path)
    requires !Contains(path, NodeModules)
    ensures Normalize(cwd + ("/node_modules/" + path), cwd) == "~/" + path
  {
    var rest := "/node_modules/" + path;
    RelativisedPrefix(cwd, rest);
    LastNodeModulesOfPackage(path);
    assert ("." + rest)[14..] == "/" + path;
  }

  /** A string starting with `.` has `node_modules` only where its tail has. */
  lemma DotPrefixKeepsNodeModulesOut(t: string)
    requires !Contains(t, NodeModules)
    ensures !Contains("." + t, NodeModules)
  {
    var x := "." + t;
    assert x[1..] == t;
    forall k ensures !OccursAt(x, NodeModules, k) {
      if k == 0 {
        if |x| > 0 { MismatchExcludes(x, NodeModules, 0, 0); }
      } else if k > 0 {
        OccursInSuffix(x, NodeModules, 1, k);
      }
    }
  }

  lemma RelativisedAfterDot(cwd: string)
    requires cwd != [] && cwd[0] != '.' && '!' !in cwd
    ensures Relativised("." + cwd, cwd) == ".."
  {
    var x := "." + cwd;
    assert StripLoaders(x) == x by { StripLoadersSpec(x); }
    assert x[1..] == cwd;
    assert OccursAt(x, cwd, 1);
    MismatchExcludes(x, cwd, 0, 0);
    FirstOccurrence(x, cwd, ".", 1);
  }

  /**
    Normalisation is not idempotent without the proviso above: with a
    working directory `d` (such as `/a`), `d + d` normalises to `.` + `d`,
    and normalising that again replaces the second `d` as well.
  */
  lemma NormalizeNotIdempotent(cwd: string)
    requires cwd != [] && cwd[0] != '.' && '!' !in cwd && !Contains(cwd, NodeModules)
    ensures Normalize(cwd + cwd, cwd) == "." + cwd
    ensures Normalize("." + cwd, cwd) == ".."
    ensures Normalize(Normalize(cwd + cwd, cwd), cwd) != Normalize(cwd + cwd, cwd)
  {
    RelativisedPrefix(cwd, cwd);
    DotPrefixKeepsNodeModulesOut(cwd);
    NormalizeWithoutNodeModules(cwd + cwd, cwd);
    RelativisedAfterDot(cwd);
    AbsentCharExcludes("..", NodeModules, 'n');
    NormalizeWithoutNodeModules("." + cwd, cwd);
  }
}
