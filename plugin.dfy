// The specifier rewriting of `helper` in src/index.js: skip check, tsconfig
// alias substitution, extension inference against the index of TypeScript
// files, then promotion to an absolute `/` identifier.
module Plugin {
  import opened Wrappers
  import opened PathText
  import opened Utils

  /**
   * What `helper` reads besides the declaration itself, all computed once
   * at start-up: the directory names under `node_modules`, the application's
   * top-level directories, the `paths` mapping of tsconfig.json (absent when
   * there is no usable one) and the index of TypeScript files.
   */
  datatype Config = Config(
    nodeModulesDirNames: set<string>,
    topLevelDirNames: set<string>,
    pathsMapping: Option<map<string, string>>,
    tsFilePaths: seq<string>)

  /** What `helper` does to one declaration: nothing, a new source string, or an exception. */
  datatype Outcome = Unchanged | Rewritten(specifier: string) | Thrown(error: PathError)

  /** The two locals `helper` carries from stage to stage. */
  datatype Ident = Ident(resolvedSourceId: string, importPathFirstElement: string)

  /** `s.split("/", 1)[0]`. */
  function FirstSegment(s: string): string
  {
    BeforeFirst(s, '/')
  }

  /** `s.split("/").pop()`. */
  function LastSegment(s: string): string
  {
    AfterLast(s, '/')
  }

  /** `s.substring(0, s.lastIndexOf("/"))`: "" when `s` holds no `/`. */
  function DirName(s: string): string
  {
    BeforeLast(s, '/')
  }

  predicate IsRelative(s: string)
  {
    "./" <= s || "../" <= s
  }

  /** Meteor package imports and npm module imports are left alone. */
  predicate IsSkipped(spec: string, cfg: Config)
  {
    "meteor/" <= spec || FirstSegment(spec) in cfg.nodeModulesDirNames
  }

  predicate AliasApplies(head: string, cfg: Config)
  {
    cfg.pathsMapping.Some? && head in cfg.pathsMapping.value
  }

  /**
   * The alias stage: the first occurrence of the first segment, which is
   * the leading one, becomes `/` and the mapped value. The first-segment
   * variable keeps its old value.
   */
  function AliasStage(spec: string, cfg: Config): Ident
  {
    var head := FirstSegment(spec);
    if AliasApplies(head, cfg) then
      Ident("/" + cfg.pathsMapping.value[head] + spec[|head|..], head)
    else
      Ident(spec, head)
  }

  /** The `find` callback: the entry is the trimmed candidate plus `.ts` or `.tsx`. */
  predicate IsMatch(entry: string, candidate: string)
  {
    var trimmed := RemoveLeadingAndTrailingSlash(candidate);
    entry == trimmed + ".ts" || entry == trimmed + ".tsx"
  }

  /** `tsFilePaths.find(...)`: the first matching entry, if any. */
  function FindMatch(paths: seq<string>, candidate: string): (r: Option<string>)
    ensures r.None? <==> forall i | 0 <= i < |paths| :: !IsMatch(paths[i], candidate)
    ensures r.Some? ==> IsMatch(r.value, candidate)
    ensures r.Some? ==> exists i | 0 <= i < |paths| ::
      paths[i] == r.value && forall j | 0 <= j < i :: !IsMatch(paths[j], candidate)
    decreases |paths|
  {
    if paths == [] then None
    else if IsMatch(paths[0], candidate) then
      assert paths[0] == paths[0];
      Some(paths[0])
    else
      var r := FindMatch(paths[1..], candidate);
      assert forall i | 1 <= i < |paths| :: paths[1..][i - 1] == paths[i];
      r
  }

  /** The extension appended after a match: `.tsx` when the entry contains `.tsx` anywhere. */
  function ExtensionFor(entry: string): string
  {
    if Contains(entry, ".tsx") then ".tsx" else ".ts"
  }

  /** The path looked up in the index: a relative specifier resolved against the importing file's directory. */
  function Candidate(resolvedSourceId: string, sourceFileName: string): Result<string, PathError>
  {
    if IsRelative(resolvedSourceId) then RelativeResolution(DirName(sourceFileName), resolvedSourceId)
    else Ok(resolvedSourceId)
  }

  /**
   * The extension stage. It runs only when the last segment has no `.`; a
   * relative candidate is first resolved against the directory of the
   * importing file, and a failure there propagates. On a match the result
   * is the candidate with the extension, and the first segment is taken
   * again; without one the identifier is left as it was.
   */
  function ExtensionStage(id: Ident, sourceFileName: string, cfg: Config): Result<Ident, PathError>
  {
    if '.' in LastSegment(id.resolvedSourceId) then Ok(id)
    else
      match Candidate(id.resolvedSourceId, sourceFileName)
      case Err(e) => Err(e)
      case Ok(candidate) =>
        match FindMatch(cfg.tsFilePaths, candidate)
        case None => Ok(id)
        case Some(entry) =>
          var s := candidate + ExtensionFor(entry);
          Ok(Ident(s, FirstSegment(s)))
  }

  /** When the promotion stage prepends `/`. */
  predicate PromotionApplies(id: Ident, cfg: Config)
  {
    && !("/imports/" <= id.resolvedSourceId)
    && id.importPathFirstElement in cfg.topLevelDirNames
    && id.importPathFirstElement !in cfg.nodeModulesDirNames
  }

  /** The promotion stage: exactly one `/` is prepended when it applies, nothing otherwise. */
  function Promote(id: Ident, cfg: Config): (r: string)
    ensures r == "/" + id.resolvedSourceId <==> PromotionApplies(id, cfg)
    ensures r == id.resolvedSourceId <==> !PromotionApplies(id, cfg)
  {
    if PromotionApplies(id, cfg) then "/" + id.resolvedSourceId else id.resolvedSourceId
  }

  /**
   * `helper` on a declaration with source `spec` in the file `sourceFileName`:
   * the stages in order, and a rewrite only when the final string differs.
   */
  function Resolution(spec: string, sourceFileName: string, cfg: Config): (r: Outcome)
    ensures IsSkipped(spec, cfg) ==> r == Unchanged
    ensures r != Rewritten(spec)
  {
    if IsSkipped(spec, cfg) then Unchanged
    else
      match ExtensionStage(AliasStage(spec, cfg), sourceFileName, cfg)
      case Err(e) => Thrown(e)
      case Ok(id) =>
        var final := Promote(id, cfg);
        if final == spec then Unchanged else Rewritten(final)
  }

  /** `tsFilePaths.find(...)` as a loop that stops at the first match. */
  method FindTSFilePath(paths: seq<string>, candidate: string) returns (found: Option<string>)
    ensures found == FindMatch(paths, candidate)
  {
    var trimmed := RemoveLeadingAndTrailingSlash(candidate);
    found := None;
    var i := 0;
    while i < |paths| && found.None?
      invariant 0 <= i <= |paths|
      invariant FindMatch(paths, candidate) == if found.Some? then found else FindMatch(paths[i..], candidate)
    {
      assert paths[i..][0] == paths[i] && paths[i..][1..] == paths[i + 1..];
      var filePath := paths[i];
      if filePath == trimmed + ".ts" || filePath == trimmed + ".tsx" {
        found := Some(filePath);
      }
      i := i + 1;
    }
    if found.None? {
      assert paths[i..] == [];
    }
  }

  /** The extension stage as the source runs it, on the two locals of `helper`. */
  method InferExtension(resolvedSourceId: string, importPathFirstElement: string, sourceFileName: string, cfg: Config)
    returns (r: Result<Ident, PathError>)
    ensures r == ExtensionStage(Ident(resolvedSourceId, importPathFirstElement), sourceFileName, cfg)
  {
    var importedFileName := AfterLast(resolvedSourceId, '/');
    if '.' in importedFileName {
      return Ok(Ident(resolvedSourceId, importPathFirstElement));
    }
    var resolvedRelativePath := resolvedSourceId;
    if "./" <= resolvedRelativePath || "../" <= resolvedRelativePath {
      var currentPath := BeforeLast(sourceFileName, '/');
      var resolution := ResolveRelativePath(currentPath, resolvedRelativePath);
      match resolution {
        case Err(e) =>
          return Err(e);
        case Ok(p) =>
          resolvedRelativePath := p;
      }
    }
    var matchingTSFilePath := FindTSFilePath(cfg.tsFilePaths, resolvedRelativePath);
    match matchingTSFilePath {
      case None =>
        return Ok(Ident(resolvedSourceId, importPathFirstElement));
      case Some(entry) =>
        var s := if Contains(entry, ".tsx") then resolvedRelativePath + ".tsx" else resolvedRelativePath + ".ts";
        return Ok(Ident(s, BeforeFirst(s, '/')));
    }
  }

  /**
   * `helper` as the source runs it: two locals reassigned stage by stage,
   * then a rewrite only when the string changed.
   */
  method Resolve(spec: string, sourceFileName: string, cfg: Config) returns (r: Outcome)
    ensures r == Resolution(spec, sourceFileName, cfg)
  {
    var resolvedSourceId := spec;
    var importPathFirstElement := BeforeFirst(resolvedSourceId, '/');
    if "meteor/" <= resolvedSourceId || importPathFirstElement in cfg.nodeModulesDirNames {
      return Unchanged;
    }
    if cfg.pathsMapping.Some? && importPathFirstElement in cfg.pathsMapping.value {
      resolvedSourceId := "/" + cfg.pathsMapping.value[importPathFirstElement]
        + resolvedSourceId[|importPathFirstElement|..];
    }
    assert Ident(resolvedSourceId, importPathFirstElement) == AliasStage(spec, cfg);
    var inferred := InferExtension(resolvedSourceId, importPathFirstElement, sourceFileName, cfg);
    match inferred {
      case Err(e) =>
        return Thrown(e);
      case Ok(id) =>
        ResolutionOfStages(spec, sourceFileName, cfg, id);
        resolvedSourceId, importPathFirstElement := id.resolvedSourceId, id.importPathFirstElement;
    }
    if !("/imports/" <= resolvedSourceId)
      && importPathFirstElement in cfg.topLevelDirNames
      && importPathFirstElement !in cfg.nodeModulesDirNames
    {
      resolvedSourceId := "/" + resolvedSourceId;
    }
    assert resolvedSourceId == Promote(inferred.value, cfg);
    if resolvedSourceId != spec {
      return Rewritten(resolvedSourceId);
    }
    return Unchanged;
  }

  // ----- Properties of the pipeline -----

  /** When the stages before promotion succeed, the outcome is the promoted string unless it equals the specifier. */
  lemma ResolutionOfStages(spec: string, sourceFileName: string, cfg: Config, id: Ident)
    requires !IsSkipped(spec, cfg) && ExtensionStage(AliasStage(spec, cfg), sourceFileName, cfg) == Ok(id)
    ensures Resolution(spec, sourceFileName, cfg)
      == if Promote(id, cfg) == spec then Unchanged else Rewritten(Promote(id, cfg))
  {
  }

  /** A match in the index yields the candidate plus the extension, with its first segment taken afresh. */
  lemma StageMatch(id: Ident, sourceFileName: string, cfg: Config, candidate: string, entry: string)
    requires '.' !in LastSegment(id.resolvedSourceId)
    requires Candidate(id.resolvedSourceId, sourceFileName) == Ok(candidate)
    requires FindMatch(cfg.tsFilePaths, candidate) == Some(entry)
    ensures var s := candidate + ExtensionFor(entry);
      ExtensionStage(id, sourceFileName, cfg) == Ok(Ident(s, FirstSegment(s)))
  {
  }

  /** Without a match in the index the identifier stays as it was. */
  lemma StageNoMatch(id: Ident, sourceFileName: string, cfg: Config, candidate: string)
    requires Candidate(id.resolvedSourceId, sourceFileName) == Ok(candidate)
    requires FindMatch(cfg.tsFilePaths, candidate) == None
    ensures ExtensionStage(id, sourceFileName, cfg) == Ok(id)
  {
  }

  /**
   * `helper` throws exactly when the specifier is not skipped, no alias
   * applies, its last segment has no `.`, it starts with `../` and it holds
   * more `..` than the importing file's directory holds separators; the
   * error is then the "Cannot resolve" one, never "Invalid relative path".
   */
  lemma ErrorIff(spec: string, sourceFileName: string, cfg: Config)
    ensures Resolution(spec, sourceFileName, cfg).Thrown? <==>
      && !IsSkipped(spec, cfg)
      && !AliasApplies(FirstSegment(spec), cfg)
      && '.' !in LastSegment(spec)
      && "../" <= spec
      && CountDotDot(spec) > Occurrences(DirName(sourceFileName), '/')
    ensures Resolution(spec, sourceFileName, cfg).Thrown? ==>
      Resolution(spec, sourceFileName, cfg).error == UnresolvableRelativePath(spec, DirName(sourceFileName))
  {
    var id := AliasStage(spec, cfg);
    if AliasApplies(FirstSegment(spec), cfg) {
      assert id.resolvedSourceId[0] == '/';
      assert !IsRelative(id.resolvedSourceId);
    } else {
      RelativeResolutionErrors(DirName(sourceFileName), spec);
    }
  }

  /** The suffixes extension inference can add. */
  predicate IsExtension(e: string)
  {
    e == "" || e == ".ts" || e == ".tsx"
  }

  /** `spec` with at most one leading `/` and at most an extension. */
  function Decorations(spec: string): set<string>
  {
    {spec, spec + ".ts", spec + ".tsx", "/" + spec, "/" + spec + ".ts", "/" + spec + ".tsx"}
  }

  /**
   * A specifier that is neither relative nor aliased never throws and is
   * only ever decorated: at most one leading `/` and at most an extension.
   */
  lemma NonRelativeShape(spec: string, sourceFileName: string, cfg: Config)
    requires !IsRelative(spec) && !AliasApplies(FirstSegment(spec), cfg)
    ensures !Resolution(spec, sourceFileName, cfg).Thrown?
    ensures Resolution(spec, sourceFileName, cfg).Rewritten? ==>
      Resolution(spec, sourceFileName, cfg).specifier in Decorations(spec)
  {
    var id := AliasStage(spec, cfg);
    assert id == Ident(spec, FirstSegment(spec));
    if !IsSkipped(spec, cfg) {
      assert Candidate(spec, sourceFileName) == Ok(spec);
      var found := FindMatch(cfg.tsFilePaths, spec);
      assert spec + "" == spec;
      if '.' in LastSegment(spec) {
        StageError(id, sourceFileName, cfg);
        DecoratedOutcome(spec, sourceFileName, cfg, id, "");
      } else if found.None? {
        StageNoMatch(id, sourceFileName, cfg, spec);
        DecoratedOutcome(spec, sourceFileName, cfg, id, "");
      } else {
        var e := ExtensionFor(found.value);
        StageMatch(id, sourceFileName, cfg, spec, found.value);
        DecoratedOutcome(spec, sourceFileName, cfg, Ident(spec + e, FirstSegment(spec + e)), e);
      }
    }
  }

  lemma DecoratedOutcome(spec: string, sourceFileName: string, cfg: Config, id: Ident, e: string)
    requires !IsSkipped(spec, cfg) && ExtensionStage(AliasStage(spec, cfg), sourceFileName, cfg) == Ok(id)
    requires IsExtension(e) && id.resolvedSourceId == spec + e
    ensures !Resolution(spec, sourceFileName, cfg).Thrown?
    ensures Resolution(spec, sourceFileName, cfg).Rewritten? ==>
      Resolution(spec, sourceFileName, cfg).specifier in Decorations(spec)
  {
    ResolutionOfStages(spec, sourceFileName, cfg, id);
    PromotedShape(spec, cfg, id, e);
  }

  lemma PromotedShape(spec: string, cfg: Config, id: Ident, e: string)
    requires IsExtension(e) && id.resolvedSourceId == spec + e
    ensures Promote(id, cfg) in Decorations(spec)
  {
    assert "/" + (spec + e) == "/" + spec + e;
    assert spec + "" == spec && "/" + spec + "" == "/" + spec;
  }

  /** An appended extension shows in the last segment. */
  lemma ExtensionShows(y: string, e: string)
    requires e == ".ts" || e == ".tsx"
    ensures '.' in LastSegment(y + e)
  {
    AfterLastAppend(y, e, '/');
    assert (AfterLast(y, '/') + e)[|AfterLast(y, '/')|] == '.';
  }

  /**
   * A relative specifier that matches an index entry becomes the RESOLVED
   * path plus the extension (not the `./` text plus the extension), with the
   * first segment taken from that new string, and is then promoted or not.
   */
  lemma RelativeMatchUsesResolvedPath(spec: string, sourceFileName: string, cfg: Config, resolved: string, entry: string)
    requires !IsSkipped(spec, cfg) && !AliasApplies(FirstSegment(spec), cfg)
    requires IsRelative(spec) && '.' !in LastSegment(spec)
    requires RelativeResolution(DirName(sourceFileName), spec) == Ok(resolved)
    requires FindMatch(cfg.tsFilePaths, resolved) == Some(entry)
    ensures var s := resolved + ExtensionFor(entry);
      Resolution(spec, sourceFileName, cfg) == Rewritten(Promote(Ident(s, FirstSegment(s)), cfg))
  {
    var s := resolved + ExtensionFor(entry);
    var aliased := AliasStage(spec, cfg);
    assert aliased == Ident(spec, FirstSegment(spec));
    assert Candidate(spec, sourceFileName) == Ok(resolved);
    StageMatch(aliased, sourceFileName, cfg, resolved, entry);
    var id := Ident(s, FirstSegment(s));
    ResolutionOfStages(spec, sourceFileName, cfg, id);
    PromoteKeepsSuffix(id, cfg, resolved, ExtensionFor(entry));
    ExtendedDiffers(spec, if PromotionApplies(id, cfg) then "/" + resolved else resolved, ExtensionFor(entry));
  }

  /** A string ending in an extension differs from a specifier whose last segment has no `.`. */
  lemma ExtendedDiffers(spec: string, t: string, e: string)
    requires '.' !in LastSegment(spec)
    requires e == ".ts" || e == ".tsx"
    ensures t + e != spec
  {
    ExtensionShows(t, e);
  }

  /** Promotion acts at the front, so a trailing extension stays where it was. */
  lemma PromoteKeepsSuffix(id: Ident, cfg: Config, t: string, e: string)
    requires id.resolvedSourceId == t + e
    ensures Promote(id, cfg) == (if PromotionApplies(id, cfg) then "/" + t else t) + e
  {
    assert "/" + (t + e) == ("/" + t) + e;
  }

  /**
   * The extension stage leaves the identifier alone when the last segment
   * has a `.`, and otherwise fails only with the resolver's error for a
   * `../` specifier.
   */
  lemma StageError(id: Ident, sourceFileName: string, cfg: Config)
    ensures '.' in LastSegment(id.resolvedSourceId) ==> ExtensionStage(id, sourceFileName, cfg) == Ok(id)
    ensures ExtensionStage(id, sourceFileName, cfg).Err? ==>
      && "../" <= id.resolvedSourceId
      && ExtensionStage(id, sourceFileName, cfg).error
         == UnresolvableRelativePath(id.resolvedSourceId, DirName(sourceFileName))
  {
    if IsRelative(id.resolvedSourceId) {
      RelativeResolutionErrors(DirName(sourceFileName), id.resolvedSourceId);
    }
  }

  /**
   * A change made by the extension stage is a candidate some index entry
   * matches plus the extension that entry selects; the new string's last
   * segment then has a `.` and its first segment is taken afresh.
   */
  lemma StageRewrite(id: Ident, sourceFileName: string, cfg: Config)
    requires ExtensionStage(id, sourceFileName, cfg).Ok? && ExtensionStage(id, sourceFileName, cfg).value != id
    ensures var next := ExtensionStage(id, sourceFileName, cfg).value;
      && next.importPathFirstElement == FirstSegment(next.resolvedSourceId)
      && '.' in LastSegment(next.resolvedSourceId)
      && exists i, c | 0 <= i < |cfg.tsFilePaths| && IsMatch(cfg.tsFilePaths[i], c) ::
           next.resolvedSourceId == c + ExtensionFor(cfg.tsFilePaths[i])
  {
    var candidate := Candidate(id.resolvedSourceId, sourceFileName).value;
    var entry := FindMatch(cfg.tsFilePaths, candidate).value;
    var e := ExtensionFor(entry);
    StageMatch(id, sourceFileName, cfg, candidate, entry);
    ExtensionShows(candidate, e);
    var i :| 0 <= i < |cfg.tsFilePaths| && cfg.tsFilePaths[i] == entry;
    assert IsMatch(cfg.tsFilePaths[i], candidate);
  }

  /**
   * The alias stage replaces the leading first segment by `/` and the
   * mapped value and keeps the rest of the specifier; the first-segment
   * variable stays the pre-alias one, although the new string's own first
   * segment is "". Without an alias nothing changes.
   */
  lemma AliasStageShape(spec: string, cfg: Config)
    ensures AliasStage(spec, cfg).importPathFirstElement == FirstSegment(spec)
    ensures !AliasApplies(FirstSegment(spec), cfg) ==> AliasStage(spec, cfg).resolvedSourceId == spec
    ensures AliasApplies(FirstSegment(spec), cfg) ==>
      var head := FirstSegment(spec);
      var value := cfg.pathsMapping.value[head];
      var aliased := AliasStage(spec, cfg).resolvedSourceId;
      && "/" + value <= aliased
      && aliased[|value| + 1..] == spec[|head|..]
      && FirstSegment(aliased) == ""
      && aliased != spec
  {
    var head := FirstSegment(spec);
    if AliasApplies(head, cfg) {
      var value := cfg.pathsMapping.value[head];
      var aliased := "/" + value + spec[|head|..];
      assert aliased[0] == '/';
      assert ("/" + value) + spec[|head|..] == aliased;
      if head != [] {
        assert spec[0] == head[0] && head[0] != '/';
      } else {
        assert |aliased| > |spec|;
      }
    }
  }

  /** A string at least as long as the aliased one and starting with `/` differs from the specifier. */
  lemma AliasedDiffers(spec: string, cfg: Config, r: string)
    requires AliasApplies(FirstSegment(spec), cfg)
    requires r != [] && r[0] == '/' && |r| >= |AliasStage(spec, cfg).resolvedSourceId|
    ensures r != spec
  {
    var head := FirstSegment(spec);
    if head != [] {
      assert spec[0] == head[0] && head[0] != '/';
    } else {
      assert |AliasStage(spec, cfg).resolvedSourceId| > |spec|;
    }
  }

  /**
   * The extension stage on an aliased specifier never fails, since the
   * new string starts with `/` and is not relative. It keeps the PRE-alias
   * first segment when the last segment already has a `.` or the index has
   * no match; after a match the first segment is taken afresh, and is "".
   */
  lemma AliasedExtensionStage(spec: string, sourceFileName: string, cfg: Config)
    requires AliasApplies(FirstSegment(spec), cfg)
    ensures var head := FirstSegment(spec);
      var aliased := AliasStage(spec, cfg).resolvedSourceId;
      var next := ExtensionStage(AliasStage(spec, cfg), sourceFileName, cfg);
      && next.Ok?
      && ('.' in LastSegment(aliased) || FindMatch(cfg.tsFilePaths, aliased).None? ==>
            next.value == Ident(aliased, head))
      && ('.' !in LastSegment(aliased) && FindMatch(cfg.tsFilePaths, aliased).Some? ==>
            next.value == Ident(aliased + ExtensionFor(FindMatch(cfg.tsFilePaths, aliased).value), ""))
  {
    AliasStageShape(spec, cfg);
    var id := AliasStage(spec, cfg);
    var aliased := id.resolvedSourceId;
    assert aliased[0] == '/';
    assert !IsRelative(aliased);
    assert Candidate(aliased, sourceFileName) == Ok(aliased);
    var found := FindMatch(cfg.tsFilePaths, aliased);
    if '.' in LastSegment(aliased) {
      StageError(id, sourceFileName, cfg);
    } else if found.None? {
      StageNoMatch(id, sourceFileName, cfg, aliased);
    } else {
      StageMatch(id, sourceFileName, cfg, aliased, found.value);
      var t := aliased + ExtensionFor(found.value);
      assert t[0] == '/';
    }
  }

  /**
   * An aliased specifier is always rewritten, to the promotion of what the
   * extension stage gives. When that stage keeps the PRE-alias first
   * segment, promotion tests the old segment although the new string starts
   * with `/`: a top-level directory there gives a second leading `/`.
   */
  lemma AliasKeepsStaleHead(spec: string, sourceFileName: string, cfg: Config)
    requires !IsSkipped(spec, cfg) && AliasApplies(FirstSegment(spec), cfg)
    ensures var head := FirstSegment(spec);
      var aliased := AliasStage(spec, cfg).resolvedSourceId;
      var next := ExtensionStage(AliasStage(spec, cfg), sourceFileName, cfg);
      && next.Ok?
      && Resolution(spec, sourceFileName, cfg) == Rewritten(Promote(next.value, cfg))
      && ('.' in LastSegment(aliased) || FindMatch(cfg.tsFilePaths, aliased).None? ==>
            Resolution(spec, sourceFileName, cfg)
              == Rewritten(if PromotionApplies(Ident(aliased, head), cfg) then "/" + aliased else aliased))
  {
    AliasStageShape(spec, cfg);
    AliasedExtensionStage(spec, sourceFileName, cfg);
    var aliased := AliasStage(spec, cfg).resolvedSourceId;
    var next := ExtensionStage(AliasStage(spec, cfg), sourceFileName, cfg).value;
    var e := if next.resolvedSourceId == aliased then "" else ExtensionFor(FindMatch(cfg.tsFilePaths, aliased).value);
    assert next.resolvedSourceId == aliased + e;
    PromoteKeepsSuffix(next, cfg, aliased, e);
    var r := Promote(next, cfg);
    assert r[0] == '/' && |r| >= |aliased|;
    AliasedDiffers(spec, cfg, r);
    ResolutionOfStages(spec, sourceFileName, cfg, next);
  }

  /**
   * A second pass leaves alone an output that starts with `/imports/` and
   * whose last segment has a `.`, provided "" is not an alias key.
   */
  lemma SecondPassNoop(s: string, sourceFileName: string, cfg: Config)
    requires "/imports/" <= s && '.' in LastSegment(s) && !AliasApplies("", cfg)
    ensures Resolution(s, sourceFileName, cfg) == Unchanged
  {
    assert s[0] == '/';
    assert FirstSegment(s) == "";
  }

  /** A text shorter than `t` does not contain it. */
  lemma {:induction false} ShortNotContains(s: string, t: string)
    requires |s| < |t|
    ensures !Contains(s, t)
    decreases |s|
  {
    if s != [] {
      ShortNotContains(s[1..], t);
    }
  }

  lemma TsxStartsAfter(c: string)
    ensures ".tsx" <= c + ".ts" <==> ".tsx" <= c
  {
    if |c| >= 4 {
      assert (c + ".ts")[..4] == c[..4];
    } else if |c| >= 1 {
      assert (c + ".ts")[|c|] == '.';
    }
  }

  /** Appending `.ts` never creates a `.tsx`. */
  lemma {:induction false} ContainsTsxAfter(c: string)
    ensures Contains(c + ".ts", ".tsx") <==> Contains(c, ".tsx")
    decreases |c|
  {
    TsxStartsAfter(c);
    if c == [] {
      assert c + ".ts" == ".ts";
      ShortNotContains(".ts", ".tsx");
    } else {
      ContainsTsxAfter(c[1..]);
      assert (c + ".ts")[1..] == c[1..] + ".ts";
    }
  }

  /**
   * The extension choice: an entry matched through `.tsx` always gives
   * `.tsx`; one matched through `.ts` gives `.tsx` exactly when the
   * candidate itself contains `.tsx` somewhere.
   */
  lemma ExtensionChoice(c: string)
    ensures ExtensionFor(c + ".tsx") == ".tsx"
    ensures ExtensionFor(c + ".ts") == ".tsx" <==> Contains(c, ".tsx")
  {
    ContainsIff(c + ".tsx", ".tsx");
    assert (c + ".tsx")[|c|..] == ".tsx";
    ContainsTsxAfter(c);
  }

  /** Text without a `.` does not contain `.tsx`. */
  lemma {:induction false} DotFreeNoTsx(c: string)
    requires '.' !in c
    ensures !Contains(c, ".tsx")
    decreases |c|
  {
    if c != [] {
      assert c[0] != '.';
      DotFreeNoTsx(c[1..]);
    }
  }

  // ----- A specifier rewritten twice -----
  // The lemmas below up to `NotIdempotent` each establish one fact about the
  // literal texts of the example (`BarText`, `AliasedBarText`, ...), so that
  // `FirstPassExample` and `SecondPassExample` only combine them.

  // An index holding `imports/foo/bar.ts` (an entry of the shape the file
  // scan builds), `imports` a top-level directory, no package, and the alias
  // key "" mapped to `lib`: the key a tsconfig `paths` key `/*` strips to.
  function RootAliasConfig(): Config
  {
    Config({}, {"imports"}, Some(map["" := "lib"]), ["imports/foo/bar.ts"])
  }

  lemma DotSlashBarSegments()
    ensures FirstSegment("./bar") == "." && LastSegment("./bar") == "bar"
  {
    assert "./bar"[1] == '/';
    assert "./bar"[..2] == "./";
  }

  lemma ImportingDirectory()
    ensures DirName("imports/foo/z.ts") == "imports/foo"
  {
    assert "imports/foo/z.ts"[11] == '/';
    assert "imports/foo/z.ts"[..11] == "imports/foo";
  }

  lemma DotSlashBarResolves()
    ensures RelativeResolution("imports/foo", "./bar") == Ok("imports/foo/bar")
  {
    assert "./bar"[2..] == "bar";
    assert TrimTrailingSlash("imports/foo") == "imports/foo";
    assert "imports/foo" + "/" + "bar" == "imports/foo/bar";
  }

  lemma BarMatches()
    ensures FindMatch(["imports/foo/bar.ts"], "imports/foo/bar") == Some("imports/foo/bar.ts")
  {
    assert RemoveLeadingAndTrailingSlash("imports/foo/bar") == "imports/foo/bar";
    assert "imports/foo/bar" + ".ts" == "imports/foo/bar.ts";
    assert IsMatch(["imports/foo/bar.ts"][0], "imports/foo/bar");
  }

  lemma BarText()
    ensures "imports/foo/bar" + ".ts" == "imports/foo/bar.ts"
  {
  }

  lemma BarExtension()
    ensures ExtensionFor("imports/foo/bar.ts") == ".ts"
    ensures "imports/foo/bar" + ExtensionFor("imports/foo/bar.ts") == "imports/foo/bar.ts"
  {
    DotFreeNoTsx("imports/foo/bar");
    ExtensionChoice("imports/foo/bar");
    BarText();
  }

  lemma BarHead()
    ensures FirstSegment("imports/foo/bar.ts") == "imports"
  {
    BeforeFirstAt("imports", "foo/bar.ts", '/');
    assert "imports" + "/" + "foo/bar.ts" == "imports/foo/bar.ts";
  }

  lemma FirstPassGuards()
    ensures var cfg := RootAliasConfig();
      && !IsSkipped("./bar", cfg) && !AliasApplies(FirstSegment("./bar"), cfg)
      && IsRelative("./bar") && '.' !in LastSegment("./bar")
  {
    DotSlashBarSegments();
  }

  lemma FirstPassLookup()
    ensures RelativeResolution(DirName("imports/foo/z.ts"), "./bar") == Ok("imports/foo/bar")
    ensures FindMatch(RootAliasConfig().tsFilePaths, "imports/foo/bar") == Some("imports/foo/bar.ts")
  {
    ImportingDirectory();
    DotSlashBarResolves();
    BarMatches();
  }

  lemma BarNotUnderRoot()
    ensures !("/imports/" <= "imports/foo/bar.ts")
  {
    assert "imports/foo/bar.ts"[0] != "/imports/"[0];
  }

  lemma BarPromoted()
    ensures Promote(Ident("imports/foo/bar.ts", "imports"), RootAliasConfig()) == "/imports/foo/bar.ts"
  {
    BarNotUnderRoot();
    assert PromotionApplies(Ident("imports/foo/bar.ts", "imports"), RootAliasConfig());
  }

  lemma FirstPassPromotion()
    ensures var s := "imports/foo/bar" + ExtensionFor("imports/foo/bar.ts");
      Promote(Ident(s, FirstSegment(s)), RootAliasConfig()) == "/imports/foo/bar.ts"
  {
    BarExtension();
    BarHead();
    BarPromoted();
  }

  lemma FirstPassExample()
    ensures Resolution("./bar", "imports/foo/z.ts", RootAliasConfig()) == Rewritten("/imports/foo/bar.ts")
  {
    FirstPassGuards();
    FirstPassLookup();
    RelativeMatchUsesResolvedPath("./bar", "imports/foo/z.ts", RootAliasConfig(), "imports/foo/bar", "imports/foo/bar.ts");
    FirstPassPromotion();
  }

  lemma AbsoluteBarHead()
    ensures FirstSegment("/imports/foo/bar.ts") == "" && !("meteor/" <= "/imports/foo/bar.ts")
  {
    assert "/imports/foo/bar.ts"[0] == '/';
    assert "/imports/foo/bar.ts"[0] != "meteor/"[0];
  }

  lemma AliasedBarText()
    ensures "/" + RootAliasConfig().pathsMapping.value[""] + "/imports/foo/bar.ts"[0..]
      == "/lib/imports/foo/bar.ts"
  {
    assert "/imports/foo/bar.ts"[0..] == "/imports/foo/bar.ts";
    assert "/" + "lib" + "/imports/foo/bar.ts" == "/lib/imports/foo/bar.ts";
  }

  lemma AliasedBarLast()
    ensures LastSegment("/lib/imports/foo/bar.ts") == "bar.ts"
  {
    AfterLastAt("/lib/imports/foo", "bar.ts", '/');
    assert "/lib/imports/foo" + "/" + "bar.ts" == "/lib/imports/foo/bar.ts";
  }

  lemma SecondPassExample()
    ensures Resolution("/imports/foo/bar.ts", "imports/foo/z.ts", RootAliasConfig())
      == Rewritten("/lib/imports/foo/bar.ts")
  {
    AbsoluteBarHead();
    AliasedBarText();
    AliasedBarLast();
    AliasKeepsStaleHead("/imports/foo/bar.ts", "imports/foo/z.ts", RootAliasConfig());
  }

  /**
   * Running `helper` again on its own output can rewrite it again: the
   * relative import `./bar` becomes `/imports/foo/bar.ts`, whose first
   * segment "" is an alias key.
   */
  lemma NotIdempotent()
    ensures var cfg := RootAliasConfig();
      && Resolution("./bar", "imports/foo/z.ts", cfg) == Rewritten("/imports/foo/bar.ts")
      && Resolution("/imports/foo/bar.ts", "imports/foo/z.ts", cfg) == Rewritten("/lib/imports/foo/bar.ts")
  {
    FirstPassExample();
    SecondPassExample();
  }

  // ----- An aliased specifier without an extension -----
  // The lemmas below up to `DoubleSlashExample` each establish one fact about
  // the literal texts of that example, so that the final lemma only combines them.

  /** A mapping `shared` to `lib/shared`, `shared` a top-level directory, an empty index. */
  function SharedAliasConfig(): Config
  {
    Config({}, {"shared"}, Some(map["shared" := "lib/shared"]), [])
  }

  lemma SharedBHead()
    ensures FirstSegment("shared/b") == "shared" && !("meteor/" <= "shared/b")
  {
    assert "shared/b"[6] == '/';
    assert "shared/b"[..6] == "shared";
    assert "shared/b"[0] != "meteor/"[0];
  }

  lemma SharedBAliasedText()
    ensures "/" + "lib/shared" + "shared/b"[|"shared"|..] == "/lib/shared/b"
  {
    assert "shared/b"[6..] == "/b";
    assert "/" + "lib/shared" + "/b" == "/lib/shared/b";
  }

  lemma SharedBPromotion()
    ensures !("/imports/" <= "/lib/shared/b") && "/" + "/lib/shared/b" == "//lib/shared/b"
  {
    assert "/lib/shared/b"[1] != "/imports/"[1];
  }

  lemma SharedBAliased()
    ensures AliasStage("shared/b", SharedAliasConfig()) == Ident("/lib/shared/b", "shared")
  {
    SharedBHead();
    SharedBAliasedText();
  }

  /**
   * `shared/b`, with `shared` aliased to `lib/shared` and a top-level
   * directory, and no index match, becomes `//lib/shared/b`: promotion
   * tests the stale first segment `shared`.
   */
  lemma DoubleSlashExample()
    ensures Resolution("shared/b", "app/a.ts", SharedAliasConfig()) == Rewritten("//lib/shared/b")
  {
    var cfg := SharedAliasConfig();
    SharedBHead();
    SharedBAliased();
    SharedBPromotion();
    assert PromotionApplies(Ident("/lib/shared/b", "shared"), cfg);
    assert FindMatch(cfg.tsFilePaths, "/lib/shared/b") == None;
    AliasKeepsStaleHead("shared/b", "app/a.ts", cfg);
  }
}
