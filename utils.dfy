// The path helpers of src/utils.js: slash trimming, the relative-path
// resolver, the file-name filter of the TypeScript file index and the
// wildcard (`/*`) stripping applied to the tsconfig `paths` mapping.
module Utils {
  import opened Wrappers
  import opened PathText

  /** The two errors `resolveRelativePath` throws. */
  datatype PathError =
    | InvalidRelativePath
    | UnresolvableRelativePath(relativePath: string, currentPath: string)

  /** The `/` that `/^\/` removes, or "". */
  function LeadingSlash(p: string): string
  {
    if "/" <= p then "/" else ""
  }

  /** The `/` that `\/$` removes once the leading one is gone, or "". */
  function TrailingSlash(p: string): string
  {
    if |p| >= 2 && p[|p| - 1] == '/' then "/" else ""
  }

  /**
   * `path.replace(/^\/|\/$/g, "")`: one leading `/` and one trailing `/`
   * are removed, and nothing else; for "/" the single slash is the leading one.
   */
  function RemoveLeadingAndTrailingSlash(p: string): (r: string)
    ensures LeadingSlash(p) + r + TrailingSlash(p) == p
    ensures |p| - 2 <= |r| <= |p|
    ensures !("/" <= p) && !EndsWith(p, "/") ==> r == p
  {
    var rest := if "/" <= p then p[1..] else p;
    if EndsWith(rest, "/") then rest[..|rest| - 1] else rest
  }

  /** `currentPath.replace(/\/$/, "")`: drops one trailing `/`. */
  function TrimTrailingSlash(p: string): (r: string)
    ensures r + (if EndsWith(p, "/") then "/" else "") == p
  {
    if EndsWith(p, "/") then p[..|p| - 1] else p
  }

  /** `relativePath.match(/\.\./g).length`: non-overlapping `..` anywhere, scanned left to right. */
  function CountDotDot(s: string): nat
    decreases |s|
  {
    if |s| >= 2 && s[0] == '.' && s[1] == '.' then 1 + CountDotDot(s[2..])
    else if s == [] then 0
    else CountDotDot(s[1..])
  }

  /** `relativePath.replace(/\.\.\//g, "")`: one left-to-right pass deleting every `../`. */
  function RemoveParentRefs(s: string): string
    decreases |s|
  {
    if |s| >= 3 && s[0] == '.' && s[1] == '.' && s[2] == '/' then RemoveParentRefs(s[3..])
    else if s == [] then []
    else [s[0]] + RemoveParentRefs(s[1..])
  }

  /** `resolveRelativePath(currentPath, relativePath)` as a value: the path or the error it throws. */
  function RelativeResolution(currentPath: string, relativePath: string): Result<string, PathError>
  {
    if "./" <= relativePath then
      Ok(TrimTrailingSlash(currentPath) + "/" + relativePath[2..])
    else if "../" <= relativePath then
      var elements := Split(currentPath, '/');
      var k := CountDotDot(relativePath);
      if |elements| <= 1 || k > |elements| - 1 then
        Err(UnresolvableRelativePath(relativePath, currentPath))
      else
        Ok(Join(elements[..|elements| - k], '/') + "/" + RemoveParentRefs(relativePath))
    else
      Err(InvalidRelativePath)
  }

  /**
   * The resolver as the source runs it: `output` is assigned per branch and
   * the `..` count is applied by popping that many path elements.
   */
  method ResolveRelativePath(currentPath: string, relativePath: string) returns (r: Result<string, PathError>)
    ensures r == RelativeResolution(currentPath, relativePath)
  {
    var isCurrentPath := "./" <= relativePath;
    var isParentPath := "../" <= relativePath;
    PrefixesExclusive(relativePath);
    var output := "";
    if !isCurrentPath && !isParentPath {
      return Err(InvalidRelativePath);
    }
    var currentPathWithoutTrailingSlash := TrimTrailingSlash(currentPath);
    if isCurrentPath {
      output := currentPathWithoutTrailingSlash + "/" + relativePath[2..];
    }
    if isParentPath {
      var currentPathElements := Split(currentPath, '/');
      ghost var elements := currentPathElements;
      var numberOfUpperDirectoryNavigations := CountDotDot(relativePath);
      if |currentPathElements| <= 1 || numberOfUpperDirectoryNavigations > |currentPathElements| - 1 {
        return Err(UnresolvableRelativePath(relativePath, currentPath));
      }
      for i := 0 to numberOfUpperDirectoryNavigations
        invariant currentPathElements == elements[..|elements| - i]
      {
        currentPathElements := currentPathElements[..|currentPathElements| - 1];
      }
      output := Join(currentPathElements, '/') + "/" + RemoveParentRefs(relativePath);
    }
    return Ok(output);
  }

  /** A path cannot start with both `./` and `../`. */
  lemma PrefixesExclusive(s: string)
    ensures !("./" <= s && "../" <= s)
  {
    if "../" <= s {
      assert s[1] == '.';
    }
  }

  lemma ParentPrefixCounts(s: string)
    requires "../" <= s
    ensures CountDotDot(s) >= 1
  {
    assert ".." <= s;
  }

  /**
   * The error cases: "Invalid relative path" exactly when neither `./` nor
   * `../` starts the path; a `./` path always resolves; a `../` path fails
   * exactly when it holds more `..` than `currentPath` holds separators.
   */
  lemma RelativeResolutionErrors(currentPath: string, relativePath: string)
    ensures RelativeResolution(currentPath, relativePath) == Err(InvalidRelativePath)
      <==> !("./" <= relativePath) && !("../" <= relativePath)
    ensures "./" <= relativePath ==> RelativeResolution(currentPath, relativePath).Ok?
    ensures "../" <= relativePath ==>
      (RelativeResolution(currentPath, relativePath).Err? <==> CountDotDot(relativePath) > Occurrences(currentPath, '/'))
    ensures "../" <= relativePath && RelativeResolution(currentPath, relativePath).Err? ==>
      RelativeResolution(currentPath, relativePath).error == UnresolvableRelativePath(relativePath, currentPath)
  {
    PrefixesExclusive(relativePath);
    if "../" <= relativePath {
      ParentPrefixCounts(relativePath);
    }
  }

  /**
   * A `./` path resolves to `currentPath` without one trailing `/`, then
   * `/`, then the path after its leading `./`.
   */
  lemma CurrentDirectoryResolution(currentPath: string, relativePath: string)
    requires "./" <= relativePath
    ensures var r := RelativeResolution(currentPath, relativePath);
      r.Ok? && EndsWith(r.value, "/" + relativePath[2..]) &&
      r.value[..|r.value| - |relativePath| + 1] + (if EndsWith(currentPath, "/") then "/" else "") == currentPath
  {
    var r := RelativeResolution(currentPath, relativePath);
    var base := TrimTrailingSlash(currentPath);
    assert r.value == base + ("/" + relativePath[2..]);
    assert r.value[..|r.value| - |relativePath| + 1] == base;
  }

  /**
   * A `../` path that resolves yields a prefix `a` of `currentPath` (its
   * first elements − k segments, at least one of them surviving), then
   * `/`, then the path with every `../` deleted. `a` is followed in
   * `currentPath` by a `/` and by exactly k separators in all.
   */
  lemma ParentDirectoryResolution(currentPath: string, relativePath: string)
    requires "../" <= relativePath
    requires CountDotDot(relativePath) <= Occurrences(currentPath, '/')
    ensures var r := RelativeResolution(currentPath, relativePath);
      var elements := Split(currentPath, '/');
      var k := CountDotDot(relativePath);
      var a := Join(elements[..|elements| - k], '/');
      r.Ok? && r.value == a + "/" + RemoveParentRefs(relativePath) &&
      |elements| - k >= 1 && a <= currentPath && |a| < |currentPath| && currentPath[|a|] == '/' &&
      Occurrences(currentPath[|a|..], '/') == k
  {
    var elements := Split(currentPath, '/');
    var k := CountDotDot(relativePath);
    ParentResolutionValue(currentPath, relativePath);
    ParentPrefixCounts(relativePath);
    JoinOfLeadingPieces(currentPath, '/', |elements| - k);
  }

  lemma ParentResolutionValue(currentPath: string, relativePath: string)
    requires "../" <= relativePath
    requires CountDotDot(relativePath) <= Occurrences(currentPath, '/')
    ensures var elements := Split(currentPath, '/');
      RelativeResolution(currentPath, relativePath)
        == Ok(Join(elements[..|elements| - CountDotDot(relativePath)], '/') + "/" + RemoveParentRefs(relativePath))
  {
    ParentPrefixCounts(relativePath);
    ParentBranchOk(currentPath, relativePath);
  }

  /** The `../` branch of the resolver when neither error guard fires. */
  lemma ParentBranchOk(currentPath: string, relativePath: string)
    requires "../" <= relativePath
    requires 1 <= CountDotDot(relativePath) <= Occurrences(currentPath, '/')
    ensures var elements := Split(currentPath, '/');
      RelativeResolution(currentPath, relativePath)
        == Ok(Join(elements[..|elements| - CountDotDot(relativePath)], '/') + "/" + RemoveParentRefs(relativePath))
  {
    PrefixesExclusive(relativePath);
  }

  lemma ParentRefStep(x: string)
    ensures CountDotDot("../" + x) == 1 + CountDotDot(x)
    ensures RemoveParentRefs("../" + x) == RemoveParentRefs(x)
  {
    assert ".." <= "../" + x && "../" <= "../" + x;
    assert ("/" + x)[0] == '/';
    assert ("../" + x)[2..] == "/" + x;
    assert ("/" + x)[1..] == x;
    assert ("../" + x)[3..] == x;
  }

  /** Text holding no `..` counts none and loses nothing to the `../` deletion. */
  lemma {:induction false} NoParentRefs(t: string)
    requires !Contains(t, "..")
    ensures CountDotDot(t) == 0
    ensures RemoveParentRefs(t) == t
    decreases |t|
  {
    if t != [] {
      NoParentRefs(t[1..]);
      assert [t[0]] + t[1..] == t;
    }
  }

  /** `k` copies of `s`. */
  function Repeat(s: string, k: nat): string
  {
    if k == 0 then "" else s + Repeat(s, k - 1)
  }

  lemma {:induction false} LeadingParentRefs(k: nat, tail: string)
    requires !Contains(tail, "..")
    ensures CountDotDot(Repeat("../", k) + tail) == k
    ensures RemoveParentRefs(Repeat("../", k) + tail) == tail
  {
    if k == 0 {
      assert Repeat("../", k) + tail == tail;
      NoParentRefs(tail);
    } else {
      LeadingParentRefs(k - 1, tail);
      assert Repeat("../", k) + tail == "../" + (Repeat("../", k - 1) + tail);
      ParentRefStep(Repeat("../", k - 1) + tail);
    }
  }

  /**
   * For the usual shape, k leading `../` followed by text without `..`,
   * the resolver drops the last k segments of `currentPath` and appends
   * the text: the count and the deletion then agree with the leading part.
   */
  lemma ConventionalParentPath(currentPath: string, k: nat, tail: string)
    requires 1 <= k <= Occurrences(currentPath, '/')
    requires !Contains(tail, "..")
    ensures var elements := Split(currentPath, '/');
      RelativeResolution(currentPath, Repeat("../", k) + tail)
        == Ok(Join(elements[..|elements| - k], '/') + "/" + tail)
  {
    LeadingParentRefs(k, tail);
    RepeatStartsWithParent(k, tail);
    ParentResolvesTo(currentPath, Repeat("../", k) + tail, k, tail);
  }

  lemma ParentResolvesTo(currentPath: string, relativePath: string, k: nat, rest: string)
    requires "../" <= relativePath && CountDotDot(relativePath) == k <= Occurrences(currentPath, '/')
    requires RemoveParentRefs(relativePath) == rest
    ensures var elements := Split(currentPath, '/');
      RelativeResolution(currentPath, relativePath) == Ok(Join(elements[..|elements| - k], '/') + "/" + rest)
  {
    ParentResolutionValue(currentPath, relativePath);
  }

  lemma RepeatStartsWithParent(k: nat, tail: string)
    requires k >= 1
    ensures "../" <= Repeat("../", k) + tail
  {
    assert Repeat("../", k) + tail == "../" + (Repeat("../", k - 1) + tail);
  }

  /** A part without dots is neither counted nor changed. */
  lemma {:induction false} DotFreeStep(a: string, b: string)
    requires '.' !in a
    ensures CountDotDot(a + b) == CountDotDot(b)
    ensures RemoveParentRefs(a + b) == a + RemoveParentRefs(b)
    decreases |a|
  {
    if a == [] {
      assert a + b == b;
    } else {
      DotFreeStep(a[1..], b);
      ConsShift(a, b, RemoveParentRefs(b));
    }
  }

  lemma ConsShift(a: string, b: string, c: string)
    requires a != []
    ensures (a + b)[1..] == a[1..] + b && (a + b)[0] == a[0]
    ensures [a[0]] + (a[1..] + c) == a + c
  {
  }

  /** A lone `.` before a character other than `.` is neither counted nor changed. */
  lemma SingleDotStep(u: string)
    requires u != [] && u[0] != '.'
    ensures CountDotDot("." + u) == CountDotDot(u)
    ensures RemoveParentRefs("." + u) == "." + RemoveParentRefs(u)
  {
    assert ("." + u)[1] == u[0];
    assert ("." + u)[1..] == u;
  }

  /** The `..` count and the `../` deletion are global, not limited to the leading part. */
  lemma GlobalParentRefs()
    ensures CountDotDot("../a/../b") == 2
    ensures RemoveParentRefs("../a/../b") == "a/b"
  {
    assert "../a/../b" == "../" + ("a/" + ("../" + "b"));
    DotFreeStep("b", "");
    assert "b" + "" == "b";
    ParentRefStep("b");
    DotFreeStep("a/", "../" + "b");
    ParentRefStep("a/" + ("../" + "b"));
  }

  /**
   * A `../` path resolves to the first `|e| - k` pieces of `currentPath`,
   * joined, then `/`, then the path with its `../` removed.
   */
  lemma ParentResolutionFromPieces(currentPath: string, relativePath: string, k: nat, rest: string,
                                   e: seq<string>, resolved: string)
    requires "../" <= relativePath && CountDotDot(relativePath) == k && RemoveParentRefs(relativePath) == rest
    requires Split(currentPath, '/') == e && k < |e|
    requires Join(e[..|e| - k], '/') + "/" + rest == resolved
    ensures RelativeResolution(currentPath, relativePath) == Ok(resolved)
  {
    ParentResolvesTo(currentPath, relativePath, k, rest);
  }

  lemma JoinPair(a: string, b: string, sep: char)
    ensures Join([a, b], sep) == a + [sep] + b
  {
    assert [a, b][1..] == [b];
  }

  // ----- Worked examples of the resolver -----
  // The small lemmas below each establish one fact about the literal texts of
  // the examples (`StuffText`, `BazText`, `TsPlain`, ...), so that the example
  // lemmas themselves only combine facts.

  lemma TsPlain()
    ensures CountDotDot(".ts") == 0 && RemoveParentRefs(".ts") == ".ts"
  {
    DotFreeStep("ts", "");
    assert "ts" + "" == "ts";
    SingleDotStep("ts");
    assert "." + "ts" == ".ts";
  }

  /** A dot-free name with the `.ts` extension holds no `..`. */
  lemma NamePlain(name: string)
    requires '.' !in name
    ensures CountDotDot(name + ".ts") == 0 && RemoveParentRefs(name + ".ts") == name + ".ts"
  {
    TsPlain();
    DotFreeStep(name, ".ts");
  }

  /** One `../` in front of a path without `..`. */
  lemma PlainParentRef(x: string)
    requires CountDotDot(x) == 0 && RemoveParentRefs(x) == x
    ensures "../" <= "../" + x && CountDotDot("../" + x) == 1 && RemoveParentRefs("../" + x) == x
  {
    ParentRefStep(x);
  }

  lemma StuffText()
    ensures "../" + ("stuff" + ".ts") == "../stuff.ts" && "stuff" + ".ts" == "stuff.ts" && '.' !in "stuff"
  {
  }

  lemma BazText()
    ensures "../" + ("baz" + ".ts") == "../baz.ts" && "baz" + ".ts" == "baz.ts" && '.' !in "baz"
  {
  }

  lemma StuffParentRef()
    ensures "../" <= "../stuff.ts" && CountDotDot("../stuff.ts") == 1 && RemoveParentRefs("../stuff.ts") == "stuff.ts"
  {
    StuffText();
    NamePlain("stuff");
    PlainParentRef("stuff" + ".ts");
  }

  lemma BazParentRef()
    ensures "../" <= "../baz.ts" && CountDotDot("../baz.ts") == 1 && RemoveParentRefs("../baz.ts") == "baz.ts"
  {
    BazText();
    NamePlain("baz");
    PlainParentRef("baz" + ".ts");
  }

  lemma BesideImportsFoo(name: string)
    ensures Join(["imports", "foo", "bar"][..2], '/') + "/" + name == "imports/foo/" + name
  {
    var e := ["imports", "foo", "bar"];
    assert e[..2] == ["imports", "foo"];
    JoinPair("imports", "foo", '/');
    assert "imports" + ['/'] + "foo" + "/" == "imports/foo/";
  }

  lemma StuffBesideImportsFoo()
    ensures Join(["imports", "foo", "bar"][..2], '/') + "/" + "stuff.ts" == "imports/foo/stuff.ts"
  {
    BesideImportsFoo("stuff.ts");
  }

  lemma BazBesideImportsFoo()
    ensures Join(["imports", "foo", "bar"][..2], '/') + "/" + "baz.ts" == "imports/foo/baz.ts"
  {
    BesideImportsFoo("baz.ts");
  }

  /** The worked example of the resolver's documentation. */
  lemma DocumentedExample()
    ensures RelativeResolution("imports/foo/bar", "../stuff.ts") == Ok("imports/foo/stuff.ts")
  {
    StuffParentRef();
    ImportsFooBar();
    StuffBesideImportsFoo();
    ParentResolutionFromPieces("imports/foo/bar", "../stuff.ts", 1, "stuff.ts",
                               ["imports", "foo", "bar"], "imports/foo/stuff.ts");
  }

  /** A sibling file resolves beside the directory. */
  lemma SiblingExample()
    ensures RelativeResolution("imports/foo/bar", "../baz.ts") == Ok("imports/foo/baz.ts")
  {
    BazParentRef();
    ImportsFooBar();
    BazBesideImportsFoo();
    ParentResolutionFromPieces("imports/foo/bar", "../baz.ts", 1, "baz.ts",
                               ["imports", "foo", "bar"], "imports/foo/baz.ts");
  }

  /** Climbing above a one-segment path fails and names both paths. */
  lemma ClimbingExample()
    ensures RelativeResolution("imports", "../../x") == Err(UnresolvableRelativePath("../../x", "imports"))
  {
    assert "../" + ("../" + "x") == "../../x";
    ParentRefStep("../" + "x");
    ParentRefStep("x");
    assert CountDotDot("x") == 0;
    NoOccurrences("imports", '/');
    RelativeResolutionErrors("imports", "../../x");
  }

  /**
   * The file-name filter of `getTSFilePaths`: the name does not end in
   * `.d.ts` and `name.split(".").pop()` is `ts` or `tsx`.
   */
  function IsTSFileName(name: string): bool
  {
    !EndsWith(name, ".d.ts") && AfterLast(name, '.') in {"ts", "tsx"}
  }

  lemma ExtensionIs(name: string, ext: string)
    requires ext == "ts" || ext == "tsx"
    ensures AfterLast(name, '.') == ext <==> name == ext || EndsWith(name, "." + ext)
  {
    assert '.' !in ext;
    if AfterLast(name, '.') == ext && name != ext {
      ExtensionAfterDot(name, ext);
    }
    if EndsWith(name, "." + ext) {
      DotThenExtension(name, ext);
    }
  }

  lemma ExtensionAfterDot(name: string, ext: string)
    requires '.' !in ext && AfterLast(name, '.') == ext && name != ext
    ensures EndsWith(name, "." + ext)
  {
    var n, l := |name|, |ext|;
    assert l < n;
    assert name[n - l - 1..] == [name[n - l - 1]] + name[n - l..];
  }

  lemma DotThenExtension(name: string, ext: string)
    requires '.' !in ext && EndsWith(name, "." + ext)
    ensures AfterLast(name, '.') == ext
  {
    var x := name[..|name| - |ext|];
    assert name == x + ext;
    assert AfterLast(x, '.') == [];
    AfterLastAppend(x, ext, '.');
    assert [] + ext == ext;
  }

  /**
   * The filter in plain terms: files ending in `.tsx`, files ending in
   * `.ts` but not `.d.ts`, and also the dot-less names `ts` and `tsx`
   * (for which `split(".").pop()` is the whole name).
   */
  lemma IsTSFileNameIff(name: string)
    ensures IsTSFileName(name) <==>
      name == "ts" || name == "tsx" ||
      (EndsWith(name, ".ts") && !EndsWith(name, ".d.ts")) || EndsWith(name, ".tsx")
  {
    var e := AfterLast(name, '.');
    assert "." + "ts" == ".ts" && "." + "tsx" == ".tsx";
    ExtensionIs(name, "ts");
    ExtensionIs(name, "tsx");
    assert e in {"ts", "tsx"} <==> e == "ts" || e == "tsx";
    var tsx := EndsWith(name, ".tsx");
    var dts := EndsWith(name, ".d.ts");
    assert tsx ==> !dts by {
      if tsx {
        assert name[|name| - 1] == 'x';
      }
    }
  }

  // `s.replace("/*", "")`: the first `/*`, wherever it stands, is removed.
  function StripWildcard(s: string): string
    decreases |s|
  {
    if |s| >= 2 && s[0] == '/' && s[1] == '*' then s[2..]
    else if s == [] then []
    else [s[0]] + StripWildcard(s[1..])
  }

  // Without a `/*` the text is kept; otherwise exactly the first `/*` is cut out.
  lemma {:induction false} StripWildcardCutsFirst(s: string)
    ensures !Contains(s, "/*") ==> StripWildcard(s) == s
    ensures Contains(s, "/*") ==> exists i | 0 <= i < |s| - 1 ::
      "/*" <= s[i..] && !Contains(s[..i + 1], "/*") && StripWildcard(s) == s[..i] + s[i + 2..]
    decreases |s|
  {
    if "/*" <= s {
      WildcardAtStart(s);
    } else if s != [] {
      StripWildcardCutsFirst(s[1..]);
      assert [s[0]] + s[1..] == s;
      if Contains(s, "/*") {
        var j :| 0 <= j < |s[1..]| - 1 && "/*" <= s[1..][j..] && !Contains(s[1..][..j + 1], "/*")
          && StripWildcard(s[1..]) == s[1..][..j] + s[1..][j + 2..];
        WildcardLater(s, j);
      }
    }
  }

  lemma WildcardAtStart(s: string)
    requires "/*" <= s
    ensures "/*" <= s[0..] && !Contains(s[..1], "/*") && StripWildcard(s) == s[..0] + s[2..]
  {
    assert s[0..] == s && s[..0] == [];
    assert s[..1] == [s[0]];
    assert [s[0]][1..] == [];
  }

  lemma WildcardLater(s: string, j: nat)
    requires !("/*" <= s) && 0 <= j < |s| - 2
    requires "/*" <= s[1..][j..] && !Contains(s[1..][..j + 1], "/*")
    requires StripWildcard(s[1..]) == s[1..][..j] + s[1..][j + 2..]
    ensures "/*" <= s[j + 1..] && !Contains(s[..j + 2], "/*") && StripWildcard(s) == s[..j + 1] + s[j + 3..]
  {
    NoEarlierWildcard(s, j);
    assert StripWildcard(s) == [s[0]] + StripWildcard(s[1..]);
    CutShifted(s, j);
  }

  lemma NoEarlierWildcard(s: string, j: nat)
    requires !("/*" <= s) && 0 <= j < |s| - 2
    requires "/*" <= s[1..][j..] && !Contains(s[1..][..j + 1], "/*")
    ensures "/*" <= s[j + 1..] && !Contains(s[..j + 2], "/*")
  {
    assert s[1..][j..] == s[j + 1..];
    assert s[..j + 2][1..] == s[1..][..j + 1];
    assert !("/*" <= s[..j + 2]) by {
      assert s[..j + 2][..2] == s[..2];
    }
  }

  lemma CutShifted(s: string, j: nat)
    requires 0 <= j < |s| - 2
    ensures [s[0]] + (s[1..][..j] + s[1..][j + 2..]) == s[..j + 1] + s[j + 3..]
  {
    assert [s[0]] + s[1..][..j] == s[..j + 1];
    assert s[1..][j + 2..] == s[j + 3..];
  }

  datatype MappingError = MissingTarget(key: string)

  /** The key of entry `i` once stripped. */
  function StrippedKey(entries: seq<(string, seq<string>)>, i: nat): string
    requires i < |entries|
  {
    StripWildcard(entries[i].0)
  }

  /** No later entry strips to the same key as entry `i`, so entry `i` is the one kept. */
  predicate LastWithKey(entries: seq<(string, seq<string>)>, i: nat, upTo: nat)
    requires i < upTo <= |entries|
  {
    forall j | i < j < upTo :: StrippedKey(entries, j) != StrippedKey(entries, i)
  }

  /**
   * Whether assigning `key` on the plain object `{}` creates an own key:
   * `__proto__` instead runs the inherited setter, which ignores a string.
   */
  predicate CreatesOwnKey(key: string)
  {
    key != "__proto__"
  }

  /** The keys stored after the first `n` entries. */
  function StoredKeys(entries: seq<(string, seq<string>)>, n: nat): set<string>
    requires n <= |entries|
  {
    set j | 0 <= j < n && CreatesOwnKey(StrippedKey(entries, j)) :: StrippedKey(entries, j)
  }

  /** After the first `n` entries, each stored key holds the stripped target of the last entry with that key. */
  predicate ValuesKept(entries: seq<(string, seq<string>)>, n: nat, resolved: map<string, string>)
    requires n <= |entries|
  {
    forall j | 0 <= j < n && LastWithKey(entries, j, n) && CreatesOwnKey(StrippedKey(entries, j)) && entries[j].1 != [] ::
      StrippedKey(entries, j) in resolved && resolved[StrippedKey(entries, j)] == StripWildcard(entries[j].1[0])
  }

  lemma StoredKeysStep(entries: seq<(string, seq<string>)>, n: nat)
    requires n < |entries|
    ensures StoredKeys(entries, n + 1)
      == StoredKeys(entries, n) + (if CreatesOwnKey(StrippedKey(entries, n)) then {StrippedKey(entries, n)} else {})
  {
  }

  lemma ValuesStep(entries: seq<(string, seq<string>)>, n: nat, resolved: map<string, string>, next: map<string, string>)
    requires n < |entries| && entries[n].1 != [] && ValuesKept(entries, n, resolved)
    requires var key := StrippedKey(entries, n);
      next == if CreatesOwnKey(key) then resolved[key := StripWildcard(entries[n].1[0])] else resolved
    ensures ValuesKept(entries, n + 1, next)
  {
    var key := StrippedKey(entries, n);
    forall j | 0 <= j < n + 1 && LastWithKey(entries, j, n + 1) && CreatesOwnKey(StrippedKey(entries, j)) && entries[j].1 != []
      ensures StrippedKey(entries, j) in next && next[StrippedKey(entries, j)] == StripWildcard(entries[j].1[0])
    {
      if j < n {
        assert LastWithKey(entries, j, n);
        assert StrippedKey(entries, j) != key;
      }
    }
  }

  // Text without a `/` keeps all of itself before a trailing `/*` and loses the `/*`.
  lemma {:induction false} StripTrailingWildcard(x: string)
    requires '/' !in x
    ensures StripWildcard(x + "/*") == x
    decreases |x|
  {
    if x == [] {
      assert x + "/*" == "/*";
    } else {
      assert (x + "/*")[1..] == x[1..] + "/*";
      StripTrailingWildcard(x[1..]);
      assert [x[0]] + x[1..] == x;
    }
  }

  // The tsconfig key `__proto__/*` strips to a key that stores nothing.
  lemma ProtoKeyDropped()
    ensures StripWildcard("__proto__/*") == "__proto__" && !CreatesOwnKey(StripWildcard("__proto__/*"))
  {
    assert '/' !in "__proto__";
    StripTrailingWildcard("__proto__");
    assert "__proto__" + "/*" == "__proto__/*";
  }

  /** What the loop's invariants give once every entry has been stored. */
  lemma StoredMapping(entries: seq<(string, seq<string>)>, resolved: map<string, string>)
    requires MappingState(entries, |entries|, resolved)
    ensures !exists i | 0 <= i < |entries| :: entries[i].1 == []
    ensures resolved.Keys == set i | 0 <= i < |entries| && CreatesOwnKey(StrippedKey(entries, i)) :: StrippedKey(entries, i)
    ensures "__proto__" !in resolved
    ensures forall i | 0 <= i < |entries| && LastWithKey(entries, i, |entries|) && CreatesOwnKey(StrippedKey(entries, i)) ::
      entries[i].1 != [] && resolved[StrippedKey(entries, i)] == StripWildcard(entries[i].1[0])
  {
  }

  /** The loop's state after the first `n` entries: all had a target, and the map holds what they stored. */
  predicate MappingState(entries: seq<(string, seq<string>)>, n: nat, resolved: map<string, string>)
    requires n <= |entries|
  {
    && (forall j | 0 <= j < n :: entries[j].1 != [])
    && resolved.Keys == StoredKeys(entries, n)
    && ValuesKept(entries, n, resolved)
  }

  lemma MappingStep(entries: seq<(string, seq<string>)>, n: nat, resolved: map<string, string>, next: map<string, string>)
    requires n < |entries| && entries[n].1 != [] && MappingState(entries, n, resolved)
    requires var key := StrippedKey(entries, n);
      next == if CreatesOwnKey(key) then resolved[key := StripWildcard(entries[n].1[0])] else resolved
    ensures MappingState(entries, n + 1, next)
  {
    StoredKeysStep(entries, n);
    ValuesStep(entries, n, resolved, next);
  }

  /** The first entry without a target is the one the error names. */
  lemma FirstEmptyTarget(entries: seq<(string, seq<string>)>, n: nat)
    requires n < |entries| && entries[n].1 == [] && forall j | 0 <= j < n :: entries[j].1 != []
    ensures exists i | 0 <= i < |entries| ::
      entries[i].1 == [] && MissingTarget(entries[n].0) == MissingTarget(entries[i].0) &&
      forall j | 0 <= j < i :: entries[j].1 != []
  {
  }

  // The `forEach` of `getTSPathsMapping` over the entries of
  // `compilerOptions.paths`: each key and the first element of its array
  // lose their first `/*`, and a later entry overwrites an earlier one with
  // the same stripped key. A stripped key `__proto__` creates no entry of
  // the resulting object. For an empty array the destructuring gives
  // `undefined`, and calling `replace` on it throws a TypeError. That error
  // names no key: `MissingTarget` records the key so that the model can say
  // which entry failed.
  method ResolvedPathsMapping(entries: seq<(string, seq<string>)>) returns (r: Result<map<string, string>, MappingError>)
    ensures r.Err? <==> exists i | 0 <= i < |entries| :: entries[i].1 == []
    ensures r.Err? ==> exists i | 0 <= i < |entries| ::
      entries[i].1 == [] && r.error == MissingTarget(entries[i].0) &&
      forall j | 0 <= j < i :: entries[j].1 != []
    ensures r.Ok? ==> r.value.Keys == set i | 0 <= i < |entries| && CreatesOwnKey(StrippedKey(entries, i)) :: StrippedKey(entries, i)
    ensures r.Ok? ==> "__proto__" !in r.value
    ensures r.Ok? ==> forall i | 0 <= i < |entries| && LastWithKey(entries, i, |entries|) && CreatesOwnKey(StrippedKey(entries, i)) ::
      entries[i].1 != [] && r.value[StrippedKey(entries, i)] == StripWildcard(entries[i].1[0])
  {
    var resolved: map<string, string> := map[];
    for n := 0 to |entries|
      invariant MappingState(entries, n, resolved)
    {
      if entries[n].1 == [] {
        FirstEmptyTarget(entries, n);
        return Err(MissingTarget(entries[n].0));
      }
      var key := StrippedKey(entries, n);
      var value := StripWildcard(entries[n].1[0]);
      ghost var before := resolved;
      if CreatesOwnKey(key) {
        resolved := resolved[key := value];
      }
      MappingStep(entries, n, before, resolved);
    }
    StoredMapping(entries, resolved);
    return Ok(resolved);
  }

}
