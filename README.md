# babel-plugin-meteor-typescript-import-transform, modelled in Dafny

This is a Babel plugin for Meteor applications written in TypeScript. For
every `import`/`export … from` declaration, `helper` in `src/index.js`
rewrites the source string in four stages:

1. It leaves npm module and `meteor/…` package imports alone.
2. It substitutes a tsconfig `paths` alias for the first path segment.
3. When the last segment has no `.`, it resolves a `./` or `../` specifier
   against the importing file's directory (`resolveRelativePath` in
   `src/utils.js`). It then looks the result up in the index of `.ts`/`.tsx`
   files. On a match it appends `.tsx` when the entry contains `.tsx`, and
   `.ts` otherwise.
4. It prepends `/` when the first-segment variable names a top-level
   directory of the application that is not also a `node_modules` directory
   name, unless the string already starts with `/imports/`.

The declaration is rewritten only when the final string differs from the
original.

The project has four modules:

- `Wrappers` (`wrappers.dfy`): `Option` and `Result`.
- `PathText` (`path_text.dfy`): the JavaScript string operations the plugin
  relies on, written as functions on `seq<char>`. These are `split`/`join`,
  `split(sep, 1)[0]`, `split(sep).pop()`, `substring(0, lastIndexOf(sep))`
  and `includes`.
- `Utils` (`utils.dfy`): the helpers of `src/utils.js`:
  - slash trimming;
  - the relative-path resolver, as a method with the source's `pop` loop,
    proved equal to the function `RelativeResolution`;
  - the file-name filter of the TypeScript file index;
  - the `/*` stripping of the `paths` mapping, as a method with the source's
    `forEach` loop.
- `Plugin` (`plugin.dfy`): `helper`, in two forms:
  - the method `Resolve`, which reassigns the source's two locals stage by
    stage and calls the methods `InferExtension` and `FindTSFilePath` (the
    `find` loop);
  - the function `Resolution`, which composes one function per stage.

  `Resolve` is proved equal to `Resolution`, and the properties of `helper`
  are lemmas about `Resolution`.

Everything the plugin computes once at start-up is a `Config` value passed
to `helper`:

- the `node_modules` directory names;
- the top-level directory names;
- the `paths` mapping;
- the TypeScript file index.

The outcome of one call is `Unchanged`, `Rewritten(s)`, or `Thrown(e)` for
the exceptions `resolveRelativePath` raises. Those exceptions propagate out
of `helper`.

Five behaviours of the code are easy to misread; the model follows the
code:

- **Resolved path.** A relative specifier that matches an index entry becomes
  the resolved path plus the extension, not the original `./…` text plus the
  extension (`RelativeMatchUsesResolvedPath`).
- **Stale first segment.** After an alias substitution the first-segment
  variable keeps its pre-alias value, unless an index match re-takes it. The
  new string starts with `/`, and promotion can still add a second `/`
  (`AliasKeepsStaleHead`, `DoubleSlashExample`).
- **Global `..` handling.** The `..` count and the `../` deletion apply to
  the whole relative path, not only to its leading part (`GlobalParentRefs`).
- **Substring test for `.tsx`.** The extension chosen after a match is
  `.tsx` whenever the entry contains `.tsx` anywhere (`ExtensionChoice`).
- **Not idempotent.** Running `helper` on its own output can rewrite it again
  (`NotIdempotent`). `SecondPassNoop` gives sufficient conditions under
  which a second pass changes nothing.

## Model

| member | source | states |
|---|---|---|
| PathText.Split | src/utils.js:75 | `split` gives one piece more than there are separators |
| PathText.SplitPieces | src/utils.js:75-92 | no piece holds the separator, the first piece is the text before the first separator, and joining the pieces gives the text back |
| PathText.JoinOfLeadingPieces | src/utils.js:88-92 | joining the first m pieces gives a prefix of the text; a separator follows it (unless it is the whole text), and exactly one separator per dropped piece remains after it |
| PathText.BeforeFirst | src/index.js:44 | `split(sep, 1)[0]` is a separator-free prefix that ends at the first separator or at the end |
| PathText.AfterLast | src/index.js:65 | `split(sep).pop()` is a separator-free suffix that starts right after the last separator, or is the whole text |
| PathText.BeforeLast | src/index.js:75-78 | `substring(0, lastIndexOf(sep))` is the prefix before the last separator, with no separator after it, and "" when there is none |
| PathText.ContainsIff | src/index.js:94 | `includes(t)` holds exactly when `t` starts at some position of the text |
| PathText.ImportsFooBar | src/utils.js:57-58 | `'imports/foo/bar'.split('/')` is `['imports', 'foo', 'bar']` |
| Utils.RemoveLeadingAndTrailingSlash | src/utils.js:3-5 | at most one leading and one trailing `/` are removed and nothing else; a path without either is unchanged |
| Utils.TrimTrailingSlash | src/utils.js:66 | the result plus the removed trailing `/` (if there was one) is the input |
| Utils.ResolveRelativePath | src/utils.js:59-99 | the loop that pops one element per `..` computes `RelativeResolution`, including both thrown errors |
| Utils.RelativeResolutionErrors | src/utils.js:60-86 | "Invalid relative path" exactly when neither `./` nor `../` starts the path; `./` always resolves; `../` fails exactly when it has more `..` than the current path has separators, naming both paths |
| Utils.CurrentDirectoryResolution | src/utils.js:66-72 | `./x` resolves to the current path without one trailing `/`, then `/x` |
| Utils.ParentDirectoryResolution | src/utils.js:74-96 | a resolvable `../` path gives a proper prefix of the current path that keeps at least one element and is followed by `/` and exactly k separators, then `/`, then the path with every `../` deleted |
| Utils.ConventionalParentPath | src/utils.js:74-96 | k leading `../` before text with no `..` drop exactly the last k segments and keep the text (`CountDotDot` gives k, `RemoveParentRefs` leaves the text) |
| Utils.GlobalParentRefs | src/utils.js:76-95 | `../a/../b` counts two `..` (`CountDotDot`, the `match(/\.\./g)` count) and becomes `a/b` (`RemoveParentRefs`, the global `../` deletion): both apply to the whole path |
| Utils.DocumentedExample | src/utils.js:56-58 | `('imports/foo/bar', '../stuff.ts')` resolves to `'imports/foo/stuff.ts'` |
| Utils.SiblingExample | src/utils.js:74-96 | `('imports/foo/bar', '../baz.ts')` resolves to `'imports/foo/baz.ts'` |
| Utils.ClimbingExample | src/utils.js:80-86 | `../../x` from `imports` throws the "Cannot resolve" error naming both paths |
| Utils.IsTSFileNameIff | src/utils.js:14-18 | the filter accepts exactly names ending in `.tsx`, names ending in `.ts` but not `.d.ts`, and the bare names `ts` and `tsx` |
| Utils.StripWildcardCutsFirst | src/utils.js:47-50 | `replace("/*", "")` keeps a text without `/*`; otherwise it cuts out exactly the first occurrence |
| Utils.ResolvedPathsMapping | src/utils.js:46-51 | throws exactly when some array is empty (the model's error records the first such key, which the TypeError does not); else the keys are the stripped keys other than `__proto__` (whose assignment on `{}` runs the prototype setter and stores nothing), each mapped to the stripped first target of the last entry with that key |
| Utils.ProtoKeyDropped | src/utils.js:42-47 | the key `__proto__/*` strips to `__proto__`, which stores no key in the mapping |
| Plugin.FindMatch | src/index.js:85-91 | `find` gives nothing exactly when no entry matches; otherwise the first matching entry |
| Plugin.FindTSFilePath | src/index.js:85-91 | the search loop returns `FindMatch`: the first entry equal to the trimmed candidate plus `.ts` or `.tsx` |
| Plugin.InferExtension | src/index.js:64-100 | the extension stage as executed (resolve, search, append, re-take the first segment) computes `ExtensionStage`, error propagation included |
| Plugin.Promote | src/index.js:107-113 | exactly one `/` is prepended when the string does not start with `/imports/`, the first-segment variable is a top-level directory name, and it is not a `node_modules` directory name; nothing changes otherwise |
| Plugin.Resolution | src/index.js:38-118 | skipped imports are unchanged, and a `Rewritten` outcome never repeats the original string |
| Plugin.Resolve | src/index.js:38-118 | `helper` as executed, with its two locals reassigned stage by stage, computes `Resolution` |
| Plugin.ErrorIff | src/index.js:64-86 | `helper` throws exactly for an unskipped, unaliased, dot-free `../` specifier with more `..` than the importing directory has separators; the error is always "Cannot resolve" |
| Plugin.NonRelativeShape | src/index.js:64-113 | a specifier that is neither relative nor aliased never throws, and is rewritten only to itself with at most a leading `/` and at most `.ts`/`.tsx` |
| Plugin.RelativeMatchUsesResolvedPath | src/index.js:69-99 | a matched relative specifier becomes the resolved path plus the chosen extension, promoted by its new first segment, and is always rewritten |
| Plugin.StageError | src/index.js:64-83 | the extension stage skips names with a `.`, and fails only for a `../` specifier with the resolver's "Cannot resolve" error |
| Plugin.StageRewrite | src/index.js:85-99 | any change the extension stage makes is a matching candidate plus its extension: a `.` appears in the last segment and the first segment is re-taken |
| Plugin.AliasStageShape | src/index.js:53-62 | the alias replaces the leading first segment by `/` and the mapped value and keeps the rest; the new string's first segment is "" and it differs from the specifier; the first-segment variable stays the pre-alias one; without an alias nothing changes |
| Plugin.AliasedExtensionStage | src/index.js:64-100 | on an aliased specifier the extension stage never fails; it keeps the pre-alias first segment when the last segment has a `.` or the index has no match, and after a match gives the aliased string plus the extension with first segment "" |
| Plugin.AliasKeepsStaleHead | src/index.js:53-117 | an aliased specifier is always rewritten, to the promotion of the extension stage's result; without a match (or with a `.` already present), promotion tests the old first segment and may prepend a second `/` |
| Plugin.DoubleSlashExample | src/index.js:53-113 | with `shared` aliased to `lib/shared`, `shared` a top-level directory and no index match, `shared/b` becomes `//lib/shared/b` |
| Plugin.SecondPassNoop | src/index.js:43-116 | an output that starts with `/imports/` and has a `.` in its last segment is left alone by a second pass, unless "" is an alias key |
| Plugin.ExtensionChoice | src/index.js:93-96 | a `.tsx` entry always gives `.tsx`; a `.ts` entry gives `.tsx` exactly when the candidate itself contains `.tsx` |
| Plugin.FirstPassExample | src/index.js:64-113 | with `imports/foo/bar.ts` indexed, `imports` a top-level directory and the alias key "" (from a tsconfig key `/*`) mapped to `lib`, `./bar` imported from `imports/foo/z.ts` becomes `/imports/foo/bar.ts` |
| Plugin.SecondPassExample | src/index.js:53-113 | with the same configuration, `/imports/foo/bar.ts` becomes `/lib/imports/foo/bar.ts`, since its first segment is "" |
| Plugin.NotIdempotent | src/index.js:38-118 | applying `helper` to its own output can rewrite it a second time |

## Left out

- Start-up directory scans (src/index.js:10-31): the `node_modules` listing, the top-level listing with its `.` filter and `statSync`, and `process.cwd()` are file-system I/O. Their results are the `Config` sets.
- `getTSFilePaths` recursion and entry strings (src/utils.js:8-31): the `readdirSync` walk, `isFile`/`isDirectory`, and the `"imports/" + rootPath.split("imports/").pop()` prefix are file-system I/O. The index is `Config.tsFilePaths`; only the file-name filter is modelled (`IsTSFileName`).
- Reading tsconfig.json (src/utils.js:34-44, 53): `existsSync`, `readFileSync` and `JSON.parse` are I/O, including a parse error at load time. A missing file or missing `paths` is `None` in `Config.pathsMapping`.
- ResolvedPathsMapping: for an empty array the source throws a `TypeError` from `replace` on `undefined`, whose message names no key. `MissingTarget(key)` is the model's own record of which entry failed.
- ResolvedPathsMapping: the entries arrive as a sequence in iteration order. JavaScript's rule that integer-like keys are enumerated first is not modelled, and every value is taken to be an array of strings. The `TypeError` for a non-string first element is not modelled.
- AliasStage: the `$&`, `$1` and similar replacement patterns that `String.prototype.replace` expands in the mapped value are not modelled. The mapped value is inserted literally.
- Babel plumbing (src/index.js:39-42, 115-127): a declaration without `source`, the visitor table and `replaceWith` are plumbing. The model takes the source string and returns the outcome. `sourceFileName` is always a string.
- Strings are sequences of characters. JavaScript's UTF-16 code units are not distinguished from characters.
