# Import-policy rules of an ESLint plugin, in Dafny

The plugin enforces a layered front-end architecture with six layers, from top
to bottom `app`, `pages`, `widgets`, `features`, `entities` and `shared`. It
does this with two ESLint rules. This project models both rules' decisions as
pure functions over path strings, and proves what those decisions are.

- **`layer-imports`** (`lib/rules/layer-imports.js`). A file may import only
  from the layers its own layer lists in the `layers` table.
  - The file's layer is read from its path as `path.toNamespacedPath`
    returns it: take the text between the first and the second `src` (or
    the end of the path), split it on backslashes, and use segment 1.
  - The imported layer is the first `/`-separated segment of the import,
    after the first occurrence of `alias + "/"` is cut out.
  - Relative imports, imports that match an ignore pattern, and imports where
    either layer is not one of the six are never reported.
- **`public-api-import-checker`** (`lib/rules/public-api-import-checker.js`).
  An absolute import into a sliced layer (`entities`, `features`, `pages`,
  `widgets`) must stop at `layer/slice`, the slice's public API.
  - Anything deeper is reported.
  - Relative paths are exempt, judged after the alias is cut out.

Modules:

- `JsStrings` (`js_strings.dfy`): the JavaScript string operations the rules
  use, with their exact semantics.
  - `indexOf`, and `split` with a string separator, where `"".split("/")` is
    `[""]`.
  - `replace` with a string pattern and a replacement holding no `$` (the
    rules pass `""`), which replaces only the first occurrence, wherever it
    stands.
  - `startsWith`.
  - The names a plain object inherits from `Object.prototype`.
- `Layers` (`layers.dfy`): the six layers, the `availableLayers` lookup and
  the `layers` allow-list table, all as literal data.
- `ImportPaths` (`import_paths.dfy`): alias removal and the `/`-segments of
  the stripped import, which both rules compute the same way, and the
  public-API rule's own `isPathRelative`.
- `PublicApi` (`public_api.dfy`): the public-API rule.
- `LayerImports` (`layer_imports.dfy`): the layer-direction rule.

The rule's report is modelled two ways: a predicate `Reports`, and a
`Messages` sequence holding zero or one message id.

Table lookups such as `availableLayers[x]` and `checkingLayers[x]` are
modelled as own-property lookups. In the JavaScript as written they also
succeed for names inherited from `Object.prototype`; see "## Findings". For
each rule, the code as written is also modelled (`ReportsAsWritten`,
`OutcomeAsWritten`), and lemmas state where it agrees with the model and
where it does not.

The model follows the code as written:

- Only `entities` and `shared` may import their own layer
  (`lib/rules/layer-imports.js:11-18`).
- The public-API rule judges every import of every file. It has no
  `testing` exception and no test-file condition.
- The public-API rule's own `isPathRelative`
  (`lib/rules/public-api-import-checker.js:85-87`) counts a path as relative
  only when it is `"."` or starts with `"./"` or `"../"`. So `".."` alone
  and `".hidden/x"` are not relative. The direction rule uses the
  `isPathRelative` of `lib/helpers` instead, which is the parameter
  `isRelative` here.
- Finding the two layers never throws. The direction rule's final check
  (`lib/rules/layer-imports.js:106`) can throw; see "## Findings".
- The direction rule reads the file's layer from backslash-separated
  segments only. `PortableReports` is the same decision with `/` turned
  into a backslash first; see "## Findings".

## Model

| member | source | states |
|---|---|---|
| JsStrings.IndexOf | lib/rules/layer-imports.js:75 | the index found is the first occurrence of the pattern, and `None` exactly when the pattern does not occur |
| JsStrings.Split | lib/rules/layer-imports.js:68-69 | `split` with a string separator always yields at least one piece |
| JsStrings.JoinSplit | lib/rules/layer-imports.js:76 | joining the pieces of a split with the separator gives the original string back |
| JsStrings.SplitJoin | lib/rules/public-api-import-checker.js:61 | splitting a join of separator-free pieces on a one-character separator gives the pieces back |
| JsStrings.SplitCases | lib/rules/layer-imports.js:68 | `split` gives the whole string when the separator is absent, and otherwise cuts the first piece off at the first separator |
| JsStrings.SplitPiecesFree | lib/rules/layer-imports.js:69 | no piece of a split contains the separator |
| JsStrings.SplitPiecesWithout | lib/rules/layer-imports.js:68-69 | a character absent from the string is absent from every piece of its split |
| JsStrings.SplitOnChar | lib/rules/public-api-import-checker.js:61 | splitting on a one-character string equals the character-by-character split |
| JsStrings.SplitConcat | lib/rules/public-api-import-checker.js:61 | splitting `a + sep + b` gives the pieces of `a` followed by the pieces of `b` |
| JsStrings.SplitAtFirstOccurrence | lib/rules/layer-imports.js:68 | when the separator first occurs right after `a`, piece 0 is `a` and piece 1 is piece 0 of the split of what follows |
| JsStrings.SplitHead | lib/rules/layer-imports.js:76-78 | the text before the first separator is piece 0 |
| JsStrings.SplitSeveral | lib/rules/public-api-import-checker.js:70 | there are at least two pieces exactly when the separator occurs |
| JsStrings.ReplaceFirst | lib/rules/layer-imports.js:75 | `replace` with a string pattern and a replacement holding no `$` leaves a string without the pattern unchanged, and otherwise splices the replacement, taken literally, over the first occurrence only |
| Layers.FindByName | lib/rules/layer-imports.js:20-27 | a name lookup finds a layer of the list carrying that name, or proves that no layer of the list carries it |
| Layers.ParseName | lib/rules/layer-imports.js:20-27 | `availableLayers` recognises exactly the six names, each naming its own layer |
| Layers.AllowedIsDownward | lib/rules/layer-imports.js:11-18 | a layer may import exactly the layers below it, and itself only when it is `entities` or `shared` |
| Layers.SharedImportsOnlyShared | lib/rules/layer-imports.js:17 | `shared` may import `shared` and nothing else |
| Layers.SharedAllowedEverywhere | lib/rules/layer-imports.js:12-17 | every layer may import `shared` |
| Layers.AppImportsAllBelow | lib/rules/layer-imports.js:12 | `app` may import every layer except itself |
| Layers.SelfImportAllowed | lib/rules/layer-imports.js:11-18 | a layer may import itself exactly when it is `entities` or `shared` |
| Layers.AllowListsWithinUniverse | lib/rules/layer-imports.js:11-27 | every allow-listed name is a key of `availableLayers`, ranked no higher than the listing layer |
| Layers.InheritedKeysNameNoLayer | lib/rules/layer-imports.js:92-93 | no name inherited from `Object.prototype` is a layer name or a `.`/`..` segment |
| Layers.KeyShape | lib/rules/layer-imports.js:92-93 | no name inherited from `Object.prototype` holds a `/`, a backslash or `src`, so each can stand as one path segment of a file path or an import |
| ImportPaths.StripAlias | lib/rules/layer-imports.js:75 | an empty alias leaves the import unchanged, and stripping never lengthens it |
| ImportPaths.StripAliasAtFirst | lib/rules/layer-imports.js:75 | a non-empty alias is cut out at its first occurrence, wherever that is |
| ImportPaths.StripAliasAbsent | lib/rules/public-api-import-checker.js:50 | an import without `alias + "/"` is left unchanged |
| ImportPaths.StripLeadingAlias | lib/rules/layer-imports.js:75 | an import starting with `alias/` loses exactly that prefix |
| ImportPaths.StripAliasAfter | lib/rules/layer-imports.js:75 | an alias whose first character does not occur earlier is cut out where it stands, joining the text on both sides |
| ImportPaths.StripAliasAnywhere | lib/rules/public-api-import-checker.js:50 | `@` is cut out of the middle of `entities/@/x`, and only once from `@/@/x` |
| ImportPaths.RelativeIffDotSegment | lib/rules/public-api-import-checker.js:85-87 | a path is relative exactly when it is `.` or its first segment is `.` or `..` with more segments after it |
| ImportPaths.ParentDirectoryAloneNotRelative | lib/rules/public-api-import-checker.js:85-87 | `..` alone is not relative, while `.`, `./ui` and `../model` are |
| ImportPaths.Segments | lib/rules/public-api-import-checker.js:61 | the stripped import has at least one segment, so `segments[0]` always exists |
| PublicApi.Messages | lib/rules/public-api-import-checker.js:72-77 | an import produces at most one `shouldUseOnlyPublicApi` report, and one exactly when the rule reports it |
| PublicApi.RelativeNeverReported | lib/rules/public-api-import-checker.js:53-55 | an import that is relative after the alias is cut out is never reported |
| PublicApi.UncheckedLayerNeverReported | lib/rules/public-api-import-checker.js:65-68 | an import whose first segment is not a sliced layer is never reported |
| PublicApi.ReportsOnLayerPath | lib/rules/public-api-import-checker.js:65-72 | an import into layer `l` is reported exactly when `l` is sliced and the import has more than two segments |
| PublicApi.UnslicedLayerNeverReported | lib/rules/public-api-import-checker.js:7-12 | with no alias, imports into a layer missing from `checkingLayers` are never reported, however deep |
| PublicApi.AppAndSharedNeverReported | lib/rules/public-api-import-checker.js:7-12 | with no alias, `app/...` and `shared/...` are never reported |
| PublicApi.LayerPathNotRelative | lib/rules/public-api-import-checker.js:85-87 | a path whose first segment is a layer name is never relative |
| PublicApi.ReportsIffDeeperThanSlice | lib/rules/public-api-import-checker.js:70-77 | for an import into a sliced layer, the rule reports exactly when there are more than two segments |
| PublicApi.PublicApiIsLayerAndSlice | lib/rules/public-api-import-checker.js:61-77 | with no alias and a slice name without `/`, `layer/slice` is accepted and `layer/slice/rest` is reported, for every sliced layer |
| PublicApi.ArticleExamples | lib/rules/public-api-import-checker.js:70 | `entities/article` is accepted and `entities/article/model/types` is reported |
| PublicApi.StripAppended | lib/rules/public-api-import-checker.js:50 | for an alias without `/`, the stripped form of `v/seg` is one of three things. If `v` already holds the alias, or there is none, it is the stripped `v`, then `/`, then `seg`. If the alias is first found inside `seg`, it is `v/` followed by the stripped `seg`. If the alias is first found straddling the appended `/`, it is the part of `v` before its trailing alias, followed by `seg` |
| PublicApi.StripAppendedInSeg | lib/rules/public-api-import-checker.js:50 | when the alias is first found inside the appended `seg`, the stripped `v/seg` is `v/` followed by the stripped `seg` |
| PublicApi.ReportedDeeperStaysReported | lib/rules/public-api-import-checker.js:50-70 | with an alias without `/`, a reported import stays reported when a further `/seg` is appended |
| PublicApi.SlashInAliasBreaksDepthOrder | lib/rules/public-api-import-checker.js:50 | with the alias `x/y`, `layer/x/y` is reported but `layer/x/y/seg` is not. This holds for every sliced layer, when `x`, `y` and `seg` hold no `/`, `x` is not empty, and `x` does not start with a character of `layer/` |
| PublicApi.AsWrittenAgreesOffPrototype | lib/rules/public-api-import-checker.js:66 | the handler as written agrees with the model on every import whose first segment is not an inherited name |
| PublicApi.InheritedNameReportedAsWritten | lib/rules/public-api-import-checker.js:66 | with no alias, the handler as written reports `constructor/a/b` (any inherited name), which the model does not |
| LayerImports.Messages | lib/rules/layer-imports.js:106-111 | an import produces at most one `allowUnderlyingLayers` report, and one exactly when the rule reports it |
| LayerImports.IgnoredIffSomeMatch | lib/rules/layer-imports.js:98-100 | an import is ignored exactly when some pattern matches the raw import path |
| LayerImports.PatternOrderIrrelevant | lib/rules/layer-imports.js:98-104 | two pattern lists with the same members ignore the same imports, whatever their order or repetition |
| LayerImports.ReportsIffUpward | lib/rules/layer-imports.js:87-111 | reported exactly when: not relative, both layers recognised, no pattern matches, and the import points upward or sideways outside `entities` and `shared` |
| LayerImports.SharedTargetNeverReported | lib/rules/layer-imports.js:106 | an import of `shared` is never reported, from any file |
| LayerImports.SharedFileImportsOnlyShared | lib/rules/layer-imports.js:17 | from a `shared` file, a recognised absolute non-ignored import is reported exactly when it is not into `shared` |
| LayerImports.SameLayerReportedUnlessSelfImporting | lib/rules/layer-imports.js:11-18 | a same-layer absolute import is reported exactly when the layer is not `entities` or `shared` |
| LayerImports.FileLayerNeedsSrcAndBackslash | lib/rules/layer-imports.js:64-72 | a file has a layer only when its path holds `src` and a backslash |
| LayerImports.PosixPathNeverReported | lib/rules/layer-imports.js:67-71 | no import in a file whose path has no backslash is ever reported |
| LayerImports.FileLayerNameOfProjectPath | lib/rules/layer-imports.js:64-72 | the file layer name of `root\src\name\rest` is `name` when neither `root` nor `name` holds `src`, whatever `rest` holds |
| LayerImports.SrcPieceKeepsName | lib/rules/layer-imports.js:68 | the piece of `\name\rest` before its first `src` still starts with `\name\` when `name` holds no `src` |
| LayerImports.SecondSegmentIsName | lib/rules/layer-imports.js:69-71 | segment 1 of `\name\m`, split on backslashes, is `name` |
| LayerImports.EarlierSrcSilencesRule | lib/rules/layer-imports.js:64-72 | only the first `src` counts: when neither `root` nor the directory `name` after its `src` holds `src`, and `name` is one segment that is not a layer name, as for a checkout under `C:\src\`, the file has no layer and nothing in it is reported, whatever follows |
| LayerImports.FileLayerOfProjectPath | lib/rules/layer-imports.js:64-72 | the file layer of `root\src\layer\rest` is that layer when `root` holds no `src`, for any `rest` |
| LayerImports.ImportLayerOfPath | lib/rules/layer-imports.js:74-79 | without an alias, `layer/rest` imports from that layer |
| LayerImports.ImportLayerNameOfPath | lib/rules/layer-imports.js:76-78 | without an alias, the import layer name of `name/rest` is `name` |
| LayerImports.ImportLayerNameOfAliasedPath | lib/rules/layer-imports.js:75-78 | with an alias, the import layer name of `alias/name/rest` is `name` |
| LayerImports.ImportLayerOfAliasedPath | lib/rules/layer-imports.js:74-79 | with an alias, `alias/layer/rest` imports from that layer |
| LayerImports.ProjectImportReportedIffNotAllowed | lib/rules/layer-imports.js:106-111 | with default options, when `root` holds no `src` and the import is not relative, `layer/rest` imported in `root\src\fileLayer\file` is reported exactly when the table does not list `layer` under `fileLayer`, for any `file` |
| LayerImports.BackslashedKeepsNoSrc | lib/rules/layer-imports.js:67-68 | turning `/` into a backslash creates no `src` |
| LayerImports.BackslashedProjectPath | lib/rules/layer-imports.js:67 | turning `/` into a backslash maps `root/src/name/file` to `root\src\name\file`, part by part |
| LayerImports.PortableProjectImportReportedIffNotAllowed | lib/rules/layer-imports.js:67-71 | read portably, with default options, when `root` holds no `src` and the import is not relative, `layer/rest` imported in `root/src/fileLayer/file` is reported exactly when the table does not list `layer` under `fileLayer` |
| LayerImports.PosixProjectPathHasNoBackslash | lib/rules/layer-imports.js:69 | `root/src/name/file` has no backslash when its parts have none |
| LayerImports.PosixProjectPathMissed | lib/rules/layer-imports.js:67-71 | as written, with default options, `root/src/fileLayer/file` is never reported, even for a non-relative import the table forbids and the portable reading reports. This holds when `root` holds no `src` and neither `root` nor `file` holds a backslash |
| LayerImports.WidgetsImportingPages | lib/rules/layer-imports.js:14 | with default options, when `root` holds no `src` and the imports are not relative, a file `root\src\widgets\file` importing `pages/...` is reported, and importing `features/...` is not |
| LayerImports.OutcomeAsWritten | lib/rules/layer-imports.js:91-111 | the handler as written throws only when the file layer name is inherited from `Object.prototype` |
| LayerImports.AsWrittenAgreesOffPrototype | lib/rules/layer-imports.js:91-106 | away from inherited names, the handler as written reports exactly what the model reports |
| LayerImports.InheritedImportLayerReportedAsWritten | lib/rules/layer-imports.js:92 | as written, with default options, a non-relative import `constructor/...` (any inherited name) is reported from every recognised file, which the model does not do |
| LayerImports.InheritedFileLayerCrashesAsWritten | lib/rules/layer-imports.js:106 | as written, a file `root\src\constructor\file` (any inherited name) throws on every recognised, absolute, non-ignored import when `root` holds no `src` |

## Left out

- `path.toNamespacedPath` (`lib/rules/layer-imports.js:67`) is not
  computed. `Reports` takes the file path as that call returns it.
  - On POSIX the call returns the path unchanged, and the model is exact
    there.
  - On Windows it first resolves the path, then adds a `\\?\` or
    `\\?\UNC\` prefix. Resolving turns `/` into `\`, collapses `.` and
    `..` segments, and makes relative names absolute against the working
    directory. None of this is modelled.
  - So a raw Windows name such as `C:/p/src/features/a.ts` gets no layer in
    the model, while the source finds `features`.
  - `PortableReports` covers only the separator conversion.
- `isPathRelative` from `lib/helpers` (`lib/rules/layer-imports.js:9`) is the
  parameter `isRelative`. `lib/helpers` is not part of this model, and the
  model does not assume it equals the public-API rule's local copy.
- `micromatch.isMatch` (`lib/rules/layer-imports.js:99`) is the parameter
  `matches`, because glob matching is a foreign library.
- ESLint plumbing is left out: the `meta` objects, message texts,
  `context.filename`, `context.options` and `context.report`. The rule
  functions take the file path, the import string and the options directly.
- Option keys: both schemas declare `aliases`, but the code reads `alias`.
  The model uses `alias`.
- Option values that are not a string (for `alias`) or an array of strings
  (for `ignoreImportPatterns`) are not modelled.
- `tests/lib/rules/public-api-import-checker.js` is an unfilled template with
  no test cases, so it states no behaviour to model.
- PublicApi.ReportedDeeperStaysReported: requires an alias without `/`.
  With `x/y` as alias, appending a segment can make a reported import
  accepted; `PublicApi.SlashInAliasBreaksDepthOrder` proves this.

## Findings

| source | as written | input that shows it | evidently intended | confidence | as-written member | corrected member |
|---|---|---|---|---|---|---|
| lib/rules/layer-imports.js:92 | `!availableLayers[importLayer]` is also false for names a plain object inherits, such as `constructor` | a file `C:\p\src\features\a.ts` importing `constructor/x` is reported | only the six own keys are layers, so the import is not checked | not executed | LayerImports.InheritedImportLayerReportedAsWritten | LayerImports.ReportsIffUpward |
| lib/rules/layer-imports.js:106 | `layers[currentFileLayer]?.includes(...)` on an inherited name calls a missing method | a file `C:\p\src\constructor\a.ts` importing `entities/x` throws a `TypeError` | such a file has no layer and is not checked | not executed | LayerImports.InheritedFileLayerCrashesAsWritten | LayerImports.ReportsIffUpward |
| lib/rules/public-api-import-checker.js:66 | `!checkingLayers[layer]` is also false for inherited names | the import `constructor/a/b` is reported | only the four sliced layers are checked | not executed | PublicApi.InheritedNameReportedAsWritten | PublicApi.ReportsIffDeeperThanSlice |
| lib/rules/layer-imports.js:67-69 | the file path is split on backslashes only, and on Linux and macOS `path.toNamespacedPath` returns it unchanged | a file `/home/p/src/widgets/a.ts` importing `pages/x` is not reported | the file's layer is found whatever separator the platform uses, as `PortableReports` does | not executed | LayerImports.PosixProjectPathMissed | LayerImports.PortableProjectImportReportedIffNotAllowed |
