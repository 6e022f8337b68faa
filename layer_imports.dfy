/**
 The `layer-imports` rule (lib/rules/layer-imports.js): a file may import
 only from the layers listed under its own layer in the `layers` table.

 The importing file's layer comes from its path: segment 1, split on
 backslashes, of the text between the first and the second `src` (or the
 end of the path). The imported layer comes from the import string: its
 first `/`-separated segment once the alias is cut out.
 Relative imports, imports matching an ignore pattern, and imports where
 either layer is not one of the six are never reported.

 Two collaborators are outside the model and are parameters instead:
 `isRelative` stands for `isPathRelative` of lib/helpers, and `matches`
 for `micromatch.isMatch(path, pattern)`.
 */
module LayerImports {
  import opened JsStrings
  import opened Layers
  import opened ImportPaths

  /** `context.options[0]`, with the defaults the rule fills in: no alias, no patterns. */
  datatype Options = Options(alias: string, ignoreImportPatterns: seq<string>)

  const DefaultOptions: Options := Options("", [])

  /** The message id the rule reports with. */
  const AllowUnderlyingLayers := "allowUnderlyingLayers"

  /**
   `getCurrentFileLayer`: `path.split("src")[1]?.split("\\")?.[1]`, or `None`
   where that is `undefined`. `filePath` is the path as
   `path.toNamespacedPath` returns it, which the model does not compute.
   */
  function FileLayerName(filePath: string): Option<string>
  {
    var pieces := Split(filePath, "src");
    if |pieces| < 2 then None
    else
      var segments := Split(pieces[1], "\\");
      if |segments| < 2 then None else Some(segments[1])
  }

  /** `getImportLayer`: the first `/`-separated segment of the import once the alias is cut out. */
  function ImportLayerName(alias: string, value: string): string
  {
    Segments(alias, value)[0]
  }

  /** The importing file's layer, when its name is one of the six. */
  function FileLayer(filePath: string): Option<Layer>
  {
    match FileLayerName(filePath)
    case None => None
    case Some(name) => Parse(name)
  }

  /** The imported layer, when its name is one of the six. */
  function ImportLayer(alias: string, value: string): Option<Layer>
  {
    Parse(ImportLayerName(alias, value))
  }

  /** `ignoreImportPatterns.some(pattern => micromatch.isMatch(importPath, pattern))`. */
  predicate IsIgnored(importPath: string, patterns: seq<string>, matches: (string, string) -> bool)
  {
    patterns != [] && (matches(importPath, patterns[0]) || IsIgnored(importPath, patterns[1..], matches))
  }

  /**
   The `ImportDeclaration` handler: whether the import `importPath` in the
   file `filePath` (as `path.toNamespacedPath` returns it) is reported, with
   lookups in `availableLayers` and `layers` read as own properties of those
   tables.
   */
  predicate Reports(filePath: string, importPath: string, opts: Options,
                    isRelative: string -> bool, matches: (string, string) -> bool)
  {
    !isRelative(importPath) &&
    match (FileLayer(filePath), ImportLayer(opts.alias, importPath))
    case (Some(fl), Some(il)) =>
      !IsIgnored(importPath, opts.ignoreImportPatterns, matches) && il !in Allowed(fl)
    case _ => false
  }

  /** The reports the handler makes for one import: none, or one. */
  function Messages(filePath: string, importPath: string, opts: Options,
                    isRelative: string -> bool, matches: (string, string) -> bool): (ids: seq<string>)
    ensures |ids| <= 1
    ensures ids != [] <==> Reports(filePath, importPath, opts, isRelative, matches)
    ensures forall k :: 0 <= k < |ids| ==> ids[k] == AllowUnderlyingLayers
  {
    if Reports(filePath, importPath, opts, isRelative, matches) then [AllowUnderlyingLayers] else []
  }

  /** An import is ignored exactly when some pattern matches the raw import path. */
  lemma {:induction false} IgnoredIffSomeMatch(importPath: string, patterns: seq<string>,
                                                matches: (string, string) -> bool)
    ensures IsIgnored(importPath, patterns, matches) <==>
      exists k :: 0 <= k < |patterns| && matches(importPath, patterns[k])
  {
    if patterns != [] {
      IgnoredIffSomeMatch(importPath, patterns[1..], matches);
      if exists k :: 0 <= k < |patterns| && matches(importPath, patterns[k]) {
        var k :| 0 <= k < |patterns| && matches(importPath, patterns[k]);
        if k > 0 {
          assert patterns[1..][k - 1] == patterns[k];
        }
      }
      if exists k :: 0 <= k < |patterns| - 1 && matches(importPath, patterns[1..][k]) {
        var k :| 0 <= k < |patterns| - 1 && matches(importPath, patterns[1..][k]);
        assert patterns[k + 1] == patterns[1..][k];
      }
    }
  }

  /** Only which patterns are configured matters, not their order or repetition. */
  lemma PatternOrderIrrelevant(importPath: string, ps: seq<string>, qs: seq<string>,
                               matches: (string, string) -> bool)
    requires forall p :: p in ps <==> p in qs
    ensures IsIgnored(importPath, ps, matches) == IsIgnored(importPath, qs, matches)
  {
    IgnoredIffSomeMatch(importPath, ps, matches);
    IgnoredIffSomeMatch(importPath, qs, matches);
    if IsIgnored(importPath, ps, matches) {
      var k :| 0 <= k < |ps| && matches(importPath, ps[k]);
      assert ps[k] in qs;
    }
    if IsIgnored(importPath, qs, matches) {
      var k :| 0 <= k < |qs| && matches(importPath, qs[k]);
      assert qs[k] in ps;
    }
  }

  /**
   The rule in terms of the architecture: an import is reported exactly when
   it is absolute, both layers are recognised, no pattern ignores it, and it
   points upward, or sideways into a layer other than `entities` and `shared`.
   */
  lemma ReportsIffUpward(filePath: string, importPath: string, opts: Options,
                         isRelative: string -> bool, matches: (string, string) -> bool)
    ensures Reports(filePath, importPath, opts, isRelative, matches) <==>
      !isRelative(importPath) &&
      FileLayer(filePath).Some? && ImportLayer(opts.alias, importPath).Some? &&
      !(exists k :: 0 <= k < |opts.ignoreImportPatterns| && matches(importPath, opts.ignoreImportPatterns[k])) &&
      var fl := FileLayer(filePath).value;
      var il := ImportLayer(opts.alias, importPath).value;
      Rank(il) > Rank(fl) || (il == fl && !SelfImporting(fl))
  {
    var fo, io := FileLayer(filePath), ImportLayer(opts.alias, importPath);
    IgnoredIffSomeMatch(importPath, opts.ignoreImportPatterns, matches);
    assert Reports(filePath, importPath, opts, isRelative, matches) <==>
      !isRelative(importPath) && fo.Some? && io.Some? &&
      !IsIgnored(importPath, opts.ignoreImportPatterns, matches) && io.value !in Allowed(fo.value);
    if fo.Some? && io.Some? {
      AllowedIsDownward(fo.value, io.value);
    }
  }

  /** No layer is told off for importing from `shared`. */
  lemma SharedTargetNeverReported(filePath: string, importPath: string, opts: Options,
                                  isRelative: string -> bool, matches: (string, string) -> bool)
    requires ImportLayer(opts.alias, importPath) == Some(Shared)
    ensures !Reports(filePath, importPath, opts, isRelative, matches)
  {
    if FileLayer(filePath).Some? {
      SharedAllowedEverywhere(FileLayer(filePath).value);
    }
  }

  /** A `shared` file is reported for every recognised, absolute, non-ignored import outside `shared`. */
  lemma SharedFileImportsOnlyShared(filePath: string, importPath: string, opts: Options,
                                    isRelative: string -> bool, matches: (string, string) -> bool)
    requires FileLayer(filePath) == Some(Shared)
    requires ImportLayer(opts.alias, importPath).Some?
    requires !isRelative(importPath) && !IsIgnored(importPath, opts.ignoreImportPatterns, matches)
    ensures Reports(filePath, importPath, opts, isRelative, matches) <==>
      ImportLayer(opts.alias, importPath) != Some(Shared)
  {
    SharedImportsOnlyShared(ImportLayer(opts.alias, importPath).value);
  }

  /** An absolute import of a file's own layer is reported unless the layer is `entities` or `shared`. */
  lemma SameLayerReportedUnlessSelfImporting(filePath: string, importPath: string, opts: Options,
                                             isRelative: string -> bool, matches: (string, string) -> bool)
    requires FileLayer(filePath).Some? && ImportLayer(opts.alias, importPath) == FileLayer(filePath)
    requires !isRelative(importPath) && !IsIgnored(importPath, opts.ignoreImportPatterns, matches)
    ensures Reports(filePath, importPath, opts, isRelative, matches) <==>
      !SelfImporting(FileLayer(filePath).value)
  {
    SelfImportAllowed(FileLayer(filePath).value);
  }

  /** A file layer is found only in a path holding both `src` and a backslash. */
  lemma FileLayerNeedsSrcAndBackslash(filePath: string)
    ensures FileLayerName(filePath).Some? ==> Occurs(filePath, "src") && '\\' in filePath
  {
    var pieces := Split(filePath, "src");
    if !Occurs(filePath, "src") {
      assert pieces == [filePath];
    }
    if '\\' !in filePath && |pieces| >= 2 {
      SplitPiecesWithout(filePath, "src", '\\', 1);
      SplitWithoutSeparator(pieces[1], '\\');
    }
  }

  /** In `root + "src" + t`, with no `src` in `root`, the first `src` is the one after `root`. */
  lemma SrcFirstAfter(root: string, t: string)
    requires !Occurs(root, "src")
    ensures FirstOccurrenceAt(root + "src" + t, "src", |root|)
  {
    var s := root + "src" + t;
    assert s[|root|..|root| + 3] == "src";
    forall j | 0 <= j < |root|
      ensures !OccursAt(s, "src", j)
    {
      if j + 3 <= |root| {
        assert !OccursAt(root, "src", j);
        assert s[j..j + 3] == root[j..j + 3];
      } else if j == |root| - 1 {
        MismatchAt(s, "src", j, 1);
      } else {
        MismatchAt(s, "src", j, 2);
      }
    }
  }

  /**
   Splitting `\name\rest` on `src`, with no `src` in `name`, keeps
   `\name\` at the front of the first piece: a `src` in `rest` only cuts
   off what follows it.
   */
  lemma SrcPieceKeepsName(name: string, rest: string) returns (m: string)
    requires !Occurs(name, "src")
    ensures Split("\\" + name + "\\" + rest, "src")[0] == "\\" + name + "\\" + m
  {
    var a := "\\" + name;
    NoOccurrenceAcross("", '\\', name, "src");
    assert "" + "\\" + name == a;
    var j := SplitCases(rest, "src");
    m := rest[..j];
    if j < |rest| {
      PrefixBeforeFirstOccurrence(rest, "src", j);
      NoOccurrenceAcross(a, '\\', m, "src");
      var r := rest[j + 3..];
      assert a + "\\" + rest == (a + "\\" + m) + "src" + r;
      SrcFirstAfter(a + "\\" + m, r);
      SplitAtFirstOccurrence(a + "\\" + m, "src", r);
    } else {
      assert m == rest;
      NoOccurrenceAcross(a, '\\', rest, "src");
      assert Split(a + "\\" + rest, "src") == [a + "\\" + rest];
    }
  }

  /**
   The file layer of a Windows project path `root\src\name\rest` is `name`
   whenever `src` first occurs right before it. A further `src` in `rest`
   only shortens the piece after the first one, which still starts with
   `\name\`.
   */
  lemma FileLayerNameOfProjectPath(root: string, name: string, rest: string)
    requires !Occurs(root, "src") && !Occurs(name, "src")
    requires '\\' !in name
    ensures FileLayerName(root + "src\\" + name + "\\" + rest) == Some(name)
  {
    var tail := "\\" + name + "\\" + rest;
    assert root + "src\\" + name + "\\" + rest == root + "src" + tail;
    SrcFirstAfter(root, tail);
    SplitAtFirstOccurrence(root, "src", tail);
    var m := SrcPieceKeepsName(name, rest);
    SecondSegmentIsName(name, m);
  }

  /** Splitting `\name\m` on backslashes gives `name` as segment 1. */
  lemma SecondSegmentIsName(name: string, m: string)
    requires '\\' !in name
    ensures |Split("\\" + name + "\\" + m, "\\")| >= 2 && Split("\\" + name + "\\" + m, "\\")[1] == name
  {
    assert "\\" + name + "\\" + m == "" + "\\" + (name + "\\" + m);
    SplitHead("", '\\', name + "\\" + m);
    SplitHead(name, '\\', m);
  }

  /**
   Only the first `src` of the path counts. When the directory after it is
   not a layer, as for a checkout under `C:\src\`, the file has no layer
   and nothing in it is reported, whatever follows, even a further
   `src\layer\`.
   */
  lemma EarlierSrcSilencesRule(root: string, name: string, rest: string, importPath: string, opts: Options,
                               isRelative: string -> bool, matches: (string, string) -> bool)
    requires !Occurs(root, "src") && !Occurs(name, "src") && '\\' !in name && Parse(name) == None
    ensures FileLayer(root + "src\\" + name + "\\" + rest) == None
    ensures !Reports(root + "src\\" + name + "\\" + rest, importPath, opts, isRelative, matches)
  {
    FileLayerNameOfProjectPath(root, name, rest);
  }

  /** The file layer of `root\src\layer\rest` is that layer. */
  lemma FileLayerOfProjectPath(root: string, l: Layer, rest: string)
    requires !Occurs(root, "src")
    ensures FileLayer(root + "src\\" + Name(l) + "\\" + rest) == Some(l)
  {
    NoOccurrenceWithoutChar(Name(l), "src", 2);
    NameShape(l);
    FileLayerNameOfProjectPath(root, Name(l), rest);
    ParseName(Name(l), l);
  }

  /** Without an alias, the import layer name of `name/rest` is `name`. */
  lemma ImportLayerNameOfPath(name: string, rest: string)
    requires '/' !in name
    ensures ImportLayerName("", name + "/" + rest) == name
  {
    SplitHead(name, '/', rest);
  }

  /** With an alias, the import layer name of `alias/name/rest` is `name`. */
  lemma ImportLayerNameOfAliasedPath(alias: string, name: string, rest: string)
    requires alias != "" && '/' !in name
    ensures ImportLayerName(alias, alias + "/" + name + "/" + rest) == name
  {
    var t := name + "/" + rest;
    StripLeadingAlias(alias, t);
    assert alias + "/" + t == alias + "/" + name + "/" + rest;
    SplitHead(name, '/', rest);
  }

  /** Without an alias, `layer/rest` imports from that layer. */
  lemma ImportLayerOfPath(l: Layer, rest: string)
    ensures ImportLayer("", Name(l) + "/" + rest) == Some(l)
  {
    NameShape(l);
    ImportLayerNameOfPath(Name(l), rest);
    ParseName(Name(l), l);
  }

  /** With an alias, `alias/layer/rest` imports from that layer. */
  lemma ImportLayerOfAliasedPath(alias: string, l: Layer, rest: string)
    requires alias != ""
    ensures ImportLayer(alias, alias + "/" + Name(l) + "/" + rest) == Some(l)
  {
    NameShape(l);
    ImportLayerNameOfAliasedPath(alias, Name(l), rest);
    ParseName(Name(l), l);
  }

  /**
   With the default options, an absolute import `layer/rest` in a project
   file `root\src\layer'\file` is reported exactly when the table does not
   let `layer'` import `layer`.
   */
  lemma ProjectImportReportedIffNotAllowed(root: string, fl: Layer, file: string, il: Layer, rest: string,
                                           isRelative: string -> bool, matches: (string, string) -> bool)
    requires !Occurs(root, "src")
    requires !isRelative(Name(il) + "/" + rest)
    ensures Reports(root + "src\\" + Name(fl) + "\\" + file, Name(il) + "/" + rest, DefaultOptions, isRelative, matches)
      <==> il !in Allowed(fl)
  {
    FileLayerOfProjectPath(root, fl, file);
    ImportLayerOfPath(il, rest);
  }

  /**
   A `widgets` file importing `pages/...` is reported, and the same file
   importing `features/...` is not.
   */
  lemma WidgetsImportingPages(root: string, file: string, rest: string,
                              isRelative: string -> bool, matches: (string, string) -> bool)
    requires !Occurs(root, "src")
    requires !isRelative(Name(Pages) + "/" + rest) && !isRelative(Name(Features) + "/" + rest)
    ensures Reports(root + "src\\" + Name(Widgets) + "\\" + file, Name(Pages) + "/" + rest,
                    DefaultOptions, isRelative, matches)
    ensures !Reports(root + "src\\" + Name(Widgets) + "\\" + file, Name(Features) + "/" + rest,
                     DefaultOptions, isRelative, matches)
  {
    ProjectImportReportedIffNotAllowed(root, Widgets, file, Pages, rest, isRelative, matches);
    ProjectImportReportedIffNotAllowed(root, Widgets, file, Features, rest, isRelative, matches);
  }

  /**
   A path with no backslash has no file layer, so nothing in it is reported.
   On POSIX, `path.toNamespacedPath` returns the path unchanged, so this is
   every path there.
   */
  lemma PosixPathNeverReported(filePath: string, importPath: string, opts: Options,
                               isRelative: string -> bool, matches: (string, string) -> bool)
    requires '\\' !in filePath
    ensures !Reports(filePath, importPath, opts, isRelative, matches)
  {
    FileLayerNeedsSrcAndBackslash(filePath);
  }

  /**
   The path with every `/` turned into a backslash: the separator conversion
   that `path.toNamespacedPath` makes on Windows, applied on every platform.
   */
  function Backslashed(p: string): (r: string)
    ensures |r| == |p|
    ensures forall i :: 0 <= i < |p| ==> r[i] == if p[i] == '/' then '\\' else p[i]
  {
    seq(|p|, i requires 0 <= i < |p| => if p[i] == '/' then '\\' else p[i])
  }

  /** The handler as it would judge a file path given with either separator. */
  predicate PortableReports(filePath: string, importPath: string, opts: Options,
                            isRelative: string -> bool, matches: (string, string) -> bool)
  {
    Reports(Backslashed(filePath), importPath, opts, isRelative, matches)
  }

  /** Turning `/` into a backslash creates no `src`. */
  lemma BackslashedKeepsNoSrc(s: string)
    requires !Occurs(s, "src")
    ensures !Occurs(Backslashed(s), "src")
  {
    var b := Backslashed(s);
    forall i | 0 <= i <= |b|
      ensures !OccursAt(b, "src", i)
    {
      if OccursAt(b, "src", i) {
        OccurrenceChars(b, "src", i, 0);
        OccurrenceChars(b, "src", i, 1);
        OccurrenceChars(b, "src", i, 2);
        assert s[i..i + 3] == b[i..i + 3];
        assert OccursAt(s, "src", i);
      }
    }
  }

  /** `Backslashed` works piece by piece on a POSIX project path. */
  lemma BackslashedProjectPath(root: string, name: string, file: string)
    requires '/' !in name
    ensures Backslashed(root + "src/" + name + "/" + file)
         == Backslashed(root) + "src\\" + name + "\\" + Backslashed(file)
  {
    var p := root + "src/" + name + "/" + file;
    var q := Backslashed(root) + "src\\" + name + "\\" + Backslashed(file);
    assert |q| == |p|;
    forall i | 0 <= i < |p|
      ensures Backslashed(p)[i] == q[i]
    {
      if i < |root| {
        assert p[i] == root[i];
      } else if i < |root| + 4 {
      } else if i < |root| + 4 + |name| {
        assert p[i] == name[i - |root| - 4];
        assert q[i] == name[i - |root| - 4];
      } else if i == |root| + 4 + |name| {
      } else {
        assert p[i] == file[i - |root| - 5 - |name|];
        assert q[i] == Backslashed(file)[i - |root| - 5 - |name|];
      }
    }
  }

  /**
   With a portable reading of the file path, an import `layer/rest` in a
   POSIX project file `root/src/layer'/file` is reported exactly when the
   table does not let `layer'` import `layer`.
   */
  lemma PortableProjectImportReportedIffNotAllowed(root: string, fl: Layer, file: string, il: Layer, rest: string,
                                                   isRelative: string -> bool, matches: (string, string) -> bool)
    requires !Occurs(root, "src")
    requires !isRelative(Name(il) + "/" + rest)
    ensures PortableReports(root + "src/" + Name(fl) + "/" + file, Name(il) + "/" + rest,
                            DefaultOptions, isRelative, matches)
      <==> il !in Allowed(fl)
  {
    NameShape(fl);
    BackslashedProjectPath(root, Name(fl), file);
    BackslashedKeepsNoSrc(root);
    ProjectImportReportedIffNotAllowed(Backslashed(root), fl, Backslashed(file), il, rest, isRelative, matches);
  }

  /** A POSIX project path built from backslash-free parts has no backslash. */
  lemma PosixProjectPathHasNoBackslash(root: string, name: string, file: string)
    requires '\\' !in root && '\\' !in name && '\\' !in file
    ensures '\\' !in root + "src/" + name + "/" + file
  {
    var p := root + "src/" + name + "/" + file;
    forall i | 0 <= i < |p|
      ensures p[i] != '\\'
    {
      if i < |root| {
        assert p[i] == root[i];
      } else if i < |root| + 4 {
      } else if i < |root| + 4 + |name| {
        assert p[i] == name[i - |root| - 4];
      } else if i > |root| + 4 + |name| {
        assert p[i] == file[i - |root| - 5 - |name|];
      }
    }
  }

  /**
   Read as written, a POSIX project file `root/src/layer'/file` is never
   reported, even for an import the table forbids, which the portable
   reading reports.
   */
  lemma PosixProjectPathMissed(root: string, fl: Layer, file: string, il: Layer, rest: string,
                               isRelative: string -> bool, matches: (string, string) -> bool)
    requires !Occurs(root, "src") && '\\' !in root && '\\' !in file
    requires !isRelative(Name(il) + "/" + rest) && il !in Allowed(fl)
    ensures !Reports(root + "src/" + Name(fl) + "/" + file, Name(il) + "/" + rest, DefaultOptions, isRelative, matches)
    ensures PortableReports(root + "src/" + Name(fl) + "/" + file, Name(il) + "/" + rest,
                            DefaultOptions, isRelative, matches)
  {
    NameShape(fl);
    PosixProjectPathHasNoBackslash(root, Name(fl), file);
    PosixPathNeverReported(root + "src/" + Name(fl) + "/" + file, Name(il) + "/" + rest,
                           DefaultOptions, isRelative, matches);
    PortableProjectImportReportedIffNotAllowed(root, fl, file, il, rest, isRelative, matches);
  }

  /** The handler's possible outcomes once inherited names are taken into account. */
  datatype Outcome = Silent | Reported | Crashed

  /**
   `!!availableLayers[name]` as written: true for the six names, and also for
   every name a plain object inherits from `Object.prototype`.
   */
  predicate KnownAsWritten(name: string)
  {
    Parse(name).Some? || name in ObjectPrototypeKeys
  }

  /**
   The handler as written. For an inherited name as file layer,
   `layers[name]` is an inherited function or object without `includes`, so
   `layers[name]?.includes(...)` throws a `TypeError`.
   */
  function OutcomeAsWritten(filePath: string, importPath: string, opts: Options,
                            isRelative: string -> bool, matches: (string, string) -> bool): (o: Outcome)
    ensures o == Crashed ==> FileLayerName(filePath).Some? && FileLayerName(filePath).value in ObjectPrototypeKeys
  {
    var importName := ImportLayerName(opts.alias, importPath);
    if isRelative(importPath) then Silent
    else match FileLayerName(filePath)
      case None => Silent
      case Some(fileName) =>
        if !KnownAsWritten(importName) || !KnownAsWritten(fileName) then Silent
        else if IsIgnored(importPath, opts.ignoreImportPatterns, matches) then Silent
        else match Parse(fileName)
          case None => Crashed
          case Some(fl) =>
            match Parse(importName)
            case Some(il) => if il in Allowed(fl) then Silent else Reported
            case None => Reported
  }

  /** Away from inherited names, the handler as written is the model. */
  lemma AsWrittenAgreesOffPrototype(filePath: string, importPath: string, opts: Options,
                                    isRelative: string -> bool, matches: (string, string) -> bool)
    requires ImportLayerName(opts.alias, importPath) !in ObjectPrototypeKeys
    requires FileLayerName(filePath).Some? ==> FileLayerName(filePath).value !in ObjectPrototypeKeys
    ensures OutcomeAsWritten(filePath, importPath, opts, isRelative, matches) ==
      if Reports(filePath, importPath, opts, isRelative, matches) then Reported else Silent
  {
  }

  /**
   An import whose first segment is an inherited name such as `constructor`
   names no layer, yet the handler as written reports it from every layer.
   */
  lemma InheritedImportLayerReportedAsWritten(filePath: string, key: string, rest: string,
                                              isRelative: string -> bool, matches: (string, string) -> bool)
    requires FileLayer(filePath).Some? && key in ObjectPrototypeKeys
    requires !isRelative(key + "/" + rest)
    ensures OutcomeAsWritten(filePath, key + "/" + rest, DefaultOptions, isRelative, matches) == Reported
    ensures !Reports(filePath, key + "/" + rest, DefaultOptions, isRelative, matches)
  {
    KeyShape(key);
    SplitHead(key, '/', rest);
    InheritedKeysNameNoLayer(key);
  }

  /**
   A file under `src\constructor\` (or another inherited name) makes the
   handler as written throw on every recognised, absolute, non-ignored
   import, where the model stays silent.
   */
  lemma InheritedFileLayerCrashesAsWritten(root: string, key: string, file: string, importPath: string,
                                           opts: Options, isRelative: string -> bool,
                                           matches: (string, string) -> bool)
    requires key in ObjectPrototypeKeys
    requires !Occurs(root, "src")
    requires ImportLayer(opts.alias, importPath).Some?
    requires !isRelative(importPath) && !IsIgnored(importPath, opts.ignoreImportPatterns, matches)
    ensures OutcomeAsWritten(root + "src\\" + key + "\\" + file, importPath, opts, isRelative, matches) == Crashed
    ensures !Reports(root + "src\\" + key + "\\" + file, importPath, opts, isRelative, matches)
  {
    KeyShape(key);
    FileLayerNameOfProjectPath(root, key, file);
    InheritedKeysNameNoLayer(key);
  }
}
