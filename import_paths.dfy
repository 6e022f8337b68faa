/**
 The import-path handling both rules share: removing the configured alias
 (lib/rules/layer-imports.js:75 and lib/rules/public-api-import-checker.js:50
 do it the same way) and the local `isPathRelative` of
 lib/rules/public-api-import-checker.js:85-87.
 */
module ImportPaths {
  import opened JsStrings

  /**
   `alias ? value.replace(`${alias}/`, "") : value`: an empty alias leaves
   the path alone; otherwise the first occurrence of `alias + "/"`, wherever
   it stands, is cut out, and a path without one is left alone.
   */
  function StripAlias(alias: string, value: string): (r: string)
    ensures alias == "" ==> r == value
    ensures |r| <= |value|
  {
    if alias == "" then value else ReplaceFirst(value, alias + "/", "")
  }

  /** `importTo.split("/")`: the segments of an import path once the alias is cut out. */
  function Segments(alias: string, value: string): (segments: seq<string>)
    ensures |segments| >= 1
  {
    Split(StripAlias(alias, value), "/")
  }

  /** A non-empty alias is cut out at its first occurrence, wherever that is. */
  lemma StripAliasAtFirst(alias: string, value: string, i: nat)
    requires alias != "" && FirstOccurrenceAt(value, alias + "/", i)
    ensures StripAlias(alias, value) == value[..i] + value[i + |alias| + 1..]
  {
  }

  /** A path without `alias + "/"` in it is left alone. */
  lemma StripAliasAbsent(alias: string, value: string)
    requires !Occurs(value, alias + "/")
    ensures StripAlias(alias, value) == value
  {
  }

  /** When the alias's first character does not occur before it, the alias is cut out there. */
  lemma StripAliasAfter(a: string, alias: string, t: string)
    requires alias != [] && alias[0] !in a
    ensures StripAlias(alias, a + alias + "/" + t) == a + t
  {
    var v := a + (alias + "/") + t;
    assert a + alias + "/" + t == v;
    FirstOccurrenceAfter(a, alias + "/", t);
    StripAliasAtFirst(alias, v, |a|);
    assert v[..|a|] == a;
    assert v[|a| + |alias| + 1..] == t;
  }

  /** A leading `alias + "/"` is cut out, leaving the rest of the import. */
  lemma StripLeadingAlias(alias: string, t: string)
    requires alias != ""
    ensures StripAlias(alias, alias + "/" + t) == t
  {
    StripAliasAfter([], alias, t);
    assert [] + alias + "/" + t == alias + "/" + t;
    assert [] + t == t;
  }

  /** The alias is cut out where it first occurs, not only at the front, and only once. */
  lemma StripAliasAnywhere()
    ensures StripAlias("@", "entities/@/x") == "entities/x"
    ensures StripAlias("@", "@/@/x") == "@/x"
  {
    StripAliasAfter("entities/", "@", "x");
    assert "entities/" + "@" + "/" + "x" == "entities/@/x";
    StripAliasAfter("", "@", "@/x");
    assert "" + "@" + "/" + "@/x" == "@/@/x";
  }

  /** `isPathRelative`: `"."`, or a path starting with `"./"` or `"../"`. */
  predicate IsPathRelative(path: string)
  {
    path == "." || StartsWith(path, "./") || StartsWith(path, "../")
  }

  /**
   A path is relative exactly when it is `"."` or its first `/`-separated
   segment is `"."` or `".."` with more segments after it. So `".."` alone,
   `"..foo"` and `".hidden/x"` are not relative.
   */
  lemma {:induction false} RelativeIffDotSegment(path: string)
    ensures var segments := Split(path, "/");
      IsPathRelative(path) <==>
        path == "." || (|segments| >= 2 && (segments[0] == "." || segments[0] == ".."))
  {
    var segments := Split(path, "/");
    if StartsWith(path, "./") {
      assert path == "." + "/" + path[2..];
      SplitHead(".", '/', path[2..]);
    } else if StartsWith(path, "../") {
      assert path == ".." + "/" + path[3..];
      SplitHead("..", '/', path[3..]);
    }
    if |segments| >= 2 {
      SplitSeveral(path, '/');
      var x, y := FirstSeparator(path, '/');
      SplitHead(x, '/', y);
      assert path[..|x| + 1] == x + "/";
    }
  }

  /** `".."` by itself is not a relative path for this check. */
  lemma ParentDirectoryAloneNotRelative()
    ensures !IsPathRelative("..")
    ensures IsPathRelative(".") && IsPathRelative("./ui") && IsPathRelative("../model")
  {
    assert ".."[..2][1] != "./"[1];
    assert "./ui"[..2] == "./";
    assert "../model"[..3] == "../";
  }
}
