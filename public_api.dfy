/**
 The `public-api-import-checker` rule (lib/rules/public-api-import-checker.js):
 an absolute import into a sliced layer (`entities`, `features`, `pages`,
 `widgets`) must stop at the slice, `layer/slice`; anything deeper reaches
 past the slice's public API and is reported.
 */
module PublicApi {
  import opened JsStrings
  import opened Layers
  import opened ImportPaths

  /** The keys of `checkingLayers`: the layers whose slices have a public API. */
  const CheckingLayers: set<Layer> := {Entities, Features, Pages, Widgets}

  /** The message id the rule reports with. */
  const ShouldUseOnlyPublicApi := "shouldUseOnlyPublicApi"

  /** `checkingLayers[name]` read as an own property of the table. */
  predicate IsCheckingLayer(name: string)
  {
    match Parse(name)
    case Some(l) => l in CheckingLayers
    case None => false
  }

  /**
   The `ImportDeclaration` handler: whether importing `value` is reported,
   with `alias` the configured alias (`""` when missing or empty).
   */
  predicate Reports(alias: string, value: string)
  {
    var segments := Segments(alias, value);
    !IsPathRelative(StripAlias(alias, value)) && IsCheckingLayer(segments[0]) && |segments| > 2
  }

  /** The reports the handler makes for one import: none, or one. */
  function Messages(alias: string, value: string): (ids: seq<string>)
    ensures |ids| <= 1
    ensures ids != [] <==> Reports(alias, value)
    ensures forall k :: 0 <= k < |ids| ==> ids[k] == ShouldUseOnlyPublicApi
  {
    if Reports(alias, value) then [ShouldUseOnlyPublicApi] else []
  }

  /** A relative path (after the alias is cut out) is never reported. */
  lemma RelativeNeverReported(alias: string, value: string)
    requires IsPathRelative(StripAlias(alias, value))
    ensures !Reports(alias, value)
  {
  }

  /** A path whose first segment is not one of the four sliced layers is never reported. */
  lemma UncheckedLayerNeverReported(alias: string, value: string)
    requires !IsCheckingLayer(Segments(alias, value)[0])
    ensures !Reports(alias, value)
  {
  }

  /**
   Whether a path whose first segment (after the alias is cut out) names
   layer `l` is reported: exactly when `l` is a sliced layer and the path
   has more than two segments.
   */
  lemma ReportsOnLayerPath(alias: string, value: string, l: Layer)
    requires Segments(alias, value)[0] == Name(l)
    ensures Reports(alias, value) <==> l in CheckingLayers && |Segments(alias, value)| > 2
  {
    ParseName(Name(l), l);
    LayerPathNotRelative(StripAlias(alias, value), l);
  }

  /** Imports from a layer without slices are never reported, however deep. */
  lemma UnslicedLayerNeverReported(l: Layer, rest: string)
    requires l !in CheckingLayers
    ensures !Reports("", Name(l) + "/" + rest)
  {
    NameShape(l);
    SplitHead(Name(l), '/', rest);
    ReportsOnLayerPath("", Name(l) + "/" + rest, l);
  }

  /** Imports from `app` and `shared` are never reported, however deep. */
  lemma AppAndSharedNeverReported(rest: string)
    ensures !Reports("", "app/" + rest)
    ensures !Reports("", "shared/" + rest)
  {
    UnslicedLayerNeverReported(App, rest);
    assert Name(App) + "/" + rest == "app/" + rest;
    UnslicedLayerNeverReported(Shared, rest);
    assert Name(Shared) + "/" + rest == "shared/" + rest;
  }

  /** A layer name never starts a relative path. */
  lemma LayerPathNotRelative(path: string, l: Layer)
    requires Split(path, "/")[0] == Name(l)
    ensures !IsPathRelative(path)
  {
    RelativeIffDotSegment(path);
  }

  /**
   For a path into a sliced layer, the rule reports exactly when the path
   has more than two segments.
   */
  lemma ReportsIffDeeperThanSlice(alias: string, value: string)
    requires IsCheckingLayer(Segments(alias, value)[0])
    ensures Reports(alias, value) <==> |Segments(alias, value)| > 2
  {
    var segments := Segments(alias, value);
    var l := Parse(segments[0]).value;
    ParseName(segments[0], l);
    LayerPathNotRelative(StripAlias(alias, value), l);
  }

  /**
   The public API of a slice is `layer/slice`: importing it is accepted, and
   importing anything below it, `layer/slice/rest`, is reported.
   */
  lemma {:induction false} PublicApiIsLayerAndSlice(l: Layer, slice: string, rest: string)
    requires l in CheckingLayers && '/' !in slice
    ensures !Reports("", Name(l) + "/" + slice)
    ensures Reports("", Name(l) + "/" + slice + "/" + rest)
  {
    NameShape(l);
    SliceDepth(Name(l), slice, rest);
    ReportsOnLayerPath("", Name(l) + "/" + slice, l);
    ReportsOnLayerPath("", Name(l) + "/" + slice + "/" + rest, l);
  }

  /** `name/slice` has two segments, and `name/slice/rest` more, both starting with `name`. */
  lemma SliceDepth(name: string, slice: string, rest: string)
    requires '/' !in name && '/' !in slice
    ensures |Split(name + "/" + slice, "/")| == 2 && Split(name + "/" + slice, "/")[0] == name
    ensures |Split(name + "/" + slice + "/" + rest, "/")| > 2 && Split(name + "/" + slice + "/" + rest, "/")[0] == name
  {
    SplitHead(name, '/', slice);
    SplitWithoutSeparator(slice, '/');
    assert name + "/" + slice + "/" + rest == name + "/" + (slice + "/" + rest);
    SplitHead(name, '/', slice + "/" + rest);
    SplitHead(slice, '/', rest);
  }

  /** `entities/article` is accepted; `entities/article/model/types` is reported. */
  lemma ArticleExamples()
    ensures !Reports("", Name(Entities) + "/" + "article")
    ensures Reports("", Name(Entities) + "/" + "article" + "/" + "model/types")
  {
    PublicApiIsLayerAndSlice(Entities, "article", "model/types");
  }

  /**
   Reporting depends on the cut-out path only through its first segment
   and its number of segments, so a path with the same first segment and at
   least as many segments is reported too.
   */
  lemma ReportedWhenDeeper(st: string, st': string)
    requires var segments, segments' := Split(st, "/"), Split(st', "/");
      segments'[0] == segments[0] && |segments'| >= |segments|
    requires !IsPathRelative(st) && IsCheckingLayer(Split(st, "/")[0]) && |Split(st, "/")| > 2
    ensures !IsPathRelative(st') && IsCheckingLayer(Split(st', "/")[0]) && |Split(st', "/")| > 2
  {
    var l := Parse(Split(st, "/")[0]).value;
    ParseName(Split(st, "/")[0], l);
    LayerPathNotRelative(st', l);
  }

  /** Appending to a path keeps its first occurrence of a pattern that it already holds. */
  lemma FirstOccurrenceKept(v: string, pat: string, i: nat, t: string)
    requires FirstOccurrenceAt(v, pat, i)
    ensures FirstOccurrenceAt(v + t, pat, i)
  {
    assert (v + t)[i..i + |pat|] == v[i..i + |pat|];
    forall j | 0 <= j < i
      ensures !OccursAt(v + t, pat, j)
    {
      assert (v + t)[j..j + |pat|] == v[j..j + |pat|];
      assert !OccursAt(v, pat, j);
    }
  }

  /**
   An occurrence of `alias + "/"` in `v + "/" + seg` that is not already in
   `v` either lies inside the appended text, or consists of a tail of `v`
   that equals the alias followed by the appended `/`.
   */
  lemma NewOccurrence(v: string, alias: string, seg: string, k: nat)
    requires alias != "" && '/' !in alias
    requires !Occurs(v, alias + "/") && OccursAt(v + "/" + seg, alias + "/", k)
    ensures k > |v| || (k + |alias| == |v| && v[k..] == alias)
  {
    var pat, w := alias + "/", v + "/" + seg;
    if k <= |v| {
      if k + |pat| <= |v| {
        assert w[k..k + |pat|] == v[k..k + |pat|];
        assert OccursAt(v, pat, k);
      }
      OccurrenceChars(w, pat, k, |v| - k);
      assert pat[|v| - k] == '/';
      assert v[k..] == w[k..k + |alias|];
    }
  }

  /** When `v` already holds the alias, appending to `v` appends to its cut-out form. */
  lemma StripAppendedKept(alias: string, v: string, seg: string)
    requires alias != "" && Occurs(v, alias + "/")
    ensures StripAlias(alias, v + "/" + seg) == StripAlias(alias, v) + "/" + seg
  {
    var pat, t := alias + "/", "/" + seg;
    var i := IndexOf(v, pat).value;
    FirstOccurrenceKept(v, pat, i, t);
    StripAliasAtFirst(alias, v, i);
    StripAliasAtFirst(alias, v + t, i);
    assert (v + t)[..i] == v[..i];
    assert (v + t)[i + |pat|..] == v[i + |pat|..] + t;
    assert v + "/" + seg == v + t;
  }

  /**
   When `v` does not hold the alias but `v + "/" + seg` does, the alias is
   found inside `seg`, or `v` ends with the alias and the appended `/`
   completes it.
   */
  lemma StripAppendedNew(alias: string, v: string, seg: string) returns (head: string, tail: string, straddles: bool)
    requires alias != "" && '/' !in alias
    requires !Occurs(v, alias + "/") && Occurs(v + "/" + seg, alias + "/")
    ensures StripAlias(alias, v + "/" + seg) == head + tail
    ensures !straddles ==> head == v + "/" && tail == StripAlias(alias, seg)
    ensures straddles ==> v == head + alias && tail == seg
  {
    var pat, w := alias + "/", v + "/" + seg;
    var k := IndexOf(w, pat).value;
    NewOccurrence(v, alias, seg, k);
    if k > |v| {
      var middle, rest := StripAppendedInSeg(alias, v, seg, k);
      head, tail, straddles := v + "/", middle + rest, false;
    } else {
      StripAppendedStraddle(alias, v, seg, k);
      head, tail, straddles := v[..k], seg, true;
    }
  }

  /**
   An alias first found inside the appended segment is cut out there, which
   is where `seg` on its own would have it cut out.
   */
  lemma StripAppendedInSeg(alias: string, v: string, seg: string, k: nat) returns (middle: string, rest: string)
    requires alias != "" && FirstOccurrenceAt(v + "/" + seg, alias + "/", k) && k > |v|
    ensures StripAlias(alias, v + "/" + seg) == v + "/" + (middle + rest)
    ensures middle + rest == StripAlias(alias, seg)
  {
    var w, m := v + "/" + seg, k - |v| - 1;
    assert w == (v + "/") + seg;
    StripAliasAtFirst(alias, w, k);
    middle, rest := seg[..m], seg[m + |alias| + 1..];
    PrefixPastJoint(v + "/", seg, k);
    SuffixPastJoint(v + "/", seg, k + |alias| + 1);
    FirstOccurrenceInSuffix(v + "/", seg, alias + "/", k);
    StripAliasAtFirst(alias, seg, m);
  }

  /** The first occurrence in `p + t`, when it lies in `t`, is the first occurrence in `t`. */
  lemma FirstOccurrenceInSuffix(p: string, t: string, pat: string, k: int)
    requires FirstOccurrenceAt(p + t, pat, k) && k >= |p|
    ensures FirstOccurrenceAt(t, pat, k - |p|)
  {
    assert (p + t)[k..k + |pat|] == t[k - |p|..k - |p| + |pat|];
    forall j | 0 <= j < k - |p|
      ensures !OccursAt(t, pat, j)
    {
      OccurrenceInSuffix(p, t, pat, j);
    }
  }

  /** An occurrence in `t` is an occurrence in `p + t`, shifted by `|p|`. */
  lemma OccurrenceInSuffix(p: string, t: string, pat: string, j: int)
    ensures OccursAt(t, pat, j) ==> OccursAt(p + t, pat, |p| + j)
  {
    if OccursAt(t, pat, j) {
      assert (p + t)[|p| + j..|p| + j + |pat|] == t[j..j + |pat|];
    }
  }

  /** An alias absent from `v + "/" + seg` is absent from `seg`. */
  lemma AbsentFromAppended(v: string, seg: string, pat: string)
    requires !Occurs(v + "/" + seg, pat)
    ensures !Occurs(seg, pat)
  {
    assert v + "/" + seg == (v + "/") + seg;
    forall j | 0 <= j <= |seg|
      ensures !OccursAt(seg, pat, j)
    {
      OccurrenceInSuffix(v + "/", seg, pat, j);
    }
  }

  /** An alias that ends `v` and is completed by the appended `/` is cut out there. */
  lemma StripAppendedStraddle(alias: string, v: string, seg: string, k: nat)
    requires alias != "" && FirstOccurrenceAt(v + "/" + seg, alias + "/", k)
    requires k + |alias| == |v| && v[k..] == alias
    ensures StripAlias(alias, v + "/" + seg) == v[..k] + seg
    ensures v == v[..k] + alias
  {
    assert v == v[..k] + v[k..];
    var w := v + "/" + seg;
    StripAliasAtFirst(alias, w, k);
    assert w[..k] == v[..k];
    assert w[k + |alias| + 1..] == seg;
  }

  /**
   The cut-out form of `v + "/" + seg`, in three cases:
   - when `v` already holds the alias (or there is none), the cut-out `v`,
     `"/"` and `seg`;
   - when the alias is first found inside `seg`, `v`, `"/"` and the
     cut-out `seg`;
   - when the alias is first found straddling the appended `/`, the part of
     `v` before its trailing alias, followed by `seg`.
   */
  lemma StripAppended(alias: string, v: string, seg: string)
      returns (head: string, tail: string, straddles: bool)
    requires '/' !in alias
    ensures StripAlias(alias, v + "/" + seg) == head + tail
    ensures !straddles ==> head == StripAlias(alias, v) + "/"
    ensures straddles ==> alias != "" && StripAlias(alias, v) == v && v == head + alias
    ensures straddles ==> tail == seg
    ensures (alias == "" || Occurs(v, alias + "/")) ==> !straddles && tail == seg
    ensures !straddles && alias != "" && !Occurs(v, alias + "/") ==> tail == StripAlias(alias, seg)
  {
    var pat, w := alias + "/", v + "/" + seg;
    if alias == "" {
      head, tail, straddles := v + "/", seg, false;
    } else if Occurs(v, pat) {
      StripAppendedKept(alias, v, seg);
      head, tail, straddles := StripAlias(alias, v) + "/", seg, false;
    } else {
      StripAliasAbsent(alias, v);
      if !Occurs(w, pat) {
        StripAliasAbsent(alias, w);
        AbsentFromAppended(v, seg, pat);
        StripAliasAbsent(alias, seg);
        head, tail, straddles := v + "/", seg, false;
      } else {
        head, tail, straddles := StripAppendedNew(alias, v, seg);
      }
    }
  }

  /** Appending `"/" + tail` keeps the first segment and adds segments. */
  lemma SegmentsAfterAppend(st: string, tail: string)
    ensures Split(st + "/" + tail, "/")[0] == Split(st, "/")[0]
    ensures |Split(st + "/" + tail, "/")| > |Split(st, "/")|
  {
    SplitConcat(st, '/', tail);
    var ps, ts := Split(st, "/"), Split(tail, "/");
    assert (ps + ts)[0] == ps[0];
  }

  /**
   Replacing a trailing `alias` without `/` by any `tail` keeps the first
   segment and does not lose segments, once `head` holds a `/`.
   */
  lemma SegmentsAfterTrailingAlias(head: string, alias: string, tail: string)
    requires '/' !in alias && '/' in head
    ensures Split(head + tail, "/")[0] == Split(head + alias, "/")[0]
    ensures |Split(head + tail, "/")| >= |Split(head + alias, "/")|
  {
    var x, y := LastSeparator(head, '/');
    assert head + alias == x + "/" + (y + alias);
    assert head + tail == x + "/" + (y + tail);
    assert '/' !in y + alias;
    SplitConcat(x, '/', y + alias);
    SplitWithoutSeparator(y + alias, '/');
    SplitConcat(x, '/', y + tail);
    var xs := Split(x, "/");
    assert (xs + Split(y + alias, "/"))[0] == xs[0];
    assert (xs + Split(y + tail, "/"))[0] == xs[0];
  }

  /** A character of `a + b` that is not in `b` is in `a`. */
  lemma CharOfPrefix(a: string, b: string, c: char)
    requires c in a + b && c !in b
    ensures c in a
  {
    var i :| 0 <= i < |a + b| && (a + b)[i] == c;
    if i >= |a| {
      assert b[i - |a|] == c;
    }
  }

  /**
   Once reported, an import stays reported when further segments are
   appended to it, provided the alias holds no `/`.
   */
  lemma {:induction false} ReportedDeeperStaysReported(alias: string, value: string, seg: string)
    requires '/' !in alias
    ensures Reports(alias, value) ==> Reports(alias, value + "/" + seg)
  {
    if Reports(alias, value) {
      var st := StripAlias(alias, value);
      var head, tail, straddles := StripAppended(alias, value, seg);
      if !straddles {
        assert head + tail == st + "/" + tail;
        SegmentsAfterAppend(st, tail);
      } else {
        SplitSeveral(st, '/');
        CharOfPrefix(head, alias, '/');
        SegmentsAfterTrailingAlias(head, alias, tail);
      }
      ReportedWhenDeeper(st, head + tail);
    }
  }

  /** A pattern cannot start in `a` when `a` misses its first character, nor fit in a shorter tail. */
  lemma NoOccurrenceNearEnd(a: string, b: string, pat: string)
    requires pat != [] && pat[0] !in a && |b| < |pat|
    ensures !Occurs(a + b, pat)
  {
    forall i | 0 <= i <= |a + b|
      ensures !OccursAt(a + b, pat, i)
    {
      if i < |a| {
        assert (a + b)[i] == a[i];
        MismatchAt(a + b, pat, i, 0);
      }
    }
  }

  /**
   With an alias that holds a `/`, appending a segment can make a reported
   import accepted: for the alias `x/y`, `layer/x/y` is reported, but in
   `layer/x/y/s` the alias is first found straddling the appended `/`, and
   cutting it out leaves the public API path `layer/s`.
   */
  lemma SlashInAliasBreaksDepthOrder(l: Layer, x: string, y: string, seg: string)
    requires l in CheckingLayers
    requires x != "" && x[0] !in Name(l) + "/" && '/' !in x && '/' !in y && '/' !in seg
    ensures Reports(x + "/" + y, Name(l) + "/" + x + "/" + y)
    ensures !Reports(x + "/" + y, Name(l) + "/" + x + "/" + y + "/" + seg)
  {
    NameShape(l);
    var alias := x + "/" + y;
    var v := Name(l) + "/" + alias;
    assert Name(l) + "/" + x + "/" + y == v;
    NoOccurrenceNearEnd(Name(l) + "/", alias, alias + "/");
    StripAliasAbsent(alias, v);
    PublicApiIsLayerAndSlice(l, x, y);
    StripAliasAfter(Name(l) + "/", alias, seg);
    assert Name(l) + "/" + x + "/" + y + "/" + seg == Name(l) + "/" + alias + "/" + seg;
    PublicApiIsLayerAndSlice(l, seg, "");
  }

  /**
   The handler as written looks `checkingLayers[layer]` up on a plain
   object, so the names it inherits from `Object.prototype` pass the check
   as well as the four layer names.
   */
  predicate ReportsAsWritten(alias: string, value: string)
  {
    var segments := Segments(alias, value);
    !IsPathRelative(StripAlias(alias, value))
    && (IsCheckingLayer(segments[0]) || segments[0] in ObjectPrototypeKeys)
    && |segments| > 2
  }

  /** The handler as written agrees with `Reports` except on inherited names. */
  lemma AsWrittenAgreesOffPrototype(alias: string, value: string)
    requires Segments(alias, value)[0] !in ObjectPrototypeKeys
    ensures ReportsAsWritten(alias, value) == Reports(alias, value)
  {
  }

  /**
   `constructor/a/b` (or any other name inherited from `Object.prototype`
   in place of `constructor`) names no layer, yet the handler as written
   reports it: `checkingLayers["constructor"]` is the inherited `Object`.
   */
  lemma InheritedNameReportedAsWritten(key: string, slice: string, rest: string)
    requires key in ObjectPrototypeKeys
    ensures ReportsAsWritten("", key + "/" + slice + "/" + rest)
    ensures !Reports("", key + "/" + slice + "/" + rest)
  {
    KeyShape(key);
    var path := key + "/" + slice + "/" + rest;
    assert path == key + "/" + (slice + "/" + rest);
    SplitHead(key, '/', slice + "/" + rest);
    SplitConcat(slice, '/', rest);
    InheritedKeysNameNoLayer(key);
    RelativeIffDotSegment(path);
  }
}
