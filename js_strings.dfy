/**
 The few JavaScript string operations the two lint rules rely on, with the
 semantics of the ECMAScript built-ins for a string (not regular-expression)
 argument:

 - `s.indexOf(pat)`: the first position at which `pat` occurs;
 - `s.split(sep)` for a non-empty `sep`: the pieces between successive
   non-overlapping occurrences, scanning left to right (`"".split("/")` is `[""]`);
 - `s.replace(pat, rep)` with a replacement holding no `$` (the rules pass
   `""`): only the FIRST occurrence of `pat`, wherever it is, is replaced,
   by `rep` taken literally;
 - `s.startsWith(p)`.
 */
module JsStrings {

  datatype Option<T> = None | Some(value: T)

  /** `pat` occurs in `s` starting at position `i`. */
  predicate OccursAt(s: string, pat: string, i: int)
  {
    0 <= i && i + |pat| <= |s| && s[i..i + |pat|] == pat
  }

  predicate Occurs(s: string, pat: string)
  {
    exists i :: 0 <= i <= |s| && OccursAt(s, pat, i)
  }

  /** `i` is the leftmost occurrence of `pat` in `s`. */
  predicate FirstOccurrenceAt(s: string, pat: string, i: int)
  {
    OccursAt(s, pat, i) && forall j :: 0 <= j < i ==> !OccursAt(s, pat, j)
  }

  /** `String.prototype.indexOf(pat, from)`, with "not found" as `None`. */
  function IndexOfFrom(s: string, pat: string, from: nat): Option<nat>
    requires from <= |s|
    decreases |s| - from
  {
    if from + |pat| > |s| then None
    else if s[from..from + |pat|] == pat then Some(from)
    else IndexOfFrom(s, pat, from + 1)
  }

  /** `IndexOfFrom` finds the leftmost occurrence at or after `from`. */
  lemma {:induction false} IndexOfFromFindsFirst(s: string, pat: string, from: nat)
    requires from <= |s|
    decreases |s| - from
    ensures var r := IndexOfFrom(s, pat, from);
      && (r.Some? ==> from <= r.value && OccursAt(s, pat, r.value))
      && (r.Some? ==> forall j :: from <= j < r.value ==> !OccursAt(s, pat, j))
      && (r.None? ==> forall j :: from <= j ==> !OccursAt(s, pat, j))
  {
    if from + |pat| <= |s| && s[from..from + |pat|] != pat {
      IndexOfFromFindsFirst(s, pat, from + 1);
    }
  }

  /** `String.prototype.indexOf(pat)`. */
  function IndexOf(s: string, pat: string): (r: Option<nat>)
    ensures r.None? <==> !Occurs(s, pat)
    ensures r.Some? ==> FirstOccurrenceAt(s, pat, r.value)
  {
    IndexOfFromFindsFirst(s, pat, 0);
    IndexOfFrom(s, pat, 0)
  }

  /** `Array.prototype.join(sep)`: the inverse of `Split`. */
  function Join(parts: seq<string>, sep: string): string
  {
    if |parts| == 0 then []
    else if |parts| == 1 then parts[0]
    else parts[0] + sep + Join(parts[1..], sep)
  }

  /** `String.prototype.split(sep)` for a non-empty string separator. */
  function Split(s: string, sep: string): (parts: seq<string>)
    requires sep != []
    decreases |s|
    ensures |parts| >= 1
  {
    match IndexOf(s, sep)
    case None => [s]
    case Some(i) => [s[..i]] + Split(s[i + |sep|..], sep)
  }

  /** Joining the pieces of a split with the separator gives the string back. */
  lemma {:induction false} JoinSplit(s: string, sep: string)
    requires sep != []
    ensures Join(Split(s, sep), sep) == s
    decreases |s|
  {
    var parts := Split(s, sep);
    match IndexOf(s, sep)
    case None =>
    case Some(i) =>
      var rest := s[i + |sep|..];
      JoinSplit(rest, sep);
      assert |parts| >= 2 && parts[0] == s[..i] && parts[1..] == Split(rest, sep);
      assert s == s[..i] + sep + rest;
  }

  /** No piece of a split contains the separator. */
  lemma {:induction false} SplitPiecesFree(s: string, sep: string, k: nat)
    requires sep != [] && k < |Split(s, sep)|
    ensures !Occurs(Split(s, sep)[k], sep)
    decreases |s|
  {
    var i := SplitCases(s, sep);
    if i < |s| {
      if k == 0 {
        PrefixBeforeFirstOccurrence(s, sep, i);
      } else {
        SplitPiecesFree(s[i + |sep|..], sep, k - 1);
      }
    }
  }

  /**
   `Split` either finds no separator and gives `[s]` (then `i == |s|`), or
   cuts the first piece off at the first separator, at `i`.
   */
  lemma SplitCases(s: string, sep: string) returns (i: nat)
    requires sep != []
    ensures i <= |s|
    ensures i == |s| ==> !Occurs(s, sep) && Split(s, sep) == [s]
    ensures i < |s| ==> FirstOccurrenceAt(s, sep, i) && i + |sep| <= |s|
    ensures i < |s| ==> |Split(s, sep)| == |Split(s[i + |sep|..], sep)| + 1 && Split(s, sep)[0] == s[..i]
    ensures i < |s| ==> forall k :: 0 < k < |Split(s, sep)| ==> Split(s, sep)[k] == Split(s[i + |sep|..], sep)[k - 1]
  {
    match IndexOf(s, sep)
    case None =>
      i := |s|;
    case Some(j) =>
      i := j;
      var parts, rest := Split(s, sep), Split(s[j + |sep|..], sep);
      assert parts == [s[..j]] + rest;
      forall k | 0 < k < |parts|
        ensures parts[k] == rest[k - 1]
      {
      }
  }

  /**
   When `pat` first occurs right after `a`, the split's first piece is `a`
   and its second piece is the first piece of the split of what follows.
   */
  lemma SplitAtFirstOccurrence(a: string, pat: string, b: string)
    requires pat != [] && FirstOccurrenceAt(a + pat + b, pat, |a|)
    ensures |Split(a + pat + b, pat)| >= 2
    ensures Split(a + pat + b, pat)[0] == a && Split(a + pat + b, pat)[1] == Split(b, pat)[0]
  {
    var s := a + pat + b;
    var i := SplitCases(s, pat);
    assert OccursAt(s, pat, |a|);
    assert i == |a|;
    assert s[..i] == a && s[i + |pat|..] == b;
  }

  /** The text in front of the first occurrence of `pat` does not contain `pat`. */
  lemma PrefixBeforeFirstOccurrence(s: string, pat: string, i: nat)
    requires pat != [] && FirstOccurrenceAt(s, pat, i)
    ensures !Occurs(s[..i], pat)
  {
    forall m | 0 <= m <= i
      ensures !OccursAt(s[..i], pat, m)
    {
      if m + |pat| <= i {
        assert s[..i][m..m + |pat|] == s[m..m + |pat|];
        assert !OccursAt(s, pat, m);
      }
    }
  }

  /**
   `String.prototype.replace(pat, rep)` with a string pattern and a
   replacement holding no `$`. JavaScript expands `$&`, `$$`, `` $` `` and
   `$'` in a replacement string; `rep` is inserted literally here.
   */
  function ReplaceFirst(s: string, pat: string, rep: string): (r: string)
    ensures !Occurs(s, pat) ==> r == s
    ensures forall i :: FirstOccurrenceAt(s, pat, i) ==> r == s[..i] + rep + s[i + |pat|..]
  {
    match IndexOf(s, pat)
    case None => s
    case Some(i) => s[..i] + rep + s[i + |pat|..]
  }

  /**
   The names a plain JavaScript object literal answers with a truthy value
   although it does not own them: the members it inherits from
   `Object.prototype` (functions, and `__proto__`, the prototype object).
   */
  const ObjectPrototypeKeys: set<string> := {
    "constructor", "__proto__", "__defineGetter__", "__defineSetter__",
    "__lookupGetter__", "__lookupSetter__", "hasOwnProperty", "isPrototypeOf",
    "propertyIsEnumerable", "toString", "toLocaleString", "valueOf"
  }

  /** `String.prototype.startsWith(p)`. */
  predicate StartsWith(s: string, p: string)
  {
    |p| <= |s| && s[..|p|] == p
  }

  /** Each character of an occurrence is the matching character of the pattern. */
  lemma OccurrenceChars(s: string, pat: string, i: int, k: int)
    requires OccursAt(s, pat, i) && 0 <= k < |pat|
    ensures s[i + k] == pat[k]
  {
    assert s[i..i + |pat|][k] == s[i + k];
  }

  /** A prefix of `a + b` reaching past `a` is `a` followed by a prefix of `b`. */
  lemma PrefixPastJoint(a: string, b: string, k: int)
    requires |a| <= k <= |a| + |b|
    ensures (a + b)[..k] == a + b[..k - |a|]
  {
  }

  /** The part of `a + b` from a position inside `b` on is a suffix of `b`. */
  lemma SuffixPastJoint(a: string, b: string, k: int)
    requires |a| <= k <= |a| + |b|
    ensures (a + b)[k..] == b[k - |a|..]
  {
  }

  /** A pattern does not occur where one of its characters is missing. */
  lemma MismatchAt(s: string, pat: string, i: int, k: int)
    requires 0 <= k < |pat| && 0 <= i && i + k < |s| && s[i + k] != pat[k]
    ensures !OccursAt(s, pat, i)
  {
    if OccursAt(s, pat, i) {
      OccurrenceChars(s, pat, i, k);
    }
  }

  /** For a one-character pattern, occurring is ordinary membership. */
  lemma OccursChar(s: string, c: char)
    ensures Occurs(s, [c]) <==> c in s
  {
    if c in s {
      var i :| 0 <= i < |s| && s[i] == c;
      assert s[i..i + 1] == [c];
      assert OccursAt(s, [c], i);
    }
    if Occurs(s, [c]) {
      var i :| 0 <= i <= |s| && OccursAt(s, [c], i);
      OccurrenceChars(s, [c], i, 0);
    }
  }

  /** A string that misses one character of `pat` cannot contain `pat`. */
  lemma NoOccurrenceWithoutChar(s: string, pat: string, k: nat)
    requires k < |pat| && pat[k] !in s
    ensures !Occurs(s, pat)
  {
    forall i | 0 <= i <= |s|
      ensures !OccursAt(s, pat, i)
    {
      if OccursAt(s, pat, i) {
        OccurrenceChars(s, pat, i, k);
      }
    }
  }

  /**
   A pattern without the character `c` cannot straddle `c`: it occurs in
   `a + [c] + b` only if it occurs in `a` or in `b`.
   */
  lemma NoOccurrenceAcross(a: string, c: char, b: string, pat: string)
    requires c !in pat && !Occurs(a, pat) && !Occurs(b, pat)
    ensures !Occurs(a + [c] + b, pat)
  {
    var s := a + [c] + b;
    assert s[|a|] == c;
    forall i | 0 <= i <= |s|
      ensures !OccursAt(s, pat, i)
    {
      if i + |pat| <= |a| {
        assert !OccursAt(a, pat, i);
        assert s[i..i + |pat|] == a[i..i + |pat|];
      } else if i <= |a| {
        if i + |pat| <= |s| {
          MismatchAt(s, pat, i, |a| - i);
        }
      } else {
        assert !OccursAt(b, pat, i - |a| - 1);
        if i + |pat| <= |s| {
          assert s[i..i + |pat|] == b[i - |a| - 1..i - |a| - 1 + |pat|];
        }
      }
    }
  }

  /** A character absent from a string is absent from every piece of its split. */
  lemma {:induction false} SplitPiecesWithout(s: string, sep: string, c: char, k: nat)
    requires sep != [] && c !in s && k < |Split(s, sep)|
    ensures c !in Split(s, sep)[k]
    decreases |s|
  {
    var i := SplitCases(s, sep);
    if i < |s| {
      if k == 0 {
        SliceWithout(s, c, 0, i);
      } else {
        SliceWithout(s, c, i + |sep|, |s|);
        SplitPiecesWithout(s[i + |sep|..], sep, c, k - 1);
      }
    }
  }

  /** A character absent from a string is absent from each of its slices. */
  lemma SliceWithout(s: string, c: char, lo: nat, hi: nat)
    requires c !in s && lo <= hi <= |s|
    ensures c !in s[lo..hi]
  {
    forall j | 0 <= j < hi - lo
      ensures s[lo..hi][j] != c
    {
      assert s[lo..hi][j] == s[lo + j];
    }
  }

  /** When the first character of `pat` is absent from `a`, `pat` is first found right after `a`. */
  lemma FirstOccurrenceAfter(a: string, pat: string, t: string)
    requires pat != [] && pat[0] !in a
    ensures FirstOccurrenceAt(a + pat + t, pat, |a|)
  {
    var s := a + pat + t;
    assert s[|a|..|a| + |pat|] == pat;
    forall j | 0 <= j < |a|
      ensures !OccursAt(s, pat, j)
    {
      if OccursAt(s, pat, j) {
        OccurrenceChars(s, pat, j, 0);
      }
    }
  }

  /**
   Splitting on a single character, defined one character at a time. It is
   the same function as `Split` with a one-character separator
   (`SplitOnChar`), and is easier to reason about.
   */
  function SplitChar(s: string, c: char): (parts: seq<string>)
    ensures |parts| >= 1
  {
    if s == [] then [[]]
    else if s[0] == c then [[]] + SplitChar(s[1..], c)
    else
      var r := SplitChar(s[1..], c);
      [[s[0]] + r[0]] + r[1..]
  }

  lemma {:induction false} SplitCharWithout(s: string, c: char)
    requires c !in s
    ensures SplitChar(s, c) == [s]
  {
    if s != [] {
      SplitCharWithout(s[1..], c);
      assert [s[0]] + s[1..] == s;
    }
  }

  /** Up to its first separator, a string forms the first piece. */
  lemma {:induction false} SplitCharAtFirst(s: string, c: char, i: nat)
    requires i < |s| && s[i] == c && c !in s[..i]
    ensures SplitChar(s, c) == [s[..i]] + SplitChar(s[i + 1..], c)
  {
    if i > 0 {
      assert s[1..][..i - 1] == s[1..i];
      assert s[1..][i - 1 + 1..] == s[i + 1..];
      SplitCharAtFirst(s[1..], c, i - 1);
      assert [s[0]] + s[1..i] == s[..i];
    }
  }

  /** `Split` on a one-character separator is `SplitChar`. */
  lemma {:induction false} SplitOnChar(s: string, c: char)
    ensures Split(s, [c]) == SplitChar(s, c)
    decreases |s|
  {
    OccursChar(s, c);
    match IndexOf(s, [c])
    case None =>
      SplitCharWithout(s, c);
    case Some(i) =>
      OccurrenceChars(s, [c], i, 0);
      forall j | 0 <= j < i
        ensures s[..i][j] != c
      {
        if s[j] == c {
          assert s[j..j + 1] == [c];
          assert OccursAt(s, [c], j);
        }
      }
      SplitCharAtFirst(s, c, i);
      SplitOnChar(s[i + 1..], c);
  }

  /** Splitting a string with no separator in it gives the string alone. */
  lemma SplitWithoutSeparator(s: string, c: char)
    requires c !in s
    ensures Split(s, [c]) == [s]
  {
    OccursChar(s, c);
  }

  /** A one-character separator splits a concatenation piecewise. */
  lemma {:induction false} SplitCharConcat(a: string, c: char, b: string)
    ensures SplitChar(a + [c] + b, c) == SplitChar(a, c) + SplitChar(b, c)
  {
    if a == [] {
      assert a + [c] + b == [c] + b;
      assert ([c] + b)[1..] == b;
    } else {
      assert (a + [c] + b)[0] == a[0];
      assert (a + [c] + b)[1..] == a[1..] + [c] + b;
      SplitCharConcat(a[1..], c, b);
    }
  }

  lemma SplitConcat(a: string, c: char, b: string)
    ensures Split(a + [c] + b, [c]) == Split(a, [c]) + Split(b, [c])
  {
    SplitOnChar(a + [c] + b, c);
    SplitOnChar(a, c);
    SplitOnChar(b, c);
    SplitCharConcat(a, c, b);
  }

  /** A string holding the separator has a last one, with no separator after it. */
  lemma {:induction false} LastSeparator(p: string, c: char) returns (x: string, y: string)
    requires c in p
    ensures p == x + [c] + y && c !in y
  {
    var n := |p| - 1;
    if p[n] == c {
      x, y := p[..n], [];
      assert p == p[..n] + [p[n]];
    } else {
      x, y := LastSeparator(p[..n], c);
      y := y + [p[n]];
      assert p == p[..n] + [p[n]];
    }
  }

  /** A string holding the separator has a first one, with no separator before it. */
  lemma {:induction false} FirstSeparator(p: string, c: char) returns (x: string, y: string)
    requires c in p
    ensures p == x + [c] + y && c !in x
  {
    if p[0] == c {
      x, y := [], p[1..];
      assert p == [p[0]] + p[1..];
    } else {
      x, y := FirstSeparator(p[1..], c);
      x := [p[0]] + x;
      assert p == [p[0]] + p[1..];
    }
  }

  /** Everything up to the first separator is the first piece. */
  lemma SplitHead(x: string, c: char, y: string)
    requires c !in x
    ensures Split(x + [c] + y, [c]) == [x] + Split(y, [c])
  {
    SplitConcat(x, c, y);
    SplitWithoutSeparator(x, c);
  }

  /** There are at least two pieces exactly when the separator occurs. */
  lemma SplitSeveral(s: string, c: char)
    ensures |Split(s, [c])| >= 2 <==> c in s
  {
    if c in s {
      var x, y := FirstSeparator(s, c);
      SplitHead(x, c, y);
    } else {
      SplitWithoutSeparator(s, c);
    }
  }

  /** For a one-character separator, `Split` undoes `Join`. */
  lemma {:induction false} SplitJoin(parts: seq<string>, c: char)
    requires |parts| >= 1
    requires forall k :: 0 <= k < |parts| ==> c !in parts[k]
    ensures Split(Join(parts, [c]), [c]) == parts
    decreases |parts|
  {
    if |parts| == 1 {
      SplitWithoutSeparator(parts[0], c);
    } else {
      var rest := Join(parts[1..], [c]);
      assert Join(parts, [c]) == parts[0] + [c] + rest;
      SplitHead(parts[0], c, rest);
      SplitJoin(parts[1..], c);
      assert [parts[0]] + parts[1..] == parts;
    }
  }
}
