/**
 The layer taxonomy of lib/rules/layer-imports.js: the six layer names
 (`availableLayers`) and the table of layers each one may import from
 (`layers`). Both are literal data in the source and are literal data here.
 */
module Layers {
  import opened JsStrings

  /** One of the six architectural layers, top to bottom. */
  datatype Layer = App | Pages | Widgets | Features | Entities | Shared

  /** The keys of `availableLayers`, in the order the source lists them. */
  const Universe: seq<Layer> := [App, Pages, Widgets, Entities, Features, Shared]

  /** The string a layer is written as in paths and in the tables. */
  function Name(l: Layer): string
  {
    match l
    case App => "app"
    case Pages => "pages"
    case Widgets => "widgets"
    case Features => "features"
    case Entities => "entities"
    case Shared => "shared"
  }

  /** The layer of `ls` written as `s`, if there is one. */
  function FindByName(ls: seq<Layer>, s: string): (r: Option<Layer>)
    ensures r.Some? ==> r.value in ls && Name(r.value) == s
    ensures r.None? ==> forall l :: l in ls ==> Name(l) != s
  {
    if ls == [] then None
    else if Name(ls[0]) == s then Some(ls[0])
    else FindByName(ls[1..], s)
  }

  /**
   `availableLayers[s]` read as an own property of the table: the layer named
   `s`, or `None` when `s` is not one of the six names.
   */
  function Parse(s: string): Option<Layer>
  {
    FindByName(Universe, s)
  }

  /** `Parse` recognises exactly the six names, and each name denotes its own layer. */
  lemma ParseName(s: string, l: Layer)
    ensures Parse(s) == Some(l) <==> s == Name(l)
  {
    assert l in Universe;
    if s == Name(l) {
      NameInitial(Parse(s).value);
      NameInitial(l);
      InitialsDiffer(Parse(s).value, l);
    }
  }

  /** The six names start with six different letters, so a name determines its layer. */
  lemma NameInitial(l: Layer)
    ensures Name(l) != [] && Name(l)[0] == InitialOf(l)
  {
  }

  /** Different layers have different initials. */
  lemma InitialsDiffer(l: Layer, m: Layer)
    ensures InitialOf(l) == InitialOf(m) ==> l == m
  {
  }

  /** The letter each layer name starts with. */
  function InitialOf(l: Layer): char
  {
    match l
    case App => 'a'
    case Pages => 'p'
    case Widgets => 'w'
    case Features => 'f'
    case Entities => 'e'
    case Shared => 's'
  }

  /** The `layers` table: the layers a file of layer `l` may import from. */
  function Allowed(l: Layer): seq<Layer>
  {
    match l
    case App => [Pages, Widgets, Features, Entities, Shared]
    case Pages => [Widgets, Features, Entities, Shared]
    case Widgets => [Features, Entities, Shared]
    case Features => [Entities, Shared]
    case Entities => [Entities, Shared]
    case Shared => [Shared]
  }

  /** Height of a layer in the architecture: `app` on top, `shared` at the bottom. */
  function Rank(l: Layer): nat
  {
    match l
    case App => 5
    case Pages => 4
    case Widgets => 3
    case Features => 2
    case Entities => 1
    case Shared => 0
  }

  /** The two layers whose slices may import one another. */
  predicate SelfImporting(l: Layer)
  {
    l == Entities || l == Shared
  }

  /**
   The table is strictly downward: a layer may import exactly the layers
   below it, and itself only when it is `entities` or `shared`.
   */
  lemma AllowedIsDownward(l: Layer, m: Layer)
    ensures m in Allowed(l) <==> Rank(m) < Rank(l) || (m == l && SelfImporting(l))
  {
    match l
    case App =>
    case Pages =>
    case Widgets =>
    case Features =>
    case Entities =>
    case Shared =>
  }

  /** A `shared` file may import only from `shared`. */
  lemma SharedImportsOnlyShared(m: Layer)
    ensures m in Allowed(Shared) <==> m == Shared
  {
    AllowedIsDownward(Shared, m);
  }

  /** Every layer may import from `shared`. */
  lemma SharedAllowedEverywhere(l: Layer)
    ensures Shared in Allowed(l)
  {
    AllowedIsDownward(l, Shared);
  }

  /** `app` may import every other layer, and not itself. */
  lemma AppImportsAllBelow(m: Layer)
    ensures m in Allowed(App) <==> m != App
  {
    AllowedIsDownward(App, m);
  }

  /** Same-layer imports are allowed only in `entities` and `shared`. */
  lemma SelfImportAllowed(l: Layer)
    ensures l in Allowed(l) <==> SelfImporting(l)
  {
    AllowedIsDownward(l, l);
  }

  /**
   Every name an allow-list holds is a key of `availableLayers`, and no
   layer lists one above it.
   */
  lemma AllowListsWithinUniverse(l: Layer, m: Layer)
    requires m in Allowed(l)
    ensures Parse(Name(m)) == Some(m)
    ensures Rank(m) <= Rank(l)
  {
    ParseName(Name(m), m);
    AllowedIsDownward(l, m);
  }

  /** Every layer name is a short path segment starting with neither `t` nor `v`. */
  lemma NameShape(l: Layer)
    ensures |Name(l)| <= 8 && Name(l)[0] != 't' && Name(l)[0] != 'v'
    ensures '/' !in Name(l) && '\\' !in Name(l) && 'c' !in Name(l)
  {
    match l
    case App =>
    case Pages =>
    case Widgets =>
    case Features =>
    case Entities =>
    case Shared =>
  }

  /*
   The character facts below are checked a few names at a time, which keeps
   each proof small.
   */

  /** Inherited names starting with `__`, first part. */
  lemma KeyCharsDunder(key: string)
    requires key == "__proto__" || key == "__defineGetter__" || key == "__defineSetter__"
    ensures '/' !in key && '\\' !in key && ('c' !in key || 's' !in key)
  {
  }

  /** The `__lookup` names and `valueOf`. */
  lemma KeyCharsLookup(key: string)
    requires key == "__lookupGetter__" || key == "__lookupSetter__" || key == "valueOf"
    ensures '/' !in key && '\\' !in key && ('c' !in key || 's' !in key)
  {
  }

  /** The property-inspecting names. */
  lemma KeyCharsProperty(key: string)
    requires key == "hasOwnProperty" || key == "isPrototypeOf"
    ensures '/' !in key && '\\' !in key && ('c' !in key || 's' !in key)
  {
  }

  /** `propertyIsEnumerable`, the longest name, on its own. */
  lemma KeyCharsEnumerable(key: string)
    requires key == "propertyIsEnumerable"
    ensures '/' !in key && '\\' !in key && ('c' !in key || 's' !in key)
  {
  }

  /** The string-conversion names. */
  lemma KeyCharsString(key: string)
    requires key == "toString" || key == "toLocaleString"
    ensures '/' !in key && '\\' !in key && ('c' !in key || 's' !in key)
  {
  }

  /** `constructor` holds no `/`, no backslash and no `src`: its only `s` is followed by `t`. */
  lemma ConstructorShape()
    ensures '/' !in "constructor" && '\\' !in "constructor" && !Occurs("constructor", "src")
  {
    var key := "constructor";
    forall i | 0 <= i <= |key|
      ensures !OccursAt(key, "src", i)
    {
      if i == 3 {
        MismatchAt(key, "src", i, 1);
      } else if i + 3 <= |key| {
        MismatchAt(key, "src", i, 0);
      }
    }
  }

  /** No name inherited from `Object.prototype` holds `/`, a backslash or `src`. */
  lemma KeyShape(key: string)
    requires key in ObjectPrototypeKeys
    ensures '/' !in key && '\\' !in key && !Occurs(key, "src")
  {
    if key == "constructor" {
      ConstructorShape();
    } else {
      if key == "__proto__" || key == "__defineGetter__" || key == "__defineSetter__" {
        KeyCharsDunder(key);
      } else if key == "__lookupGetter__" || key == "__lookupSetter__" || key == "valueOf" {
        KeyCharsLookup(key);
      } else if key == "hasOwnProperty" || key == "isPrototypeOf" {
        KeyCharsProperty(key);
      } else if key == "propertyIsEnumerable" {
        KeyCharsEnumerable(key);
      } else {
        KeyCharsString(key);
      }
      if 'c' !in key {
        NoOccurrenceWithoutChar(key, "src", 2);
      } else {
        NoOccurrenceWithoutChar(key, "src", 0);
      }
    }
  }

  /**
   None of the names a JavaScript object inherits from `Object.prototype` is
   a layer name, nor a `.` or `..` path segment.
   */
  lemma InheritedKeysNameNoLayer(key: string)
    requires key in ObjectPrototypeKeys
    ensures Parse(key) == None
    ensures key != "." && key != ".."
  {
    var shape := |key| > 8 || (|key| >= 7 && (key[0] == 't' || key[0] == 'v'));
    assert shape;
    forall l: Layer
      ensures Name(l) != key
    {
      NameShape(l);
    }
  }
}
