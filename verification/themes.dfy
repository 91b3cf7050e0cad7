/**
 Palette selection, `getTheme` and `buildThemeCss` in scripts/generate-index.js.
 Colour values are presentation constants and are not modelled: a palette is
 identified by its name in the `THEMES` table.
 */
module Themes {
  import opened Wrappers

  /** The four entries of the `THEMES` table. */
  datatype Palette = A | B | C | D

  /** The key that names each palette in `THEMES`. */
  function KeyOf(p: Palette): string
  {
    match p
    case A => "a"
    case B => "b"
    case C => "c"
    case D => "d"
  }

  /** The keys `THEMES` defines as its own properties. */
  const KnownKeys: set<string> := {"a", "b", "c", "d"}

  /** The base key substituted for a missing or empty theme, and the palette of the default arm. */
  const BaseKey: string := "a"

  /** Own-property lookup in `THEMES`. */
  function OwnPalette(key: string): (r: Option<Palette>)
    ensures r.Some? <==> key in KnownKeys
    ensures r.Some? ==> KeyOf(r.value) == key
  {
    if key == "a" then Some(A)
    else if key == "b" then Some(B)
    else if key == "c" then Some(C)
    else if key == "d" then Some(D)
    else None
  }

  /**
   `getTheme(key)`: the palette named `key`, or palette `a` for every other key.
   This is the lookup the rest of the model uses (see `GetThemeAsWritten` for
   what the source's plain-object lookup does on inherited property names).
   */
  function GetTheme(key: string): (p: Palette)
    ensures key in KnownKeys ==> KeyOf(p) == key
    ensures key !in KnownKeys ==> p == A
  {
    OwnPalette(key).GetOr(A)
  }

  /** Looking up a palette's own key gives that palette back. */
  lemma GetThemeKeyOf(p: Palette)
    ensures GetTheme(KeyOf(p)) == p
  {
  }

  /**
   Property names every plain JavaScript object inherits from `Object.prototype`.
   Each resolves to a function or (for `__proto__`) an object, so each is truthy.
   */
  const ObjectPrototypeNames: set<string> := {
    "constructor", "__proto__", "hasOwnProperty", "isPrototypeOf",
    "propertyIsEnumerable", "toLocaleString", "toString", "valueOf",
    "__defineGetter__", "__defineSetter__", "__lookupGetter__", "__lookupSetter__"
  }

  /** The JavaScript value `THEMES[key]` evaluates to. */
  datatype ThemeValue = PaletteValue(palette: Palette) | Inherited(name: string) | Undefined

  /** A property read on the object literal `THEMES`: own keys, then the prototype chain. */
  function ThemesIndex(key: string): (v: ThemeValue)
    ensures v.Inherited? <==> key in ObjectPrototypeNames
    ensures v.Undefined? <==> key !in KnownKeys && key !in ObjectPrototypeNames
    ensures v.PaletteValue? ==> KeyOf(v.palette) == key
  {
    match OwnPalette(key)
    case Some(p) => PaletteValue(p)
    case None => if key in ObjectPrototypeNames then Inherited(key) else Undefined
  }

  /** JavaScript truthiness of a looked-up value: only `undefined` is falsy here. */
  predicate Truthy(v: ThemeValue)
  {
    !v.Undefined?
  }

  /** `THEMES[key] || THEMES.a`, exactly as written. */
  function GetThemeAsWritten(key: string): (v: ThemeValue)
    ensures v.Inherited? <==> key in ObjectPrototypeNames
    ensures !v.Undefined?
    ensures v.PaletteValue? ==> v.palette == GetTheme(key)
  {
    var v := ThemesIndex(key);
    if Truthy(v) then v else PaletteValue(A)
  }

  /** Away from inherited names the source's lookup agrees with `GetTheme`. */
  lemma AsWrittenAgreesOffPrototype(key: string)
    requires key !in ObjectPrototypeNames
    ensures GetThemeAsWritten(key) == PaletteValue(GetTheme(key))
  {
  }

  /**
   An inherited name escapes the default arm: `getTheme("toString")` returns
   `Object.prototype.toString`, so every colour `buildThemeCss` reads from it is
   `undefined` instead of palette `a`'s.
   */
  lemma InheritedKeyEscapesDefault(key: string)
    requires key in ObjectPrototypeNames
    ensures !GetThemeAsWritten(key).PaletteValue?
    ensures GetTheme(key) == A
  {
    assert key !in KnownKeys;
  }

  /**
   One CSS block of `buildThemeCss(key)`: its rules all select `.card-<key>`
   and take their colours from one palette.
   */
  datatype ThemeRule = ThemeRule(key: string, palette: Palette)
  {
    /** The class name the block's selectors use. */
    function ClassName(): string
    {
      "card-" + key
    }
  }

  /** `buildThemeCss(key)`: the class name keeps `key` verbatim; the colours come from `getTheme(key)`. */
  function BuildThemeCss(key: string): (r: ThemeRule)
    ensures r.ClassName() == "card-" + key
    ensures key in KnownKeys ==> KeyOf(r.palette) == key
    ensures key !in KnownKeys ==> r.palette == A
  {
    ThemeRule(key, GetTheme(key))
  }

  /** An unknown key such as `x` keeps its own class `card-x` but is painted with palette `a`. */
  lemma UnknownKeyKeepsClass(key: string)
    requires key !in KnownKeys
    ensures BuildThemeCss(key).ClassName() == "card-" + key
    ensures BuildThemeCss(key).palette == A
    ensures key != BaseKey ==> BuildThemeCss(key).ClassName() != BuildThemeCss(BaseKey).ClassName()
  {
    if key != BaseKey {
      assert BuildThemeCss(key).ClassName()[5..] == key;
    }
  }
}
