/**
 * toGetter, toSetter and toProperty (Inflector.php:396-439) with their two
 * helpers: the option check of applyToGetterSetterPropOptions
 * (Inflector.php:504-515) and the accessor-word sanitiser
 * sanitizeGetterAndSetterPrefix (Inflector.php:525-528).
 */
module Accessors {
  import opened Chars
  import opened Tokenizer
  import opened Composer

  // ---------------------------------------------------------------------
  // The options array

  /** A key of a PHP array: a string or an integer. */
  datatype Key = Name(name: string) | Index(index: int)

  /** A value of the options array, as far as the option checks tell values apart. */
  datatype Value = Null | Str(text: string) | Other

  type Options = map<Key, Value>

  /**
   * An option is on when its name is a key whose value is not null
   * (isset), or when its name or its alias is one of the values
   * (in_array with strict comparison).
   */
  predicate OptionEnabled(options: Options, name: string, alias: string)
  {
    || (Name(name) in options && options[Name(name)] != Null)
    || Str(name) in options.Values
    || Str(alias) in options.Values
  }

  /** The list form of the options array, such as `['ns', 'is']`. */
  function OptionList(words: seq<string>): (options: Options)
    ensures forall k :: k in options <==> exists i :: 0 <= i < |words| && k == Index(i)
  {
    map i | 0 <= i < |words| :: Index(i) := Str(words[i])
  }

  /** In the list form an option is on exactly when its name or its alias is listed. */
  lemma OptionListEnabled(words: seq<string>, name: string, alias: string)
    ensures OptionEnabled(OptionList(words), name, alias) <==> name in words || alias in words
  {
    var options := OptionList(words);
    if name in words {
      var i :| 0 <= i < |words| && words[i] == name;
      assert options[Index(i)] == Str(name);
    }
    if alias in words {
      var i :| 0 <= i < |words| && words[i] == alias;
      assert options[Index(i)] == Str(alias);
    }
  }

  /** A key that is present but null does not switch its option on by itself. */
  lemma NullKeyIsOff(name: string, alias: string)
    ensures !OptionEnabled(map[Name(name) := Null], name, alias)
  {
    var options := map[Name(name) := Null];
    forall v | v in options.Values ensures v == Null {
      var k :| k in options && options[k] == v;
    }
  }

  // ---------------------------------------------------------------------
  // sanitizeGetterAndSetterPrefix

  /** The accessor words of the pattern, in the order of its alternation. */
  const AccessorWords: seq<string> := ["set", "get", "is", "has"]

  /** A character after which an accessor word is part of a longer word: `[a-zöäüß]`. */
  predicate ContinuesWord(c: char) {
    IsLower(c) || c == 'ö' || c == 'ä' || c == 'ü' || c == 'ß'
  }

  /** s starts with the accessor word w followed by a character that does not continue it. */
  predicate StartsWithAccessor(s: string, w: string) {
    |w| < |s| && s[..|w|] == w && !ContinuesWord(s[|w|])
  }

  /** The replacement of `^(set|get|is|has)([^a-zöäüß])` by its second group. */
  function DropAccessorWord(s: string): (r: string)
    ensures r != s <==> exists w :: w in AccessorWords && StartsWithAccessor(s, w)
    ensures forall w :: w in AccessorWords && StartsWithAccessor(s, w) ==> r == s[|w|..]
    ensures r == s || r == s[|s| - |r|..]
  {
    if StartsWithAccessor(s, "set") then s[3..]
    else if StartsWithAccessor(s, "get") then s[3..]
    else if StartsWithAccessor(s, "is") then s[2..]
    else if StartsWithAccessor(s, "has") then s[3..]
    else s
  }

  /** sanitizeGetterAndSetterPrefix: trim, then drop a leading accessor word. */
  function SanitizeAccessorPrefix(s: string): (r: string)
    ensures var t := Trim(s);
      && (r != t <==> exists w :: w in AccessorWords && StartsWithAccessor(t, w))
      && (forall w :: w in AccessorWords && StartsWithAccessor(t, w) ==> r == t[|w|..])
      && |r| <= |t| && r == t[|t| - |r|..]
  {
    DropAccessorWord(Trim(s))
  }

  /** No two accessor words start with the same letter. */
  lemma AccessorWordsDiffer(w: string, v: string)
    requires w in AccessorWords && v in AccessorWords && w[0] == v[0]
    ensures w == v
  {
  }

  /** Every accessor word starts with a letter that continues a word. */
  lemma AccessorWordStartsLower(w: string)
    requires w in AccessorWords
    ensures ContinuesWord(w[0])
  {
  }

  /** What does not start with a lower-case letter has no accessor word to drop. */
  lemma NothingToDrop(s: string)
    requires s == [] || !ContinuesWord(s[0])
    ensures DropAccessorWord(s) == s
  {
    if exists w :: w in AccessorWords && StartsWithAccessor(s, w) {
      var w :| w in AccessorWords && StartsWithAccessor(s, w);
      assert s[0] == s[..|w|][0];
      AccessorWordStartsLower(w);
    }
  }

  /**
   * Sanitising twice changes nothing, as long as the first pass leaves no
   * trim character at either end.
   */
  lemma SanitizeIdempotent(s: string)
    ensures var r := SanitizeAccessorPrefix(s);
      r != [] && !IsTrimChar(r[0]) && !IsTrimChar(r[|r| - 1]) ==> SanitizeAccessorPrefix(r) == r
  {
    var t := Trim(s);
    var r := SanitizeAccessorPrefix(s);
    if r != [] && !IsTrimChar(r[0]) && !IsTrimChar(r[|r| - 1]) {
      TrimOfUntrimmed(r);
      if r != t {
        var w :| w in AccessorWords && StartsWithAccessor(t, w);
        assert r == t[|w|..];
        assert r[0] == t[|w|];
        NothingToDrop(r);
      }
    }
  }

  /** A string with no trim character at either end is its own trim. */
  lemma TrimOfUntrimmed(s: string)
    requires s != [] && !IsTrimChar(s[0]) && !IsTrimChar(s[|s| - 1])
    ensures Trim(s) == s
  {
  }

  /** An accessor word running into a lower-case letter stays, as in "issetProperty". */
  lemma AccessorWordInsideWordKept(w: string, rest: string)
    requires w in AccessorWords && rest != [] && ContinuesWord(rest[0])
    ensures DropAccessorWord(w + rest) == w + rest
  {
    var s := w + rest;
    if exists v :: v in AccessorWords && StartsWithAccessor(s, v) {
      var v :| v in AccessorWords && StartsWithAccessor(s, v);
      assert s[0] == s[..|v|][0] == v[0] && s[0] == w[0];
      assert s[|w|] == rest[0];
      AccessorWordsDiffer(w, v);
    }
  }

  /** An accessor word followed by anything else is dropped, as in "hasMyProperty" or "has.MyProperty". */
  lemma AccessorWordBeforeOtherDropped(w: string, rest: string)
    requires w in AccessorWords && rest != [] && !ContinuesWord(rest[0])
    ensures DropAccessorWord(w + rest) == rest
  {
    assert (w + rest)[..|w|] == w && (w + rest)[|w|] == rest[0];
    assert (w + rest)[|w|..] == rest;
  }

  /**
   * Sanitising a trimmed accessor word followed by a character that does not
   * continue it gives the rest, and the rest sanitises to itself.
   */
  lemma SanitizeDropsWord(w: string, rest: string)
    requires w in AccessorWords && rest != [] && !ContinuesWord(rest[0])
    requires !IsTrimChar(rest[0]) && !IsTrimChar(rest[|rest| - 1])
    ensures SanitizeAccessorPrefix(w + rest) == rest
    ensures SanitizeAccessorPrefix(rest) == rest
  {
    var s := w + rest;
    assert s[0] == w[0] && s[|s| - 1] == rest[|rest| - 1];
    TrimOfUntrimmed(s);
    TrimOfUntrimmed(rest);
    AccessorWordBeforeOtherDropped(w, rest);
    NothingToDrop(rest);
  }

  // ---------------------------------------------------------------------
  // applyToGetterSetterPropOptions and the three builders

  /** The string to convert and the splitting mode, after the options are applied. */
  function ApplyOptions(s: string, options: Options): (r: (string, bool))
    ensures r.1 <==> OptionEnabled(options, "intelligentSplitting", "is")
    ensures OptionEnabled(options, "noSanitizing", "ns") ==> r.0 == s
    ensures !OptionEnabled(options, "noSanitizing", "ns") ==> r.0 == SanitizeAccessorPrefix(s)
  {
    (if OptionEnabled(options, "noSanitizing", "ns") then s else SanitizeAccessorPrefix(s),
     OptionEnabled(options, "intelligentSplitting", "is"))
  }

  datatype Option<T> = None | Some(value: T)

  /** The prefix toGetter puts in front: "get" when none is given. */
  function GetterWord(prefix: Option<string>): string
  {
    if prefix.None? then "get" else prefix.value
  }

  /**
   * toGetter: the prefix, then the camel case of the sanitised string.
   * What follows the prefix spells the letters of the sanitised string and
   * splits back into its tokens.
   */
  function ToGetter(s: string, prefix: Option<string>, options: Options): (r: string)
    ensures var p := GetterWord(prefix);
      var (name, smart) := ApplyOptions(s, options);
      && r == p + ToCamelCase(name, smart)
      && |p| <= |r| && r[..|p|] == p
      && LowerStr(r[|p|..]) == Letters(name)
      && (CamelReadable(ToArray(name, smart)) ==> ToArray(r[|p|..], false) == ToArray(name, smart))
  {
    var (name, smart) := ApplyOptions(s, options);
    var p := GetterWord(prefix);
    var r := p + ToCamelCase(name, smart);
    assert r[..|p|] == p && r[|p|..] == ToCamelCase(name, smart);
    r
  }

  /** toSetter: "set", then the camel case of the sanitised string. */
  function ToSetter(s: string, options: Options): (r: string)
    ensures var (name, smart) := ApplyOptions(s, options);
      && r == "set" + ToCamelCase(name, smart)
      && |r| >= 3 && r[..3] == "set"
      && LowerStr(r[3..]) == Letters(name)
      && (CamelReadable(ToArray(name, smart)) ==> ToArray(r[3..], false) == ToArray(name, smart))
  {
    var (name, smart) := ApplyOptions(s, options);
    var r := "set" + ToCamelCase(name, smart);
    assert r[..3] == "set" && r[3..] == ToCamelCase(name, smart);
    r
  }

  /** toProperty: the camel back form of the sanitised string. */
  function ToProperty(s: string, options: Options): (r: string)
    ensures var (name, smart) := ApplyOptions(s, options);
      && r == ToCamelBack(name, smart)
      && LowerStr(r) == Letters(name)
      && (CamelReadable(ToArray(name, smart)) ==> ToArray(r, false) == ToArray(name, smart))
      && (ToArray(name, smart) != [] ==> r[..|ToArray(name, smart)[0]|] == ToArray(name, smart)[0])
  {
    var (name, smart) := ApplyOptions(s, options);
    ToCamelBack(name, smart)
  }

  /**
   * With sanitising on, a leading accessor word followed by a character
   * that does not continue it makes no difference: "hasMyProperty" gives
   * the getter, setter and property of "MyProperty".
   */
  lemma AccessorWordMakesNoDifference(w: string, rest: string, prefix: Option<string>, options: Options)
    requires w in AccessorWords && rest != [] && !ContinuesWord(rest[0])
    requires !IsTrimChar(rest[0]) && !IsTrimChar(rest[|rest| - 1])
    requires !OptionEnabled(options, "noSanitizing", "ns")
    ensures ToGetter(w + rest, prefix, options) == ToGetter(rest, prefix, options)
    ensures ToSetter(w + rest, options) == ToSetter(rest, options)
    ensures ToProperty(w + rest, options) == ToProperty(rest, options)
  {
    SanitizeDropsWord(w, rest);
  }
}
