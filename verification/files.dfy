/**
 * toFile (Inflector.php:181-208): a known file extension is split off and
 * re-attached unchanged, an optional directory part passes through, and the
 * rest is slugged.  DIRECTORY_SEPARATOR is taken to be '/'.
 */
module Files {
  import opened Chars
  import opened Slug

  /**
   * FILE_EXTENSIONS (Inflector.php:99): "|" followed by every known
   * extension and a "|" after each, declared in parts by first character.
   */
  const FileExtensions: string :=
    "|" + ExtensionsDigits + ExtensionsA + ExtensionsB + ExtensionsC
    + ExtensionsD + ExtensionsE + ExtensionsF + ExtensionsG + ExtensionsH
    + ExtensionsI + ExtensionsJ + ExtensionsK + ExtensionsL + ExtensionsM
    + ExtensionsN + ExtensionsO + ExtensionsP + ExtensionsR + ExtensionsS
    + ExtensionsT + ExtensionsU + ExtensionsV + ExtensionsW + ExtensionsX
    + ExtensionsY + ExtensionsZ

  const ExtensionsDigits: string := "3dm|3ds|3g2|3gp|7z|"
  const ExtensionsA: string := "accdb|ai|aif|apk|app|asf|asp|aspx|avi|"
  const ExtensionsB: string := "bak|bat|bin|bmp|"
  const ExtensionsC: string := "c|cab|cbr|cer|cfg|cfm|cgi|class|com|cpl|cpp|crdownload|crx|cs|csr|css|csv|cue|cur|"
  const ExtensionsD: string := "dat|db|dbf|dds|deb|dem|deskthemepack|dll|dmg|dmp|doc|docx|drv|dtd|dwg|dxf|"
  const ExtensionsE: string := "eps|exe|"
  const ExtensionsF: string := "fla|flv|fnt|fon|"
  const ExtensionsG: string := "gadget|gam|ged|gif|gpx|gz|"
  const ExtensionsH: string := "h|hqx|htm|html|"
  const ExtensionsI: string := "icns|ico|ics|iff|indd|ini|iso|"
  const ExtensionsJ: string := "jar|java|jpg|jpeg|js|jsp|json|"
  const ExtensionsK: string := "key|keychain|kml|kmz|"
  const ExtensionsL: string := "lnk|log|lua|"
  const ExtensionsM: string := "m|m3u|m4a|m4v|max|mdb|mdf|mid|mim|mov|mp3|mp4|mpa|mpg|msg|msi|"
  const ExtensionsN: string := "nes|"
  const ExtensionsO: string := "obj|odt|otf|"
  const ExtensionsP: string := "pages|part|pct|pdb|pdf|php|pkg|pl|plugin|png|pps|ppt|pptx|prf|ps|psd|pspimage|py|"
  const ExtensionsR: string := "rar|rm|rom|rpm|rss|rtf|"
  const ExtensionsS: string := "sav|sdf|sh|sitx|sln|sql|srt|svg|swf|swift|sys|"
  const ExtensionsT: string := "tar|tar.gz|tax2016|tex|tga|thm|tif|tiff|tmp|toast|torrent|ttf|txt|typescript|ts|typoscript|"
  const ExtensionsU: string := "uue|"
  const ExtensionsV: string := "vb|vcd|vcf|vcxproj|vob|"
  const ExtensionsW: string := "wav|wma|wmv|wpd|wps|wsf|"
  const ExtensionsX: string := "xcodeproj|xhtml|xlr|xls|xlsx|xml|"
  const ExtensionsY: string := "yuv|"
  const ExtensionsZ: string := "zip|zipx|"

  /** PHP's empty() on a string: "" and "0" are empty. */
  predicate PhpEmpty(s: string) { s == "" || s == "0" }

  /** stripos(haystack, needle) !== false for a non-empty needle: the needle occurs, ASCII letters compared without case. */
  predicate ContainsIgnoringCase(haystack: string, needle: string) {
    exists k: nat :: k <= |haystack| && MatchesAt(haystack, needle, k)
  }

  /** needle occurs in haystack at k, ASCII letters compared without case. */
  predicate MatchesAt(haystack: string, needle: string, k: nat) {
    k + |needle| <= |haystack| && LowerStr(haystack[k..k + |needle|]) == LowerStr(needle)
  }

  /**
   * The extension test of toFile (Inflector.php:185) against a list of known
   * extensions; toFile uses FileExtensions.
   */
  predicate Accepted(ext: string, known: string) {
    !PhpEmpty(ext) && ContainsIgnoringCase(known, ext)
  }

  /** What follows the last c in s; all of s when c does not occur. */
  function AfterLast(s: string, c: char): (r: string)
    ensures |r| <= |s| && r == s[|s| - |r|..]
    ensures c !in r
    ensures |r| < |s| ==> s[|s| - |r| - 1] == c
  {
    if s == [] then []
    else if s[|s| - 1] == c then []
    else AfterLast(s[..|s| - 1], c) + [s[|s| - 1]]
  }

  function StripTrailingSlashes(s: string): (r: string)
    ensures |r| <= |s| && r == s[..|r|]
    ensures r == [] || r[|r| - 1] != '/'
  {
    if s != [] && s[|s| - 1] == '/' then StripTrailingSlashes(s[..|s| - 1]) else s
  }

  /** PHP's basename: trailing slashes are ignored, then what follows the last slash. */
  function Basename(s: string): string
  {
    AfterLast(StripTrailingSlashes(s), '/')
  }

  /** pathinfo(s, PATHINFO_EXTENSION): what follows the last dot of the basename, "" when it has none. */
  function PathExtension(s: string): (r: string)
    ensures '.' !in r && '/' !in r
  {
    BasenameHasNoSlash(s);
    Extension(Basename(s))
  }

  /** The extension of a basename b: what follows its last dot, "" when it has none. */
  function Extension(b: string): (r: string)
    requires '/' !in b
    ensures '.' !in r && '/' !in r
  {
    if '.' in b then AfterLast(b, '.') else ""
  }

  lemma BasenameHasNoSlash(s: string)
    ensures '/' !in Basename(s)
  {
  }

  /** r is the extension of the basename b: empty when b has no dot, otherwise the part of b after its last dot. */
  predicate IsExtensionOf(r: string, b: string) {
    && ('.' !in b ==> r == "")
    && ('.' in b ==> |r| < |b| && r == b[|b| - |r|..] && b[|b| - |r| - 1] == '.')
  }

  lemma PathExtensionMeaning(s: string)
    ensures IsExtensionOf(PathExtension(s), Basename(s))
  {
    BasenameHasNoSlash(s);
    ExtensionMeaning(Basename(s));
  }

  lemma ExtensionMeaning(b: string)
    requires '/' !in b
    ensures IsExtensionOf(Extension(b), b)
  {
    if '.' in b {
      var r := AfterLast(b, '.');
      assert |r| == |b| ==> r == b;
    }
  }

  /** substr(s, 0, -n): s without its last n characters, "" when it is shorter. */
  function DropLast(s: string, n: nat): string
  {
    if n <= |s| then s[..|s| - n] else ""
  }

  /** str_replace(["\\", "/"], "/", s). */
  function NormalizeSeparators(s: string): (r: string)
    ensures |r| == |s| && '\\' !in r
    ensures forall i :: 0 <= i < |s| ==> r[i] == (if s[i] == '\\' then '/' else s[i])
  {
    seq(|s|, i requires 0 <= i < |s| => if s[i] == '\\' then '/' else s[i])
  }

  /** The last component of a path. */
  function PathBase(s: string): (r: string)
    ensures '/' !in r && |r| <= |s| && r == s[|s| - |r|..]
  {
    AfterLast(s, '/')
  }

  /** Everything up to and including the last separator: "" or a text ending in '/'. */
  function PathPrefix(s: string): (r: string)
    ensures r + PathBase(s) == s
    ensures r == [] || r[|r| - 1] == '/'
  {
    s[..|s| - |PathBase(s)|]
  }

  /** explode('/', s): never empty; joined back with '/' it gives s. */
  function Explode(s: string): (r: seq<string>)
    ensures r != []
  {
    if s == [] then [""]
    else
      var init := Explode(s[..|s| - 1]);
      var c := s[|s| - 1];
      if c == '/' then init + [""]
      else init[..|init| - 1] + [init[|init| - 1] + [c]]
  }

  lemma {:induction false} ExplodeLast(s: string)
    ensures Explode(s)[|Explode(s)| - 1] == AfterLast(s, '/')
  {
    if s != [] && s[|s| - 1] != '/' {
      ExplodeLast(s[..|s| - 1]);
    }
  }

  lemma {:induction false} JoinSnoc(ps: seq<string>, x: string, sep: string)
    requires ps != []
    ensures Join(ps + [x], sep) == Join(ps, sep) + sep + x
  {
    if |ps| > 1 {
      assert (ps + [x])[1..] == ps[1..] + [x];
      JoinSnoc(ps[1..], x, sep);
    }
  }

  lemma {:induction false} JoinExplode(s: string)
    ensures Join(Explode(s), "/") == s
  {
    if s != [] {
      var s' := s[..|s| - 1];
      var init := Explode(s');
      var c := s[|s| - 1];
      JoinExplode(s');
      assert s == s' + [c];
      if c == '/' {
        JoinSnoc(init, "", "/");
      } else {
        var p := init[..|init| - 1];
        var w := init[|init| - 1];
        assert init == p + [w];
        if p != [] {
          JoinSnoc(p, w, "/");
          JoinSnoc(p, w + [c], "/");
        }
      }
    }
  }

  /**
   * The path handling of toFile (Inflector.php:196-203): explode, pop the
   * last component, append an empty component when any are left, implode.
   */
  method SplitPath(s: string) returns (path: string, base: string)
    ensures path == PathPrefix(s) && base == PathBase(s)
  {
    var parts := Explode(s);
    JoinExplode(s);
    ExplodeLast(s);
    ghost var all := parts;
    base := parts[|parts| - 1];
    parts := parts[..|parts| - 1];
    if parts != [] {
      assert all == parts + [base];
      JoinSnoc(parts, base, "/");
      JoinSnoc(parts, "", "/");
      parts := parts + [""];
    }
    path := Join(parts, "/");
  }

  /** The stem toFile slugs: with an accepted extension, s without ".ext", trimmed. */
  function Stem(s: string, known: string): string
  {
    var ext := PathExtension(s);
    if Accepted(ext, known) then Trim(DropLast(s, |ext| + 1)) else s
  }

  /** The extension toFile re-attaches: "." and the extension as written, or "". */
  function Suffix(s: string, known: string): string
  {
    var ext := PathExtension(s);
    if Accepted(ext, known) then "." + ext else ""
  }

  /** The directory part toFile passes through: only with expectPath. */
  function Directory(s: string, expectPath: bool, known: string): string
  {
    if expectPath then PathPrefix(NormalizeSeparators(Stem(s, known))) else ""
  }

  /** The part toFile slugs. */
  function SlugSource(s: string, expectPath: bool, known: string): string
  {
    if expectPath then Basename(PathBase(NormalizeSeparators(Stem(s, known)))) else Stem(s, known)
  }

  /** What toFile returns when `known` is its list of extensions. */
  function FileName(s: string, expectPath: bool, known: string): string
  {
    Directory(s, expectPath, known) + LowerStr(ToSlug(SlugSource(s, expectPath, known))) + Suffix(s, known)
  }

  /** The steps of toFile (Inflector.php:184-207), with the list of known extensions as a parameter. */
  method ToFileWith(s: string, expectPath: bool, known: string) returns (r: string)
    ensures r == FileName(s, expectPath, known)
  {
    var str := s;
    var ext := PathExtension(str);
    if Accepted(ext, known) {
      ext := "." + ext;
      str := Trim(DropLast(str, |ext|));
    } else {
      ext := "";
    }
    var path := "";
    if expectPath {
      str := NormalizeSeparators(str);
      path, str := SplitPath(str);
      str := Basename(str);
    }
    r := path + LowerStr(ToSlug(str)) + ext;
  }

  /** toFile. */
  method ToFile(s: string, expectPath: bool) returns (r: string)
    ensures r == FileName(s, expectPath, FileExtensions)
  {
    r := ToFileWith(s, expectPath, FileExtensions);
  }

  // ---------------------------------------------------------------------
  // Properties

  /** strtolower does nothing to a slug. */
  lemma SlugIsLower(s: string)
    ensures LowerStr(ToSlug(s)) == ToSlug(s)
  {
    var r := ToSlug(s);
    assert forall i :: 0 <= i < |r| ==> SlugChar(r[i]);
    LowerStrOfLower(r);
  }

  /**
   * toFile's result is the directory part, a slug, and the accepted
   * extension after a dot, as written; without an accepted extension the
   * last part is empty.
   */
  lemma FileNameParts(s: string, expectPath: bool, known: string)
    ensures FileName(s, expectPath, known)
            == Directory(s, expectPath, known) + ToSlug(SlugSource(s, expectPath, known)) + Suffix(s, known)
    ensures IsSlug(ToSlug(SlugSource(s, expectPath, known)))
    ensures Accepted(PathExtension(s), known) ==> Suffix(s, known) == "." + PathExtension(s)
    ensures !Accepted(PathExtension(s), known) ==> Suffix(s, known) == ""
  {
    SlugIsLower(SlugSource(s, expectPath, known));
  }

  /**
   * With expectPath, everything up to and including the last separator of the
   * stem passes through unslugged, separators normalised; without it there is
   * no directory part.
   */
  lemma DirectoryPassesThrough(s: string, expectPath: bool, known: string)
    ensures expectPath ==>
      Directory(s, expectPath, known) + PathBase(NormalizeSeparators(Stem(s, known)))
        == NormalizeSeparators(Stem(s, known))
    ensures var d := Directory(s, expectPath, known); d == [] || d[|d| - 1] == '/'
    ensures !expectPath ==> Directory(s, expectPath, known) == ""
  {
  }

  /** Without an accepted extension and without path handling, toFile is toSlug. */
  lemma FileNameWithoutExtension(s: string, known: string)
    requires !Accepted(PathExtension(s), known)
    ensures FileName(s, false, known) == ToSlug(s)
  {
    SlugIsLower(s);
  }

  lemma AfterLastAbsent(s: string, c: char)
    requires c !in s
    ensures AfterLast(s, c) == s
  {
  }

  lemma {:induction false} AfterLastAfter(a: string, c: char, b: string)
    requires c !in b
    ensures AfterLast(a + [c] + b, c) == b
    decreases |b|
  {
    var s := a + [c] + b;
    if b != [] {
      assert s[..|s| - 1] == a + [c] + b[..|b| - 1];
      AfterLastAfter(a, c, b[..|b| - 1]);
      assert b == b[..|b| - 1] + [b[|b| - 1]];
    } else {
      assert s[|s| - 1] == c;
    }
  }

  /** A slug holds neither a slash, nor a dot, nor a character trim() removes. */
  lemma SlugHasNoPunctuation(m: string)
    requires IsSlug(m)
    ensures '/' !in m && '.' !in m
    ensures forall i :: 0 <= i < |m| ==> !IsTrimChar(m[i])
  {
    assert forall i :: 0 <= i < |m| ==> SlugChar(m[i]);
  }

  lemma TrimOfSlug(m: string)
    requires IsSlug(m)
    ensures Trim(m) == m
  {
    SlugHasNoPunctuation(m);
  }

  /** A name without slash or dot, with an extension attached, has that extension. */
  lemma ExtensionOfPlainName(m: string, e: string)
    requires '/' !in m && '.' !in m && '.' !in e && '/' !in e && e != []
    ensures PathExtension(m + "." + e) == e
  {
    var r := m + "." + e;
    assert r == m + ['.'] + e;
    AfterLastAbsent(r, '/');
    assert StripTrailingSlashes(r) == r;
    AfterLastAfter(m, '.', e);
  }

  /** A slug with an accepted extension attached keeps that extension, and its stem is the slug. */
  lemma SluggedWithExtension(m: string, e: string, known: string)
    requires IsSlug(m) && Accepted(e, known) && '.' !in e && '/' !in e
    ensures Stem(m + "." + e, known) == m
    ensures Suffix(m + "." + e, known) == "." + e
  {
    SlugHasNoPunctuation(m);
    TrimOfSlug(m);
    StemOfPlainName(m, e, known);
  }

  lemma StemOfPlainName(m: string, e: string, known: string)
    requires '/' !in m && '.' !in m && Trim(m) == m
    requires Accepted(e, known) && '.' !in e && '/' !in e
    ensures Stem(m + "." + e, known) == m
    ensures Suffix(m + "." + e, known) == "." + e
  {
    ExtensionOfPlainName(m, e);
    DropExtension(m, e);
  }

  /** substr(m . "." . e, 0, -(strlen(e) + 1)) is m. */
  lemma DropExtension(m: string, e: string)
    ensures DropLast(m + "." + e, |e| + 1) == m
  {
    var r := m + "." + e;
    assert r[..|m|] == m;
  }

  /** A slug has no extension. */
  lemma SlugWithoutExtension(m: string)
    requires IsSlug(m)
    ensures PathExtension(m) == ""
  {
    SlugHasNoPunctuation(m);
    AfterLastAbsent(m, '/');
  }

  lemma FileNameOfFixedName(m: string, known: string)
    requires PathExtension(m) == "" && ToSlug(m) == m
    ensures FileName(m, false, known) == m
  {
    FileNameWithoutExtension(m, known);
  }

  /** toFile without path handling gives a slug back unchanged. */
  lemma FileNameOfSlug(m: string, known: string)
    requires IsSlug(m)
    ensures FileName(m, false, known) == m
  {
    SlugWithoutExtension(m);
    SlugIsFixpoint(m);
    FileNameOfFixedName(m, known);
  }

  lemma FileNameOfFixedNameWithExtension(m: string, e: string, known: string)
    requires Stem(m + "." + e, known) == m && Suffix(m + "." + e, known) == "." + e
    requires ToSlug(m) == m
    ensures FileName(m + "." + e, false, known) == m + "." + e
  {
    var r := m + "." + e;
    FileNameParts(r, false, known);
    assert SlugSource(r, false, known) == m;
    assert Directory(r, false, known) == "";
    assert Directory(r, false, known) + m == m;
    assert FileName(r, false, known) == m + ("." + e);
    AppendAssoc(m, ".", e);
  }

  /** toFile without path handling gives a slug with an accepted extension back unchanged. */
  lemma FileNameOfSluggedName(m: string, e: string, known: string)
    requires IsSlug(m) && Accepted(e, known) && '.' !in e && '/' !in e
    ensures FileName(m + "." + e, false, known) == m + "." + e
  {
    SluggedWithExtension(m, e, known);
    SlugIsFixpoint(m);
    FileNameOfFixedNameWithExtension(m, e, known);
  }

  /** toFile without path handling is idempotent. */
  lemma FileNameIdempotent(s: string, known: string)
    ensures FileName(FileName(s, false, known), false, known) == FileName(s, false, known)
  {
    var m := ToSlug(Stem(s, known));
    FileNameParts(s, false, known);
    assert SlugSource(s, false, known) == Stem(s, known);
    assert Directory(s, false, known) + m == m;
    if Accepted(PathExtension(s), known) {
      var e := PathExtension(s);
      assert FileName(s, false, known) == m + ("." + e);
      AppendAssoc(m, ".", e);
      FileNameOfSluggedName(m, e, known);
    } else {
      assert FileName(s, false, known) == m;
      FileNameOfSlug(m, known);
    }
  }
}
