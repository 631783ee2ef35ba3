/**
 * toSlug (Inflector.php:161-170): the TRANSLITERATIONS passes, then three
 * passes of its own, then strtolower.
 *
 *   1. every character outside `[\s\p{Zs}\p{Ll}\p{Lm}\p{Lo}\p{Lt}\p{Lu}\p{Nd}]` becomes a space;
 *   2. every maximal run of `[\s\p{Zs}]` becomes one `-`;
 *   3. leading and trailing runs of `-` are removed.
 *
 * Passes 1 and 2 carry the `u` modifier, so `\s` is Unicode white space.
 */
module Slug {
  import opened Chars
  import opened Transliteration

  /**
   * `\s` under the `u` modifier (Unicode white space); `\p{Zs}` is contained
   * in it: the ASCII spaces, U+0085, U+00A0, U+1680, U+180E, U+2000 to
   * U+200A, U+2028, U+2029, U+202F, U+205F and U+3000.
   */
  predicate IsUnicodeSpace(c: char) {
    || IsAsciiSpace(c)
    || c == '\U{0085}' || c == '\U{00A0}' || c == '\U{1680}' || c == '\U{180E}'
    || ('\U{2000}' <= c <= '\U{200A}')
    || c == '\U{2028}' || c == '\U{2029}' || c == '\U{202F}' || c == '\U{205F}' || c == '\U{3000}'
  }

  /**
   * The letter and digit classes `\p{Ll}\p{Lm}\p{Lo}\p{Lt}\p{Lu}\p{Nd}`:
   * exact up to U+00FF; above it every character counts except white space,
   * the combining marks U+0300 to U+036F and the punctuation block U+2000 to
   * U+206F.
   */
  predicate IsLetterOrDigit(c: char) {
    || IsUpper(c) || IsLower(c) || IsDigit(c)
    || c == '\U{00AA}' || c == '\U{00B5}' || c == '\U{00BA}'
    || ('\U{00C0}' <= c <= '\U{00FF}' && c != '\U{00D7}' && c != '\U{00F7}')
    || (c as int > 0xFF && !IsUnicodeSpace(c)
        && !('\U{0300}' <= c <= '\U{036F}') && !('\U{2000}' <= c <= '\U{206F}'))
  }

  /** Pass 1 on one character. */
  function Blank(c: char): char
  {
    if IsUnicodeSpace(c) || IsLetterOrDigit(c) then c else ' '
  }

  function BlankNonWord(s: string): string
  {
    seq(|s|, i requires 0 <= i < |s| => Blank(s[i]))
  }

  /** The rest of s after its leading white space. */
  function SkipSpaces(s: string): (r: string)
    ensures |r| <= |s| && r == s[|s| - |r|..]
    ensures forall i :: 0 <= i < |s| - |r| ==> IsUnicodeSpace(s[i])
    ensures r == [] || !IsUnicodeSpace(r[0])
  {
    if s != [] && IsUnicodeSpace(s[0]) then SkipSpaces(s[1..]) else s
  }

  /** Pass 2: each maximal run of white space becomes one dash. */
  function CollapseSpaces(s: string): string
    decreases |s|
  {
    if s == [] then []
    else if IsUnicodeSpace(s[0]) then "-" + CollapseSpaces(SkipSpaces(s[1..]))
    else [s[0]] + CollapseSpaces(s[1..])
  }

  function TrimDashesLeft(s: string): (r: string)
    ensures |r| <= |s| && r == s[|s| - |r|..]
    ensures forall i :: 0 <= i < |s| - |r| ==> s[i] == '-'
    ensures r == [] || r[0] != '-'
  {
    if s != [] && s[0] == '-' then TrimDashesLeft(s[1..]) else s
  }

  function TrimDashesRight(s: string): (r: string)
    ensures |r| <= |s| && r == s[..|r|]
    ensures forall i :: |r| <= i < |s| ==> s[i] == '-'
    ensures r == [] || r[|r| - 1] != '-'
  {
    if s != [] && s[|s| - 1] == '-' then TrimDashesRight(s[..|s| - 1]) else s
  }

  /** Pass 3: the leading run of dashes goes, then the trailing one. */
  function TrimDashes(s: string): string
  {
    TrimDashesRight(TrimDashesLeft(s))
  }

  /** A character a slug may hold: a dash, or a letter or digit that is neither an ASCII capital nor a table character. */
  predicate SlugChar(c: char) {
    c == '-' || (IsLetterOrDigit(c) && !IsUpper(c) && !IsSourceChar(c))
  }

  /** Slug characters only, and no two dashes in a row. */
  predicate SlugBody(s: string) {
    && (forall i :: 0 <= i < |s| ==> SlugChar(s[i]))
    && (forall i :: 0 <= i < |s| - 1 ==> s[i] != '-' || s[i + 1] != '-')
  }

  /** Slug characters only, no two dashes in a row, no dash at either end. */
  predicate IsSlug(s: string) {
    SlugBody(s) && (s != [] ==> s[0] != '-' && s[|s| - 1] != '-')
  }

  /** The letters and digits of s, in order. */
  function Kept(s: string): string
  {
    if s == [] then [] else (if IsLetterOrDigit(s[0]) then [s[0]] else []) + Kept(s[1..])
  }

  function DropDashes(s: string): string
  {
    if s == [] then [] else (if s[0] != '-' then [s[0]] else []) + DropDashes(s[1..])
  }

  function DropSpaces(s: string): string
  {
    if s == [] then [] else (if !IsUnicodeSpace(s[0]) then [s[0]] else []) + DropSpaces(s[1..])
  }

  /**
   * toSlug: the result is a slug, and with its dashes removed it is the
   * lower-cased letters and digits of the transliterated input.
   */
  function ToSlug(s: string): (r: string)
    ensures IsSlug(r)
    ensures DropDashes(r) == LowerStr(Kept(Transliterate(s)))
  {
    var t := Transliterate(s);
    var b := BlankNonWord(t);
    var c := CollapseSpaces(b);
    BlankIsClean(t);
    CollapseShape(b);
    TrimShape(c);
    BlankSpaceOrIn(t);
    CollapseDashOrIn(b, t);
    TrimDashOrIn(c, t);
    LowerShape(TrimDashes(c), t);
    DropDashesLower(TrimDashes(c));
    DropDashesTrim(c);
    BlankHasNoDash(t);
    DropDashesCollapse(b);
    DropSpacesBlank(t);
    LowerStr(TrimDashes(c))
  }

  // ---------------------------------------------------------------------
  // Character facts

  /** Table characters are outside ASCII. */
  lemma AsciiIsNoSource(c: char)
    requires IsAscii(c)
    ensures !IsSourceChar(c)
  {
    TableWellFormed();
  }

  /** Letters and digits are not white space, so a slug holds none. */
  lemma SlugCharIsNoSpace(c: char)
    requires SlugChar(c)
    ensures !IsUnicodeSpace(c) && !IsUpper(c)
  {
  }

  /** What may come into pass 2: white space, a letter or a digit. */
  predicate Clean(c: char) {
    IsUnicodeSpace(c) || IsLetterOrDigit(c)
  }

  /** What comes out of pass 2: dashes, letters and digits, and no two dashes in a row. */
  predicate Collapsed(s: string) {
    && (forall i :: 0 <= i < |s| ==> s[i] == '-' || IsLetterOrDigit(s[i]))
    && (forall i :: 0 <= i < |s| - 1 ==> s[i] != '-' || s[i + 1] != '-')
  }

  predicate NoDash(s: string) {
    forall i :: 0 <= i < |s| ==> s[i] != '-'
  }

  lemma BlankNonWordCons(s: string)
    requires s != []
    ensures BlankNonWord(s) == [Blank(s[0])] + BlankNonWord(s[1..])
  {
    assert BlankNonWord(s)[1..] == BlankNonWord(s[1..]);
  }

  lemma BlankIsClean(t: string)
    ensures AllClean(BlankNonWord(t))
  {
  }

  lemma BlankHasNoDash(t: string)
    ensures NoDash(BlankNonWord(t))
  {
  }

  // ---------------------------------------------------------------------
  // Shape of the result

  predicate AllClean(b: string) {
    forall i :: 0 <= i < |b| ==> Clean(b[i])
  }

  lemma AllCleanSuffix(b: string, k: nat)
    requires AllClean(b) && k <= |b|
    ensures AllClean(b[k..])
  {
    forall i | 0 <= i < |b[k..]| ensures Clean(b[k..][i]) {
      assert b[k..][i] == b[k + i];
    }
  }

  lemma {:induction false} CollapseShape(b: string)
    requires AllClean(b)
    ensures Collapsed(CollapseSpaces(b))
    ensures b != [] ==> CollapseSpaces(b) != [] && (CollapseSpaces(b)[0] == '-' <==> IsUnicodeSpace(b[0]))
    decreases |b|
  {
    if b != [] {
      AllCleanSuffix(b, 1);
      if IsUnicodeSpace(b[0]) {
        var sk := SkipSpaces(b[1..]);
        AllCleanSuffix(b[1..], |b[1..]| - |sk|);
        CollapseShape(sk);
        assert CollapseSpaces(b) == "-" + CollapseSpaces(sk);
        CollapsedCons('-', CollapseSpaces(sk));
      } else {
        CollapseShape(b[1..]);
        assert CollapseSpaces(b) == [b[0]] + CollapseSpaces(b[1..]);
        CleanWordChar(b[0]);
        CollapsedCons(b[0], CollapseSpaces(b[1..]));
      }
    }
  }

  /** A clean character that is not white space is a letter or digit, so not a dash. */
  lemma CleanWordChar(c: char)
    requires Clean(c) && !IsUnicodeSpace(c)
    ensures IsLetterOrDigit(c) && c != '-'
  {
  }

  lemma CollapsedCons(c: char, s: string)
    requires c == '-' || IsLetterOrDigit(c)
    requires Collapsed(s)
    requires c == '-' && s != [] ==> s[0] != '-'
    ensures Collapsed([c] + s)
  {
    var r := [c] + s;
    forall i | 0 <= i < |r| ensures r[i] == '-' || IsLetterOrDigit(r[i]) {
      if i > 0 {
        assert r[i] == s[i - 1];
      }
    }
    forall i | 0 <= i < |r| - 1 ensures r[i] != '-' || r[i + 1] != '-' {
      if i > 0 {
        assert r[i] == s[i - 1] && r[i + 1] == s[i];
      }
    }
  }

  lemma TrimShape(c: string)
    requires Collapsed(c)
    ensures Collapsed(TrimDashes(c))
    ensures TrimDashes(c) != [] ==> TrimDashes(c)[0] != '-' && TrimDashes(c)[|TrimDashes(c)| - 1] != '-'
  {
    var k := TrimSlice(c);
    CollapsedSlice(c, k, k + |TrimDashes(c)|);
  }

  /** Trimming dashes leaves a slice that neither starts nor ends with a dash. */
  lemma TrimSlice(c: string) returns (k: nat)
    ensures k + |TrimDashes(c)| <= |c| && TrimDashes(c) == c[k..k + |TrimDashes(c)|]
    ensures TrimDashes(c) != [] ==> TrimDashes(c)[0] != '-' && TrimDashes(c)[|TrimDashes(c)| - 1] != '-'
  {
    var l := TrimDashesLeft(c);
    var r := TrimDashesRight(l);
    k := |c| - |l|;
    PrefixOfSuffix(c, k, l, r);
  }

  lemma PrefixOfSuffix(c: string, k: nat, l: string, r: string)
    requires k <= |c| && l == c[k..]
    requires |r| <= |l| && r == l[..|r|]
    requires l == [] || l[0] != '-'
    ensures k + |r| <= |c| && r == c[k..k + |r|]
    ensures r != [] ==> r[0] != '-'
  {
    if r != [] {
      assert r[0] == l[0];
    }
  }

  lemma CollapsedSlice(c: string, k: nat, j: nat)
    requires Collapsed(c) && k <= j <= |c|
    ensures Collapsed(c[k..j])
  {
    var r := c[k..j];
    forall i | 0 <= i < |r| ensures r[i] == '-' || IsLetterOrDigit(r[i]) {
      assert r[i] == c[k + i];
    }
    forall i | 0 <= i < |r| - 1 ensures r[i] != '-' || r[i + 1] != '-' {
      assert r[i] == c[k + i] && r[i + 1] == c[k + i + 1];
    }
  }

  // ---------------------------------------------------------------------
  // Where the characters of the result come from

  /** Every character of s is white space or one of the characters of t. */
  predicate SpaceOrIn(s: string, t: string) {
    forall i :: 0 <= i < |s| ==> IsUnicodeSpace(s[i]) || s[i] in t
  }

  /** Every character of s is a dash or one of the characters of t. */
  predicate DashOrIn(s: string, t: string) {
    forall i :: 0 <= i < |s| ==> s[i] == '-' || s[i] in t
  }

  lemma BlankSpaceOrIn(t: string)
    ensures SpaceOrIn(BlankNonWord(t), t)
  {
  }

  lemma SpaceOrInSuffix(s: string, t: string, k: nat)
    requires SpaceOrIn(s, t) && k <= |s|
    ensures SpaceOrIn(s[k..], t)
  {
    forall i | 0 <= i < |s[k..]| ensures IsUnicodeSpace(s[k..][i]) || s[k..][i] in t {
      assert s[k..][i] == s[k + i];
    }
  }

  lemma DashOrInCons(c: char, s: string, t: string)
    requires c == '-' || c in t
    requires DashOrIn(s, t)
    ensures DashOrIn([c] + s, t)
  {
    var r := [c] + s;
    forall i | 0 <= i < |r| ensures r[i] == '-' || r[i] in t {
      if i > 0 {
        assert r[i] == s[i - 1];
      }
    }
  }

  /** Pass 2 only adds dashes: every other character of its output was in its input. */
  lemma {:induction false} CollapseDashOrIn(b: string, t: string)
    requires SpaceOrIn(b, t)
    ensures DashOrIn(CollapseSpaces(b), t)
    decreases |b|
  {
    if b != [] {
      SpaceOrInSuffix(b, t, 1);
      if IsUnicodeSpace(b[0]) {
        var sk := SkipSpaces(b[1..]);
        SpaceOrInSuffix(b[1..], t, |b[1..]| - |sk|);
        CollapseDashOrIn(sk, t);
        assert CollapseSpaces(b) == "-" + CollapseSpaces(sk);
        DashOrInCons('-', CollapseSpaces(sk), t);
      } else {
        CollapseDashOrIn(b[1..], t);
        assert CollapseSpaces(b) == [b[0]] + CollapseSpaces(b[1..]);
        DashOrInCons(b[0], CollapseSpaces(b[1..]), t);
      }
    }
  }

  lemma TrimDashOrIn(c: string, t: string)
    requires DashOrIn(c, t)
    ensures DashOrIn(TrimDashes(c), t)
  {
    var k := TrimSlice(c);
    var r := TrimDashes(c);
    forall i | 0 <= i < |r| ensures r[i] == '-' || r[i] in t {
      assert r[i] == c[k + i];
    }
  }

  /** A character of a text without table characters is no table character. */
  lemma InPlainText(x: char, t: string)
    requires forall i :: 0 <= i < |t| ==> !IsSourceChar(t[i])
    requires x in t
    ensures !IsSourceChar(x)
  {
    var j :| 0 <= j < |t| && t[j] == x;
  }

  lemma LowerShape(x: string, t: string)
    requires Collapsed(x) && DashOrIn(x, t)
    requires forall i :: 0 <= i < |t| ==> !IsSourceChar(t[i])
    requires x != [] ==> x[0] != '-' && x[|x| - 1] != '-'
    ensures IsSlug(LowerStr(x))
  {
    var r := LowerStr(x);
    forall i | 0 <= i < |r| ensures SlugChar(r[i]) {
      if IsUpper(x[i]) {
        AsciiIsNoSource(r[i]);
      } else if x[i] != '-' {
        InPlainText(x[i], t);
      }
    }
  }

  // ---------------------------------------------------------------------
  // Content of the result

  lemma DropDashesConcat(a: string, b: string)
    ensures DropDashes(a + b) == DropDashes(a) + DropDashes(b)
  {
    if a == [] {
      assert a + b == b;
    } else {
      assert (a + b)[1..] == a[1..] + b;
      DropDashesConcat(a[1..], b);
    }
  }

  lemma {:induction false} DropDashesLower(x: string)
    ensures DropDashes(LowerStr(x)) == LowerStr(DropDashes(x))
  {
    if x != [] {
      assert x == [x[0]] + x[1..];
      LowerStrConcat([x[0]], x[1..]);
      DropDashesLower(x[1..]);
      var head := if x[0] != '-' then [x[0]] else [];
      LowerStrConcat(head, DropDashes(x[1..]));
    }
  }

  lemma {:induction false} DropDashesTrimLeft(c: string)
    ensures DropDashes(TrimDashesLeft(c)) == DropDashes(c)
  {
    if c != [] && c[0] == '-' {
      DropDashesTrimLeft(c[1..]);
    }
  }

  lemma {:induction false} DropDashesTrimRight(c: string)
    ensures DropDashes(TrimDashesRight(c)) == DropDashes(c)
  {
    if c != [] && c[|c| - 1] == '-' {
      var init := c[..|c| - 1];
      DropDashesTrimRight(init);
      assert c == init + "-";
      DropDashesConcat(init, "-");
    }
  }

  lemma DropDashesTrim(c: string)
    ensures DropDashes(TrimDashes(c)) == DropDashes(c)
  {
    DropDashesTrimLeft(c);
    DropDashesTrimRight(TrimDashesLeft(c));
  }

  lemma {:induction false} DropSpacesSkip(s: string)
    ensures DropSpaces(SkipSpaces(s)) == DropSpaces(s)
  {
    if s != [] && IsUnicodeSpace(s[0]) {
      DropSpacesSkip(s[1..]);
    }
  }

  lemma {:induction false} DropDashesCollapse(b: string)
    requires NoDash(b)
    ensures DropDashes(CollapseSpaces(b)) == DropSpaces(b)
    decreases |b|
  {
    if b != [] {
      NoDashSuffix(b, 1);
      if IsUnicodeSpace(b[0]) {
        var sk := SkipSpaces(b[1..]);
        NoDashSuffix(b[1..], |b[1..]| - |sk|);
        DropDashesCollapse(sk);
        DropSpacesSkip(b[1..]);
        assert CollapseSpaces(b) == "-" + CollapseSpaces(sk);
        assert ("-" + CollapseSpaces(sk))[1..] == CollapseSpaces(sk);
        assert DropSpaces(b) == DropSpaces(b[1..]);
      } else {
        DropDashesCollapse(b[1..]);
        assert CollapseSpaces(b) == [b[0]] + CollapseSpaces(b[1..]);
        assert ([b[0]] + CollapseSpaces(b[1..]))[1..] == CollapseSpaces(b[1..]);
        assert DropSpaces(b) == [b[0]] + DropSpaces(b[1..]);
      }
    }
  }

  lemma NoDashSuffix(s: string, k: nat)
    requires NoDash(s) && k <= |s|
    ensures NoDash(s[k..])
  {
    forall i | 0 <= i < |s[k..]| ensures s[k..][i] != '-' {
      assert s[k..][i] == s[k + i];
    }
  }

  lemma {:induction false} DropSpacesBlank(t: string)
    ensures DropSpaces(BlankNonWord(t)) == Kept(t)
  {
    if t != [] {
      BlankNonWordCons(t);
      DropSpacesBlank(t[1..]);
      assert BlankNonWord(t)[1..] == BlankNonWord(t[1..]);
    }
  }

  // ---------------------------------------------------------------------
  // Consequences

  /** A slug comes through toSlug unchanged. */
  lemma SlugIsFixpoint(s: string)
    requires IsSlug(s)
    ensures ToSlug(s) == s
  {
    forall i | 0 <= i < |s| ensures !IsSourceChar(s[i]) {
      if s[i] == '-' { AsciiIsNoSource(s[i]); }
    }
    assert Transliterate(s) == s;
    CollapseBlankOfSlug(s);
    assert TrimDashesLeft(s) == s;
    assert TrimDashesRight(s) == s;
    LowerStrOfLower(s);
  }

  lemma SlugBodyTail(s: string)
    requires SlugBody(s) && s != []
    ensures SlugBody(s[1..])
  {
    var t := s[1..];
    forall i | 0 <= i < |t| ensures SlugChar(t[i]) {
      assert t[i] == s[i + 1];
    }
    forall i | 0 <= i < |t| - 1 ensures t[i] != '-' || t[i + 1] != '-' {
      assert t[i] == s[i + 1] && t[i + 1] == s[i + 2];
    }
  }

  /** Pass 1 turns a slug's dashes into spaces and keeps its other characters. */
  lemma BlankOfSlugChar(c: char)
    requires SlugChar(c)
    ensures Blank(c) == (if c == '-' then ' ' else c)
    ensures IsUnicodeSpace(Blank(c)) <==> c == '-'
  {
  }

  lemma {:induction false} CollapseBlankOfSlug(s: string)
    requires SlugBody(s)
    ensures CollapseSpaces(BlankNonWord(s)) == s
  {
    if s != [] {
      var b := BlankNonWord(s);
      BlankNonWordCons(s);
      BlankOfSlugChar(s[0]);
      SlugBodyTail(s);
      CollapseBlankOfSlug(s[1..]);
      if s[0] == '-' {
        if |s| > 1 {
          BlankNonWordCons(s[1..]);
          BlankOfSlugChar(s[1]);
        }
        assert SkipSpaces(b[1..]) == b[1..];
      }
      assert [s[0]] + s[1..] == s;
    }
  }

  /** toSlug is idempotent. */
  lemma SlugIdempotent(s: string)
    ensures ToSlug(ToSlug(s)) == ToSlug(s)
  {
    SlugIsFixpoint(ToSlug(s));
  }

  /** toSlug gives the empty string exactly when the transliterated input holds no letter or digit. */
  lemma SlugEmptyIff(s: string)
    ensures ToSlug(s) == [] <==> Kept(Transliterate(s)) == []
  {
    var r := ToSlug(s);
    if r != [] {
      assert DropDashes(r) == [r[0]] + DropDashes(r[1..]);
    }
  }

  // ---------------------------------------------------------------------
  // Where the dashes go

  /** The passes of toSlug that follow the transliteration. */
  function Passes(t: string): string
  {
    LowerStr(TrimDashes(CollapseSpaces(BlankNonWord(t))))
  }

  lemma ToSlugPasses(s: string)
    ensures ToSlug(s) == Passes(Transliterate(s))
  {
  }

  /** A word that transliterates to letters and digits only is lower-cased and nothing else. */
  lemma SlugOfWord(w: string)
    requires forall i :: 0 <= i < |Transliterate(w)| ==> IsLetterOrDigit(Transliterate(w)[i])
    ensures ToSlug(w) == LowerStr(Transliterate(w))
  {
    ToSlugPasses(w);
    PassesOfWord(Transliterate(w));
  }

  lemma PassesOfWord(t: string)
    requires forall i :: 0 <= i < |t| ==> IsLetterOrDigit(t[i])
    ensures Passes(t) == LowerStr(t)
  {
    BlankOfWord(t);
    CollapseWithoutSpaces(t);
    TrimWithoutDashes(t);
  }

  lemma BlankOfWord(t: string)
    requires forall i :: 0 <= i < |t| ==> IsLetterOrDigit(t[i])
    ensures BlankNonWord(t) == t
  {
  }

  lemma TrimWithoutDashes(t: string)
    requires forall i :: 0 <= i < |t| ==> t[i] != '-'
    ensures TrimDashes(t) == t
  {
    assert TrimDashesLeft(t) == t;
  }

  lemma {:induction false} CollapseWithoutSpaces(s: string)
    requires forall i :: 0 <= i < |s| ==> !IsUnicodeSpace(s[i])
    ensures CollapseSpaces(s) == s
  {
    if s != [] {
      CollapseWithoutSpaces(s[1..]);
      assert [s[0]] + s[1..] == s;
    }
  }

  /**
   * A character that is neither a letter or digit nor a table character
   * separates two words of a slug by exactly one dash, whatever white space
   * or punctuation surrounds it.
   */
  lemma SlugAtBreak(a: string, c: char, b: string)
    requires !IsLetterOrDigit(c) && !IsSourceChar(c)
    requires ToSlug(a) != [] && ToSlug(b) != []
    ensures ToSlug(a + [c] + b) == ToSlug(a) + "-" + ToSlug(b)
  {
    ToSlugPasses(a);
    ToSlugPasses(b);
    ToSlugPasses(a + [c] + b);
    TransliterateAround(a, c, b);
    PassesAtBreak(Transliterate(a), c, Transliterate(b));
  }

  /**
   * The same character next to a side that slugs to nothing leaves no dash:
   * pass 3 removes what white space and punctuation at either end of the
   * input turn into.
   */
  lemma SlugAtEdge(a: string, c: char, b: string)
    requires !IsLetterOrDigit(c) && !IsSourceChar(c)
    ensures ToSlug(a) == [] ==> ToSlug(a + [c] + b) == ToSlug(b)
    ensures ToSlug(b) == [] ==> ToSlug(a + [c] + b) == ToSlug(a)
  {
    ToSlugPasses(a);
    ToSlugPasses(b);
    ToSlugPasses(a + [c] + b);
    TransliterateAround(a, c, b);
    SlugEmptyIff(a);
    SlugEmptyIff(b);
    PassesAtEdge(Transliterate(a), c, Transliterate(b));
  }

  lemma PassesAtEdge(ta: string, c: char, tb: string)
    requires !IsLetterOrDigit(c)
    ensures Kept(ta) == [] ==> Passes(ta + [c] + tb) == Passes(tb)
    ensures Kept(tb) == [] ==> Passes(ta + [c] + tb) == Passes(ta)
  {
    BlankNonWordAround(ta, c, tb);
    BlankIsClean(ta);
    BlankIsClean(tb);
    var x, sp, y := BlankNonWord(ta), Blank(c), BlankNonWord(tb);
    assert AllSpaces([sp]);
    if Kept(ta) == [] {
      KeptEmptyBlank(ta);
      SpacesConcat(x, [sp]);
      TrimAfterSpaces(x + [sp], y);
    }
    if Kept(tb) == [] {
      KeptEmptyBlank(tb);
      SpacesConcat([sp], y);
      AppendAssoc(x, [sp], y);
      TrimBeforeSpaces(x, [sp] + y);
    }
  }

  /** Text without a letter or digit blanks to white space only. */
  lemma {:induction false} KeptEmptyBlank(t: string)
    ensures Kept(t) == [] ==> AllSpaces(BlankNonWord(t))
  {
    if t != [] && Kept(t) == [] {
      assert Kept(t[1..]) == [];
      KeptEmptyBlank(t[1..]);
      BlankNonWordCons(t);
      SpacesConcat([Blank(t[0])], BlankNonWord(t[1..]));
    }
  }

  lemma SpacesConcat(p: string, q: string)
    requires AllSpaces(p) && AllSpaces(q)
    ensures AllSpaces(p + q)
  {
    forall i | 0 <= i < |p + q| ensures IsUnicodeSpace((p + q)[i]) {
      if i >= |p| {
        assert (p + q)[i] == q[i - |p|];
      }
    }
  }

  /** Passes 2 and 3 drop white space in front of a clean text. */
  lemma TrimAfterSpaces(m: string, y: string)
    requires m != [] && AllSpaces(m) && AllClean(y)
    ensures TrimDashes(CollapseSpaces(m + y)) == TrimDashes(CollapseSpaces(y))
  {
    var q2, p2 := LeadingSpaces(y), SkipSpaces(y);
    LeadingSplit(y);
    SpacesConcat(m, q2);
    if p2 == [] {
      assert y == q2 && m + y == m + q2;
      SpacesVanish(m + q2);
      SpacesVanish(y);
    } else {
      AllCleanParts(q2, p2);
      WordEndRight(p2);
      AppendAssoc(m, q2, p2);
      CollapseSpacesThenWord(m + q2, p2);
      CollapseSpacesThenWord(q2, p2);
      TrimDashThenWord("-", CollapseSpaces(p2));
      TrimDashThenWord(if q2 == [] then "" else "-", CollapseSpaces(p2));
    }
  }

  /** Passes 2 and 3 drop white space after a clean text. */
  lemma TrimBeforeSpaces(x: string, m: string)
    requires m != [] && AllSpaces(m) && AllClean(x)
    ensures TrimDashes(CollapseSpaces(x + m)) == TrimDashes(CollapseSpaces(x))
  {
    var p1, q1 := DropTrailingSpaces(x), TrailingSpaces(x);
    TrailingSplit(x);
    SpacesConcat(q1, m);
    if p1 == [] {
      assert x == q1 && x + m == q1 + m;
      SpacesVanish(q1 + m);
      SpacesVanish(x);
    } else {
      AllCleanParts(p1, q1);
      WordEndLeft(p1);
      WordThenSpaces(p1, q1, m);
    }
  }

  lemma WordThenSpaces(p1: string, q1: string, m: string)
    requires AllSpaces(q1) && m != [] && AllSpaces(q1 + m)
    requires p1 != [] && !IsUnicodeSpace(p1[|p1| - 1])
    requires CollapseSpaces(p1) != [] && CollapseSpaces(p1)[|CollapseSpaces(p1)| - 1] != '-'
    ensures TrimDashes(CollapseSpaces(p1 + q1 + m)) == TrimDashes(CollapseSpaces(p1 + q1))
  {
    AppendAssoc(p1, q1, m);
    CollapseWordThenSpaces(p1, q1 + m);
    CollapseWordThenSpaces(p1, q1);
    TrimWordThenDash(CollapseSpaces(p1), "-");
    TrimWordThenDash(CollapseSpaces(p1), if q1 == [] then "" else "-");
  }

  lemma PassesAtBreak(ta: string, c: char, tb: string)
    requires !IsLetterOrDigit(c)
    requires Passes(ta) != [] && Passes(tb) != []
    ensures Passes(ta + [c] + tb) == Passes(ta) + "-" + Passes(tb)
  {
    BlankNonWordAround(ta, c, tb);
    BlankIsClean(ta);
    BlankIsClean(tb);
    var x, y := BlankNonWord(ta), BlankNonWord(tb);
    JoinAtSpace(x, Blank(c), y);
    var gx, gy := TrimDashes(CollapseSpaces(x)), TrimDashes(CollapseSpaces(y));
    LowerStrConcat(gx + "-", gy);
    LowerStrConcat(gx, "-");
  }

  lemma TransliterateAround(a: string, c: char, b: string)
    requires !IsSourceChar(c)
    ensures Transliterate(a + [c] + b) == Transliterate(a) + [c] + Transliterate(b)
  {
    MapLookupAround(Rules, a, c, b);
  }

  /** A character no rule lists passes through MapLookup and cuts it in two. */
  lemma MapLookupAround(rules: seq<Rule>, a: string, c: char, b: string)
    requires !IsSourceOf(rules, c)
    ensures MapLookup(rules, a + [c] + b) == MapLookup(rules, a) + [c] + MapLookup(rules, b)
  {
    MapLookupConcat(rules, a + [c], b);
    MapLookupConcat(rules, a, [c]);
    LookupOfPlain(rules, c);
    assert MapLookup(rules, [c]) == Lookup(rules, c) + MapLookup(rules, []);
  }

  lemma BlankNonWordAround(x: string, c: char, y: string)
    ensures BlankNonWord(x + [c] + y) == BlankNonWord(x) + [Blank(c)] + BlankNonWord(y)
  {
    var l, r := BlankNonWord(x + [c] + y), BlankNonWord(x) + [Blank(c)] + BlankNonWord(y);
    assert |l| == |r|;
    forall i | 0 <= i < |l| ensures l[i] == r[i] {
      if i < |x| {
        assert (x + [c] + y)[i] == x[i];
      } else if i == |x| {
        assert (x + [c] + y)[i] == c;
      } else {
        assert (x + [c] + y)[i] == y[i - |x| - 1];
      }
    }
  }

  predicate AllSpaces(m: string) {
    forall i :: 0 <= i < |m| ==> IsUnicodeSpace(m[i])
  }

  /** s without its trailing white space. */
  function DropTrailingSpaces(s: string): (r: string)
    ensures r == [] || !IsUnicodeSpace(r[|r| - 1])
  {
    if s != [] && IsUnicodeSpace(s[|s| - 1]) then DropTrailingSpaces(s[..|s| - 1]) else s
  }

  /** The trailing white space of s. */
  function TrailingSpaces(s: string): (q: string)
    ensures AllSpaces(q)
  {
    if s != [] && IsUnicodeSpace(s[|s| - 1]) then TrailingSpaces(s[..|s| - 1]) + [s[|s| - 1]] else []
  }

  lemma {:induction false} TrailingSplit(s: string)
    ensures s == DropTrailingSpaces(s) + TrailingSpaces(s)
  {
    if s != [] && IsUnicodeSpace(s[|s| - 1]) {
      var init := s[..|s| - 1];
      TrailingSplit(init);
      AppendAssoc(DropTrailingSpaces(init), TrailingSpaces(init), [s[|s| - 1]]);
      assert s == init + [s[|s| - 1]];
    } else {
      assert s + [] == s;
    }
  }

  lemma AllCleanParts(p: string, q: string)
    requires AllClean(p + q)
    ensures AllClean(p) && AllClean(q)
  {
    forall i | 0 <= i < |p| ensures Clean(p[i]) {
      assert p[i] == (p + q)[i];
    }
    forall i | 0 <= i < |q| ensures Clean(q[i]) {
      assert q[i] == (p + q)[|p| + i];
    }
  }

  lemma {:induction false} SkipSpacesConcat(x: string, y: string)
    ensures SkipSpaces(x) != [] ==> SkipSpaces(x + y) == SkipSpaces(x) + y
    ensures SkipSpaces(x) == [] && (y == [] || !IsUnicodeSpace(y[0])) ==> SkipSpaces(x + y) == y
  {
    if x == [] {
      assert x + y == y;
    } else {
      assert (x + y)[0] == x[0];
      if IsUnicodeSpace(x[0]) {
        assert (x + y)[1..] == x[1..] + y;
        SkipSpacesConcat(x[1..], y);
      }
    }
  }

  lemma SkipSpacesLast(z: string)
    requires SkipSpaces(z) != []
    ensures SkipSpaces(z)[|SkipSpaces(z)| - 1] == z[|z| - 1]
  {
  }

  /** When nothing is left after the leading white space, the last character is white space. */
  lemma SkipToEnd(x: string)
    requires x != [] && IsUnicodeSpace(x[0]) && SkipSpaces(x[1..]) == []
    ensures IsUnicodeSpace(x[|x| - 1])
  {
    if |x| > 1 {
      assert x[|x| - 1] == x[1..][|x| - 2];
    }
  }

  lemma CollapseAtSpace(x: string, y: string)
    requires x != [] && IsUnicodeSpace(x[0])
    ensures CollapseSpaces(x + y) == "-" + CollapseSpaces(SkipSpaces(x[1..] + y))
  {
    assert (x + y)[0] == x[0];
    assert (x + y)[1..] == x[1..] + y;
  }

  lemma CollapseAtWord(x: string, y: string)
    requires x != [] && !IsUnicodeSpace(x[0])
    ensures CollapseSpaces(x + y) == [x[0]] + CollapseSpaces(x[1..] + y)
  {
    assert (x + y)[0] == x[0];
    assert (x + y)[1..] == x[1..] + y;
  }

  /** Pass 2 may be cut anywhere except inside a run of white space. */
  lemma {:induction false} CollapseCut(x: string, y: string)
    requires x == [] || y == [] || !IsUnicodeSpace(x[|x| - 1]) || !IsUnicodeSpace(y[0])
    ensures CollapseSpaces(x + y) == CollapseSpaces(x) + CollapseSpaces(y)
    decreases |x|, 1
  {
    if y == [] {
      assert x + y == x;
    } else if x == [] {
      assert x + y == y;
    } else if IsUnicodeSpace(x[0]) {
      CollapseCutAtSpace(x, y);
    } else {
      CollapseCutAtWord(x, y);
    }
  }

  lemma {:induction false} CollapseCutAtSpace(x: string, y: string)
    requires x != [] && y != [] && IsUnicodeSpace(x[0])
    requires !IsUnicodeSpace(x[|x| - 1]) || !IsUnicodeSpace(y[0])
    ensures CollapseSpaces(x + y) == CollapseSpaces(x) + CollapseSpaces(y)
    decreases |x|, 0
  {
    var sk := SkipSpaces(x[1..]);
    CollapseSpaceStep(x, y, sk);
    if sk != [] {
      SkipRest(x, sk);
      CollapseCut(sk, y);
      AppendAssoc("-", CollapseSpaces(sk), CollapseSpaces(y));
    }
  }

  /** One step of pass 2 over x + y from a leading white-space character, on both x and x + y. */
  lemma CollapseSpaceStep(x: string, y: string, sk: string)
    requires x != [] && y != [] && IsUnicodeSpace(x[0]) && sk == SkipSpaces(x[1..])
    requires !IsUnicodeSpace(x[|x| - 1]) || !IsUnicodeSpace(y[0])
    ensures CollapseSpaces(x) == "-" + CollapseSpaces(sk)
    ensures sk != [] ==> CollapseSpaces(x + y) == "-" + CollapseSpaces(sk + y)
    ensures sk == [] ==> CollapseSpaces(x + y) == "-" + CollapseSpaces(sk) + CollapseSpaces(y)
  {
    CollapseAtSpace(x, y);
    SkipSpacesConcat(x[1..], y);
    if sk == [] {
      SkipToEnd(x);
      assert "-" + CollapseSpaces(sk) == "-";
    }
  }

  /** What follows the leading white space after x[0] is shorter than x and ends where x ends. */
  lemma SkipRest(x: string, sk: string)
    requires x != [] && sk == SkipSpaces(x[1..]) && sk != []
    ensures |sk| < |x| && sk[|sk| - 1] == x[|x| - 1]
  {
    SkipSpacesLast(x[1..]);
  }

  lemma {:induction false} CollapseCutAtWord(x: string, y: string)
    requires x != [] && !IsUnicodeSpace(x[0])
    requires y == [] || !IsUnicodeSpace(x[|x| - 1]) || !IsUnicodeSpace(y[0])
    ensures CollapseSpaces(x + y) == CollapseSpaces(x) + CollapseSpaces(y)
    decreases |x|, 0
  {
    CollapseAtWord(x, y);
    CollapseCut(x[1..], y);
    AppendAssoc([x[0]], CollapseSpaces(x[1..]), CollapseSpaces(y));
  }

  lemma SkipAllSpaces(m: string)
    requires AllSpaces(m)
    ensures SkipSpaces(m) == []
  {
  }

  lemma AllSpacesTail(m: string)
    requires m != [] && AllSpaces(m)
    ensures AllSpaces(m[1..])
  {
    forall i | 0 <= i < |m[1..]| ensures IsUnicodeSpace(m[1..][i]) {
      assert m[1..][i] == m[i + 1];
    }
  }

  /** A run of white space collapses to one dash, or to nothing when it is empty. */
  lemma CollapseOfSpaces(m: string)
    requires AllSpaces(m)
    ensures CollapseSpaces(m) == (if m == [] then "" else "-")
  {
    if m != [] {
      AllSpacesTail(m);
      SkipAllSpaces(m[1..]);
    }
  }

  /** Pass 3 removes what pass 2 makes of white space alone. */
  lemma SpacesVanish(m: string)
    ensures AllSpaces(m) ==> TrimDashes(CollapseSpaces(m)) == []
  {
    if AllSpaces(m) {
      CollapseOfSpaces(m);
      assert TrimDashesLeft("-") == [];
    }
  }

  lemma DropTrailingEmpty(x: string)
    ensures DropTrailingSpaces(x) == [] ==> AllSpaces(x)
  {
    TrailingSplit(x);
    assert DropTrailingSpaces(x) == [] ==> x == TrailingSpaces(x);
  }

  lemma SkipEmpty(x: string)
    ensures SkipSpaces(x) == [] ==> AllSpaces(x)
  {
  }

  /** A text that slugs to something has a character that is not white space. */
  lemma HasWord(x: string)
    requires TrimDashes(CollapseSpaces(x)) != []
    ensures DropTrailingSpaces(x) != [] && SkipSpaces(x) != []
  {
    SpacesVanish(x);
    DropTrailingEmpty(x);
    SkipEmpty(x);
  }

  lemma CollapseEnd(s: string)
    requires s != [] && !IsUnicodeSpace(s[|s| - 1])
    ensures CollapseSpaces(s) != [] && CollapseSpaces(s)[|CollapseSpaces(s)| - 1] == s[|s| - 1]
  {
    var init, last := s[..|s| - 1], [s[|s| - 1]];
    assert s == init + last;
    CollapseCut(init, last);
    CollapseAtWord(last, []);
    assert last + [] == last;
  }

  /** The white space between two words and the separating character form one run. */
  lemma JoinRun(q1: string, sp: char, q2: string)
    requires AllSpaces(q1) && AllSpaces(q2) && IsUnicodeSpace(sp)
    ensures AllSpaces(q1 + [sp] + q2)
  {
    var m := q1 + [sp] + q2;
    forall i | 0 <= i < |m| ensures IsUnicodeSpace(m[i]) {
      if i < |q1| {
        assert m[i] == q1[i];
      } else if i > |q1| {
        assert m[i] == q2[i - |q1| - 1];
      }
    }
  }

  lemma Regroup(p1: string, q1: string, sp: char, q2: string, p2: string)
    ensures (p1 + q1) + [sp] + (q2 + p2) == p1 + (q1 + [sp] + q2) + p2
  {
  }

  lemma CollapseAroundRun(p1: string, m: string, p2: string)
    requires p1 != [] && !IsUnicodeSpace(p1[|p1| - 1])
    requires m != [] && AllSpaces(m)
    requires p2 != [] && !IsUnicodeSpace(p2[0])
    ensures CollapseSpaces(p1 + m + p2) == CollapseSpaces(p1) + "-" + CollapseSpaces(p2)
  {
    CollapseCut(m, p2);
    CollapseOfSpaces(m);
    CollapseCut(p1, m + p2);
    AppendAssoc(p1, m, p2);
    AppendAssoc(CollapseSpaces(p1), "-", CollapseSpaces(p2));
  }

  lemma CollapseWordThenSpaces(p1: string, q1: string)
    requires p1 != [] && !IsUnicodeSpace(p1[|p1| - 1]) && AllSpaces(q1)
    ensures CollapseSpaces(p1 + q1) == CollapseSpaces(p1) + (if q1 == [] then "" else "-")
  {
    CollapseCut(p1, q1);
    CollapseOfSpaces(q1);
  }

  lemma CollapseSpacesThenWord(q2: string, p2: string)
    requires AllSpaces(q2) && p2 != [] && !IsUnicodeSpace(p2[0])
    ensures CollapseSpaces(q2 + p2) == (if q2 == [] then "" else "-") + CollapseSpaces(p2)
  {
    CollapseCut(q2, p2);
    CollapseOfSpaces(q2);
  }

  /** What pass 2 makes of a clean text that ends in a word ends in a character that is not a dash. */
  lemma WordEndLeft(p1: string)
    requires AllClean(p1) && p1 != [] && !IsUnicodeSpace(p1[|p1| - 1])
    ensures CollapseSpaces(p1) != [] && CollapseSpaces(p1)[|CollapseSpaces(p1)| - 1] != '-'
  {
    CollapseEnd(p1);
    CleanWordChar(p1[|p1| - 1]);
  }

  /** What pass 2 makes of a clean text that starts with a word starts with a character that is not a dash. */
  lemma WordEndRight(p2: string)
    requires AllClean(p2) && p2 != [] && !IsUnicodeSpace(p2[0])
    ensures CollapseSpaces(p2) != [] && CollapseSpaces(p2)[0] != '-'
  {
    CollapseShape(p2);
  }

  /** A clean text holding a word, cut into the part up to its last word character and the white space after it. */
  lemma TrailingCut(x: string) returns (p1: string, q1: string)
    requires AllClean(x) && TrimDashes(CollapseSpaces(x)) != []
    ensures x == p1 + q1 && AllSpaces(q1) && AllClean(p1)
    ensures p1 != [] && !IsUnicodeSpace(p1[|p1| - 1])
    ensures CollapseSpaces(p1) != [] && CollapseSpaces(p1)[|CollapseSpaces(p1)| - 1] != '-'
  {
    HasWord(x);
    p1, q1 := DropTrailingSpaces(x), TrailingSpaces(x);
    TrailingSplit(x);
    AllCleanParts(p1, q1);
    WordEndLeft(p1);
  }

  /** A clean text holding a word, cut into its leading white space and the rest. */
  lemma LeadingCut(y: string) returns (q2: string, p2: string)
    requires AllClean(y) && TrimDashes(CollapseSpaces(y)) != []
    ensures y == q2 + p2 && AllSpaces(q2) && AllClean(p2)
    ensures p2 != [] && !IsUnicodeSpace(p2[0])
    ensures CollapseSpaces(p2) != [] && CollapseSpaces(p2)[0] != '-'
  {
    HasWord(y);
    q2, p2 := LeadingSpaces(y), SkipSpaces(y);
    LeadingSplit(y);
    AllCleanParts(q2, p2);
    WordEndRight(p2);
  }

  /** The leading white space of s. */
  function LeadingSpaces(s: string): (q: string)
    ensures AllSpaces(q)
  {
    if s != [] && IsUnicodeSpace(s[0]) then [s[0]] + LeadingSpaces(s[1..]) else []
  }

  lemma {:induction false} LeadingSplit(s: string)
    ensures s == LeadingSpaces(s) + SkipSpaces(s)
  {
    if s != [] && IsUnicodeSpace(s[0]) {
      LeadingSplit(s[1..]);
      AppendAssoc([s[0]], LeadingSpaces(s[1..]), SkipSpaces(s[1..]));
      assert s == [s[0]] + s[1..];
    } else {
      assert [] + s == s;
    }
  }

  /** Pass 2 around the white space between two words: one dash between what the two words collapse to. */
  lemma CollapseJoin(p1: string, q1: string, sp: char, q2: string, p2: string)
    requires AllSpaces(q1) && AllSpaces(q2) && IsUnicodeSpace(sp)
    requires p1 != [] && !IsUnicodeSpace(p1[|p1| - 1]) && p2 != [] && !IsUnicodeSpace(p2[0])
    ensures CollapseSpaces((p1 + q1) + [sp] + (q2 + p2)) == CollapseSpaces(p1) + "-" + CollapseSpaces(p2)
  {
    JoinRun(q1, sp, q2);
    Regroup(p1, q1, sp, q2, p2);
    CollapseAroundRun(p1, q1 + [sp] + q2, p2);
  }

  lemma {:induction false} TrimLeftConcat(u: string, v: string)
    requires TrimDashesLeft(u) != []
    ensures TrimDashesLeft(u + v) == TrimDashesLeft(u) + v
  {
    assert (u + v)[0] == u[0];
    if u[0] == '-' {
      assert (u + v)[1..] == u[1..] + v;
      TrimLeftConcat(u[1..], v);
    }
  }

  lemma {:induction false} TrimRightConcat(u: string, v: string)
    requires TrimDashesRight(v) != []
    ensures TrimDashesRight(u + v) == u + TrimDashesRight(v)
  {
    assert (u + v)[|u + v| - 1] == v[|v| - 1];
    if v[|v| - 1] == '-' {
      assert (u + v)[..|u + v| - 1] == u + v[..|v| - 1];
      TrimRightConcat(u, v[..|v| - 1]);
    }
  }

  /** Trimming the left of a text that ends in a word keeps that end. */
  lemma TrimLeftKeepsEnd(px: string)
    requires px != [] && px[|px| - 1] != '-'
    ensures TrimDashesLeft(px) != [] && TrimDashesLeft(px)[|TrimDashesLeft(px)| - 1] == px[|px| - 1]
  {
  }

  lemma TrimRightKeepsStart(py: string)
    requires py != [] && py[0] != '-'
    ensures TrimDashesRight(py) != [] && TrimDashesRight(py)[0] == py[0]
  {
  }

  /** Pass 3 keeps a dash between two words and trims the outer ends. */
  lemma TrimMiddle(px: string, py: string)
    requires px != [] && px[|px| - 1] != '-' && py != [] && py[0] != '-'
    ensures TrimDashes(px + "-" + py) == TrimDashesLeft(px) + "-" + TrimDashesRight(py)
  {
    var l := TrimDashesLeft(px);
    TrimLeftKeepsEnd(px);
    TrimRightKeepsStart(py);
    AppendAssoc(px, "-", py);
    TrimLeftConcat(px, "-" + py);
    AppendAssoc(l, "-", py);
    TrimRightConcat(l + "-", py);
  }

  lemma TrimWordThenDash(px: string, dx: string)
    requires px != [] && px[|px| - 1] != '-' && (dx == "" || dx == "-")
    ensures TrimDashes(px + dx) == TrimDashesLeft(px)
  {
    TrimLeftKeepsEnd(px);
    TrimLeftConcat(px, dx);
    TrimRightOneDash(TrimDashesLeft(px), dx);
  }

  lemma TrimRightOneDash(l: string, dx: string)
    requires l != [] && l[|l| - 1] != '-' && (dx == "" || dx == "-")
    ensures TrimDashesRight(l + dx) == l
  {
    if dx == "-" {
      assert (l + dx)[..|l + dx| - 1] == l;
    } else {
      assert l + dx == l;
    }
  }

  lemma TrimDashThenWord(dy: string, py: string)
    requires py != [] && py[0] != '-' && (dy == "" || dy == "-")
    ensures TrimDashes(dy + py) == TrimDashesRight(py)
  {
    if dy == "-" {
      assert (dy + py)[1..] == py;
    } else {
      assert dy + py == py;
    }
  }

  /** Passes 2 and 3 put exactly one dash where a white-space character separates two words. */
  lemma JoinAtSpace(x: string, sp: char, y: string)
    requires AllClean(x) && AllClean(y) && IsUnicodeSpace(sp)
    requires TrimDashes(CollapseSpaces(x)) != [] && TrimDashes(CollapseSpaces(y)) != []
    ensures TrimDashes(CollapseSpaces(x + [sp] + y))
         == TrimDashes(CollapseSpaces(x)) + "-" + TrimDashes(CollapseSpaces(y))
  {
    var p1, q1 := TrailingCut(x);
    var q2, p2 := LeadingCut(y);
    JoinPieces(p1, q1, sp, q2, p2);
  }

  /** The same, for two words p1 and p2 with white space q1 and q2 on the sides that face each other. */
  lemma JoinPieces(p1: string, q1: string, sp: char, q2: string, p2: string)
    requires AllSpaces(q1) && AllSpaces(q2) && IsUnicodeSpace(sp)
    requires p1 != [] && !IsUnicodeSpace(p1[|p1| - 1]) && p2 != [] && !IsUnicodeSpace(p2[0])
    requires CollapseSpaces(p1) != [] && CollapseSpaces(p1)[|CollapseSpaces(p1)| - 1] != '-'
    requires CollapseSpaces(p2) != [] && CollapseSpaces(p2)[0] != '-'
    ensures TrimDashes(CollapseSpaces((p1 + q1) + [sp] + (q2 + p2)))
         == TrimDashes(CollapseSpaces(p1 + q1)) + "-" + TrimDashes(CollapseSpaces(q2 + p2))
  {
    CollapseJoin(p1, q1, sp, q2, p2);
    CollapseWordThenSpaces(p1, q1);
    CollapseSpacesThenWord(q2, p2);
    TrimJoin(CollapseSpaces(p1), if q1 == [] then "" else "-", if q2 == [] then "" else "-", CollapseSpaces(p2));
  }

  /** Pass 3 on the dash between two words: it stays, and each side is trimmed as on its own. */
  lemma TrimJoin(px: string, dx: string, dy: string, py: string)
    requires (dx == "" || dx == "-") && (dy == "" || dy == "-")
    requires px != [] && px[|px| - 1] != '-' && py != [] && py[0] != '-'
    ensures TrimDashes(px + "-" + py) == TrimDashes(px + dx) + "-" + TrimDashes(dy + py)
  {
    TrimMiddle(px, py);
    TrimWordThenDash(px, dx);
    TrimDashThenWord(dy, py);
  }
}
