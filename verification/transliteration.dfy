/**
 * The transliteration table of Inflector.php:35-93 and the way toSlug
 * applies it: one preg_replace per rule, in table order, each replacing every
 * occurrence of any of the rule's characters by the rule's ASCII text.
 */
module Transliteration {
  import opened Chars

  /** A character outside ASCII: every alternative of the table's patterns is one. */
  type SourceChar = c: char | !IsAscii(c) witness '\U{00C0}'

  /** An ASCII letter: every replacement of the table is made of these. */
  type Letter = c: char | IsUpper(c) || IsLower(c) witness 'a'

  /** One entry of TRANSLITERATIONS: the alternatives of its pattern, one character each, and the replacement. */
  datatype Rule = Rule(sources: seq<SourceChar>, replacement: seq<Letter>)

  /**
   * TRANSLITERATIONS, in the order preg_replace applies the entries
   * (Inflector.php:37-93), declared in six parts so that each part's
   * entries are checked against their types on their own.
   */
  const Rules: seq<Rule> :=
    CapitalsAToIJ + CapitalsJToTH + CapitalsUToZ + SmallAToIJ + SmallJToTH + SmallUToZ

  const CapitalsAToIJ: seq<Rule> := [
    Rule("ÀÁÂÃÅǺĀĂĄǍ", "A"),
    Rule("ÆǼ", "AE"),
    Rule("Ä", "Ae"),
    Rule("ÇĆĈĊČ", "C"),
    Rule("ÐĎĐ", "D"),
    Rule("ÈÉÊËĒĔĖĘĚ", "E"),
    Rule("ĜĞĠĢҐ", "G"),
    Rule("ĤĦ", "H"),
    Rule("ÌÍÎÏĨĪĬǏĮİІ", "I"),
    Rule("Ĳ", "IJ")
  ]

  const CapitalsJToTH: seq<Rule> := [
    Rule("Ĵ", "J"),
    Rule("Ķ", "K"),
    Rule("ĹĻĽĿŁ", "L"),
    Rule("ÑŃŅŇ", "N"),
    Rule("ÒÓÔÕŌŎǑŐƠØǾ", "O"),
    Rule("Œ", "OE"),
    Rule("Ö", "Oe"),
    Rule("ŔŖŘ", "R"),
    Rule("ŚŜŞȘŠ", "S"),
    Rule("ẞ", "SS"),
    Rule("ŢȚŤŦ", "T"),
    Rule("Þ", "TH")
  ]

  const CapitalsUToZ: seq<Rule> := [
    Rule("ÙÚÛŨŪŬŮŰŲƯǓǕǗǙǛ", "U"),
    Rule("Ü", "Ue"),
    Rule("Ŵ", "W"),
    Rule("ÝŸŶ", "Y"),
    Rule("Є", "Ye"),
    Rule("Ї", "Yi"),
    Rule("ŹŻŽ", "Z")
  ]

  const SmallAToIJ: seq<Rule> := [
    Rule("àáâãåǻāăąǎª", "a"),
    Rule("äæǽ", "ae"),
    Rule("çćĉċč", "c"),
    Rule("ðďđ", "d"),
    Rule("èéêëēĕėęě", "e"),
    Rule("ƒ", "f"),
    Rule("ĝğġģґ", "g"),
    Rule("ĥħ", "h"),
    Rule("ìíîïĩīĭǐįıі", "i"),
    Rule("ĳ", "ij")
  ]

  const SmallJToTH: seq<Rule> := [
    Rule("ĵ", "j"),
    Rule("ķ", "k"),
    Rule("ĺļľŀł", "l"),
    Rule("ñńņňŉ", "n"),
    Rule("òóôõōŏǒőơøǿº", "o"),
    Rule("öœ", "oe"),
    Rule("ŕŗř", "r"),
    Rule("śŝşșšſ", "s"),
    Rule("ß", "ss"),
    Rule("ţțťŧ", "t"),
    Rule("þ", "th")
  ]

  const SmallUToZ: seq<Rule> := [
    Rule("ùúûũūŭůűųưǔǖǘǚǜ", "u"),
    Rule("ü", "ue"),
    Rule("ŵ", "w"),
    Rule("ýÿŷ", "y"),
    Rule("є", "ye"),
    Rule("ї", "yi"),
    Rule("źżž", "z")
  ]

  /** One preg_replace: every character of r.sources becomes r.replacement. */
  function ApplyRule(r: Rule, s: string): string
  {
    if s == [] then []
    else (if s[0] in r.sources then r.replacement else [s[0]]) + ApplyRule(r, s[1..])
  }

  /** The rules applied one after the other, each to the previous one's output. */
  function ApplyRules(rules: seq<Rule>, s: string): string
  {
    if rules == [] then s else ApplyRules(rules[1..], ApplyRule(rules[0], s))
  }

  /** What the first rule that lists c makes of it; a character no rule lists stays. */
  function Lookup(rules: seq<Rule>, c: char): string
  {
    if rules == [] then [c]
    else if c in rules[0].sources then rules[0].replacement
    else Lookup(rules[1..], c)
  }

  /** Every character replaced by its Lookup, in one pass. */
  function MapLookup(rules: seq<Rule>, s: string): string
  {
    if s == [] then [] else Lookup(rules, s[0]) + MapLookup(rules, s[1..])
  }

  predicate IsSourceOf(rules: seq<Rule>, c: char) {
    exists i :: 0 <= i < |rules| && c in rules[i].sources
  }

  /** A character some rule of the table replaces. */
  predicate IsSourceChar(c: char) { IsSourceOf(Rules, c) }

  /** Every rule lists non-ASCII characters and replaces them by ASCII letters. */
  predicate WellFormed(rules: seq<Rule>) {
    forall i :: 0 <= i < |rules| ==>
      && (forall c :: c in rules[i].sources ==> !IsAscii(c))
      && (forall c :: c in rules[i].replacement ==> IsUpper(c) || IsLower(c))
  }

  lemma WellFormedTail(rules: seq<Rule>)
    requires WellFormed(rules) && rules != []
    ensures WellFormed(rules[1..])
  {
    forall i | 0 <= i < |rules[1..]| ensures rules[1..][i] == rules[i + 1] {}
  }

  /** The table is well formed: the types of its entries say so. */
  lemma TableWellFormed()
    ensures WellFormed(Rules)
  {
  }

  lemma {:induction false} MapLookupNoRules(s: string)
    ensures MapLookup([], s) == s
  {
    if s != [] {
      MapLookupNoRules(s[1..]);
      assert [s[0]] + s[1..] == s;
    }
  }

  lemma MapLookupConcat(rules: seq<Rule>, a: string, b: string)
    ensures MapLookup(rules, a + b) == MapLookup(rules, a) + MapLookup(rules, b)
  {
    if a == [] {
      assert a + b == b;
    } else {
      assert (a + b)[1..] == a[1..] + b;
      MapLookupConcat(rules, a[1..], b);
    }
  }

  /** An ASCII letter is no rule's source, so it stays. */
  lemma {:induction false} LookupLetter(rules: seq<Rule>, c: char)
    requires WellFormed(rules) && (IsUpper(c) || IsLower(c))
    ensures Lookup(rules, c) == [c]
  {
    if rules != [] {
      assert c !in rules[0].sources;
      WellFormedTail(rules);
      LookupLetter(rules[1..], c);
    }
  }

  lemma {:induction false} MapLookupLetters(rules: seq<Rule>, t: string)
    requires WellFormed(rules)
    requires forall i :: 0 <= i < |t| ==> IsUpper(t[i]) || IsLower(t[i])
    ensures MapLookup(rules, t) == t
  {
    if t != [] {
      LookupLetter(rules, t[0]);
      MapLookupLetters(rules, t[1..]);
      assert [t[0]] + t[1..] == t;
    }
  }

  /** The first rule's pass, then the lookup of the others, is the lookup of all. */
  lemma {:induction false} FirstRuleThenLookup(rules: seq<Rule>, s: string)
    requires WellFormed(rules) && rules != []
    ensures MapLookup(rules[1..], ApplyRule(rules[0], s)) == MapLookup(rules, s)
  {
    if s != [] {
      var r := rules[0];
      var piece := if s[0] in r.sources then r.replacement else [s[0]];
      MapLookupConcat(rules[1..], piece, ApplyRule(r, s[1..]));
      FirstRuleThenLookup(rules, s[1..]);
      if s[0] in r.sources {
        WellFormedTail(rules);
        MapLookupLetters(rules[1..], r.replacement);
      } else {
        assert MapLookup(rules[1..], piece) == Lookup(rules[1..], s[0]);
      }
    }
  }

  /**
   * Sequential application of well-formed rules is a single pass that
   * replaces each character by the replacement of the first rule listing it.
   */
  lemma {:induction false} ApplyRulesIsLookup(rules: seq<Rule>, s: string)
    requires WellFormed(rules)
    ensures ApplyRules(rules, s) == MapLookup(rules, s)
    decreases |rules|
  {
    if rules == [] {
      MapLookupNoRules(s);
    } else {
      WellFormedTail(rules);
      ApplyRulesIsLookup(rules[1..], ApplyRule(rules[0], s));
      FirstRuleThenLookup(rules, s);
    }
  }

  /** A lookup gives the character back, when no rule lists it, or a text of ASCII letters. */
  lemma {:induction false} LookupShape(rules: seq<Rule>, c: char)
    requires WellFormed(rules)
    ensures || (Lookup(rules, c) == [c] && !IsSourceOf(rules, c))
            || (forall d :: d in Lookup(rules, c) ==> IsUpper(d) || IsLower(d))
  {
    if rules != [] && c !in rules[0].sources {
      WellFormedTail(rules);
      LookupShape(rules[1..], c);
      if IsSourceOf(rules, c) {
        var i :| 0 <= i < |rules| && c in rules[i].sources;
        assert c in rules[1..][i - 1].sources;
      }
    }
  }

  /** An ASCII letter is no rule's source. */
  lemma LetterIsNoSource(rules: seq<Rule>, d: char)
    requires WellFormed(rules) && (IsUpper(d) || IsLower(d))
    ensures !IsSourceOf(rules, d)
  {
  }

  /** What a lookup produces is no rule's source. */
  lemma LookupLeavesNoSource(rules: seq<Rule>, c: char)
    requires WellFormed(rules)
    ensures forall d :: d in Lookup(rules, c) ==> !IsSourceOf(rules, d)
  {
    LookupShape(rules, c);
    forall d | d in Lookup(rules, c) ensures !IsSourceOf(rules, d) {
      if IsUpper(d) || IsLower(d) { LetterIsNoSource(rules, d); }
    }
  }

  /** Every character MapLookup produces is one no rule replaces. */
  lemma {:induction false} MapLookupLeavesNoSource(rules: seq<Rule>, s: string)
    requires WellFormed(rules)
    ensures forall i :: 0 <= i < |MapLookup(rules, s)| ==> !IsSourceOf(rules, MapLookup(rules, s)[i])
  {
    if s != [] {
      LookupLeavesNoSource(rules, s[0]);
      MapLookupLeavesNoSource(rules, s[1..]);
      var r := MapLookup(rules, s);
      var head := Lookup(rules, s[0]);
      forall i | 0 <= i < |r| ensures !IsSourceOf(rules, r[i]) {
        if i < |head| {
          assert r[i] in head;
        } else {
          assert r[i] == MapLookup(rules, s[1..])[i - |head|];
        }
      }
    }
  }

  /** A text without any source character comes through MapLookup unchanged. */
  lemma {:induction false} MapLookupOfPlain(rules: seq<Rule>, s: string)
    ensures (forall i :: 0 <= i < |s| ==> !IsSourceOf(rules, s[i])) ==> MapLookup(rules, s) == s
  {
    if s != [] && forall i :: 0 <= i < |s| ==> !IsSourceOf(rules, s[i]) {
      LookupOfPlain(rules, s[0]);
      assert forall i :: 0 <= i < |s[1..]| ==> !IsSourceOf(rules, s[1..][i]) by {
        forall i | 0 <= i < |s[1..]| ensures !IsSourceOf(rules, s[1..][i]) {
          assert s[1..][i] == s[i + 1];
        }
      }
      MapLookupOfPlain(rules, s[1..]);
      assert [s[0]] + s[1..] == s;
    }
  }

  lemma {:induction false} LookupOfPlain(rules: seq<Rule>, c: char)
    requires !IsSourceOf(rules, c)
    ensures Lookup(rules, c) == [c]
  {
    if rules != [] {
      assert c !in rules[0].sources;
      LookupOfPlain(rules[1..], c);
    }
  }

  /**
   * The TRANSLITERATIONS passes of toSlug (Inflector.php:163, 169): each
   * table character becomes its replacement, no table character is left, and
   * a text without table characters is not changed.
   */
  function Transliterate(s: string): (r: string)
    ensures r == MapLookup(Rules, s)
    ensures forall i :: 0 <= i < |r| ==> !IsSourceChar(r[i])
    ensures (forall i :: 0 <= i < |s| ==> !IsSourceChar(s[i])) ==> r == s
  {
    TableWellFormed();
    ApplyRulesIsLookup(Rules, s);
    MapLookupLeavesNoSource(Rules, s);
    MapLookupOfPlain(Rules, s);
    ApplyRules(Rules, s)
  }
}
