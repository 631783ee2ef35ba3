/**
 * The case styles built on toArray (Inflector.php:287-363): every one of
 * them is the token list joined in some way, so each can be read back into
 * the same tokens.
 */
module Composer {
  import opened Chars
  import opened Tokenizer

  /** array_map('ucfirst', ts). */
  function MapUcFirst(ts: seq<string>): seq<string>
  {
    seq(|ts|, i requires 0 <= i < |ts| => UcFirst(ts[i]))
  }

  lemma MapUcFirstTail(ts: seq<string>)
    requires ts != []
    ensures MapUcFirst(ts) == [UcFirst(ts[0])] + MapUcFirst(ts[1..])
  {
    assert MapUcFirst(ts)[1..] == MapUcFirst(ts[1..]);
  }

  /** Read from the start of a piece, a capitalised token is the same token. */
  lemma SplitFromUcFirst(t: string, rest: string)
    requires IsToken(t)
    ensures SplitFrom(UcFirst(t) + rest, "") == SplitFrom(rest, t)
  {
    if IsLower(t[0]) {
      SplitFromUcFirstLower(t, rest, "");
    } else {
      UcFirstOfOther(t);
      SplitThroughWord(t, rest, "");
      assert "" + t == t;
    }
  }

  /** After a piece w, a token starting with a lower-case letter starts a new piece once capitalised. */
  lemma SplitFromUcFirstAfter(t: string, rest: string, w: string)
    requires IsToken(t) && IsLower(t[0]) && w != []
    ensures SplitFrom(UcFirst(t) + rest, w) == [w] + SplitFrom(rest, t)
  {
    SplitFromUcFirstLower(t, rest, w);
  }

  lemma SplitFromUcFirstLower(t: string, rest: string, w: string)
    requires IsToken(t) && IsLower(t[0])
    ensures SplitFrom(UcFirst(t) + rest, w) == Flush(w) + SplitFrom(rest, t)
  {
    UcFirstSplit(t, rest);
    SplitFromCapital(ToUpper(t[0]), t[1..] + rest, w);
    SplitThroughWord(t[1..], rest, [t[0]]);
  }

  lemma UcFirstSplit(t: string, rest: string)
    requires t != [] && IsLower(t[0])
    ensures UcFirst(t) + rest == [ToUpper(t[0])] + (t[1..] + rest)
    ensures IsUpper(ToUpper(t[0])) && ToLower(ToUpper(t[0])) == t[0] && [t[0]] + t[1..] == t
  {
  }

  lemma UcFirstOfOther(t: string)
    requires t != [] && !IsLower(t[0])
    ensures UcFirst(t) == t
  {
    assert [t[0]] + t[1..] == t;
  }

  /** A capital ends the piece being read and starts the next one. */
  lemma SplitFromCapital(c: char, tail: string, w: string)
    requires IsUpper(c)
    ensures SplitFrom([c] + tail, w) == Flush(w) + SplitFrom(tail, [ToLower(c)])
  {
    assert ([c] + tail)[0] == c && ([c] + tail)[1..] == tail;
  }

  /** Capitalised tokens joined by one separator split back into the tokens. */
  lemma {:induction false} SplitSpacedUpper(ts: seq<string>, sep: char)
    requires forall i :: 0 <= i < |ts| ==> IsToken(ts[i])
    requires IsSeparator(sep)
    ensures SplitWords(Join(MapUcFirst(ts), [sep])) == ts
  {
    if ts != [] {
      MapUcFirstTail(ts);
      if |ts| == 1 {
        SplitFromUcFirst(ts[0], "");
        assert UcFirst(ts[0]) + "" == UcFirst(ts[0]);
      } else {
        var rest := Join(MapUcFirst(ts[1..]), [sep]);
        assert Join(MapUcFirst(ts), [sep]) == UcFirst(ts[0]) + ([sep] + rest);
        SplitFromUcFirst(ts[0], [sep] + rest);
        assert ([sep] + rest)[1..] == rest;
        SplitSpacedUpper(ts[1..], sep);
      }
    }
  }

  /** Capitalised tokens that start with lower-case letters, run together after a piece w, split back. */
  lemma {:induction false} SplitCamelAfter(ts: seq<string>, w: string)
    requires forall i :: 0 <= i < |ts| ==> IsToken(ts[i]) && IsLower(ts[i][0])
    requires w != []
    ensures SplitFrom(Concat(MapUcFirst(ts)), w) == [w] + ts
  {
    if ts != [] {
      MapUcFirstTail(ts);
      SplitFromUcFirstAfter(ts[0], Concat(MapUcFirst(ts[1..])), w);
      SplitCamelAfter(ts[1..], ts[0]);
      assert [ts[0]] + ts[1..] == ts;
    }
  }

  /** Lower-casing a capitalised token gives the token back. */
  lemma LowerUcFirst(t: string)
    requires IsToken(t)
    ensures LowerStr(UcFirst(t)) == t
  {
    LowerStrOfLower(t[1..]);
    assert t[1..] == t[1..];
    LowerStrConcat([ToUpper(t[0])], t[1..]);
    assert [t[0]] + t[1..] == t;
  }

  lemma {:induction false} LowerCamel(ts: seq<string>)
    requires forall i :: 0 <= i < |ts| ==> IsToken(ts[i])
    ensures LowerStr(Concat(MapUcFirst(ts))) == Concat(ts)
  {
    if ts != [] {
      MapUcFirstTail(ts);
      LowerStrConcat(UcFirst(ts[0]), Concat(MapUcFirst(ts[1..])));
      LowerUcFirst(ts[0]);
      LowerCamel(ts[1..]);
    }
  }

  lemma {:induction false} LowerSpaced(ts: seq<string>)
    requires forall i :: 0 <= i < |ts| ==> IsToken(ts[i])
    ensures LowerStr(Join(MapUcFirst(ts), " ")) == Join(ts, " ")
  {
    if ts != [] {
      MapUcFirstTail(ts);
      LowerUcFirst(ts[0]);
      if |ts| > 1 {
        LowerSpaced(ts[1..]);
        LowerStrConcat(UcFirst(ts[0]) + " ", Join(MapUcFirst(ts[1..]), " "));
        LowerStrConcat(UcFirst(ts[0]), " ");
      }
    }
  }

  /** Tokens joined by a separator hold no capital. */
  lemma {:induction false} JoinNoUpper(ts: seq<string>, sep: char)
    requires forall i :: 0 <= i < |ts| ==> IsToken(ts[i])
    requires !IsUpper(sep)
    ensures NoUpper(Join(ts, [sep]))
  {
    if |ts| > 1 {
      JoinNoUpper(ts[1..], sep);
      var r := Join(ts[1..], [sep]);
      forall i | 0 <= i < |ts[0] + [sep] + r| ensures !IsUpper((ts[0] + [sep] + r)[i]) {
        if i < |ts[0]| {
        } else if i > |ts[0]| {
          assert (ts[0] + [sep] + r)[i] == r[i - |ts[0]| - 1];
        }
      }
    }
  }

  /**
   * Inflector::toSpacedUpper: the tokens, each with its first letter
   * upper-cased, joined by spaces.  Lower-cased it is the tokens joined by
   * spaces, and dumb mode splits it back into the tokens.
   */
  function ToSpacedUpper(s: string, intelligentSplitting: bool): (r: string)
    ensures CapitalisedWords(r, Join(ToArray(s, intelligentSplitting), " "))
    ensures LowerStr(r) == Join(ToArray(s, intelligentSplitting), " ")
    ensures ToArray(r, false) == ToArray(s, intelligentSplitting)
  {
    var ts := ToArray(s, intelligentSplitting);
    LowerSpaced(ts);
    SplitSpacedUpper(ts, ' ');
    SpacedCapitalised(ts);
    Join(MapUcFirst(ts), " ")
  }

  /**
   * r is j with the first character of every word upper-cased: the
   * character at the start and every character after a space.
   */
  predicate CapitalisedWords(r: string, j: string) {
    |r| == |j| && forall i :: 0 <= i < |j| ==> r[i] == CapitalisedAt(j, i)
  }

  /** The character at i of j, upper-cased when it starts a word. */
  function CapitalisedAt(j: string, i: nat): char
    requires i < |j|
  {
    if i == 0 || j[i - 1] == ' ' then ToUpper(j[i]) else j[i]
  }

  /** ucfirst of a token capitalises its only word. */
  lemma CapitalisedToken(t: string)
    requires IsToken(t)
    ensures CapitalisedWords(UcFirst(t), t)
  {
    var u := UcFirst(t);
    forall i | 0 <= i < |t| ensures u[i] == CapitalisedAt(t, i) {
      if i > 0 {
        assert !IsSeparator(t[i - 1]);
        assert u[i] == t[i];
      }
    }
  }

  /** A space after capitalised text continues it. */
  lemma CapitalisedSpace(r: string, j: string)
    requires CapitalisedWords(r, j)
    ensures CapitalisedWords(r + " ", j + " ")
  {
    var r', j' := r + " ", j + " ";
    forall i | 0 <= i < |j'| ensures r'[i] == CapitalisedAt(j', i) {
      if i < |j| {
        assert r'[i] == r[i] && j'[i] == j[i];
        assert i > 0 ==> j'[i - 1] == j[i - 1];
              } else {
        assert r'[i] == ' ' == j'[i] == ToUpper(' ');
      }
    }
  }

  /** Capitalised text that ends in a space, then capitalised text, is capitalised. */
  lemma CapitalisedConcat(r1: string, j1: string, r2: string, j2: string)
    requires CapitalisedWords(r1, j1) && CapitalisedWords(r2, j2)
    requires j1 == [] || j1[|j1| - 1] == ' '
    ensures CapitalisedWords(r1 + r2, j1 + j2)
  {
    var r, j := r1 + r2, j1 + j2;
    forall i | 0 <= i < |j| ensures r[i] == CapitalisedAt(j, i) {
      if i < |j1| {
        assert r[i] == r1[i] && j[i] == j1[i];
        assert i > 0 ==> j[i - 1] == j1[i - 1];
      } else {
        var k := i - |j1|;
        assert r[i] == r2[k] && j[i] == j2[k];
        assert k > 0 ==> j[i - 1] == j2[k - 1];
        assert k == 0 && i > 0 ==> j[i - 1] == j1[|j1| - 1] == ' ';
        assert r2[k] == CapitalisedAt(j2, k);
      }
    }
  }

  /** Capitalised tokens joined by spaces are the tokens joined by spaces with every word capitalised. */
  lemma {:induction false} SpacedCapitalised(ts: seq<string>)
    requires forall i :: 0 <= i < |ts| ==> IsToken(ts[i])
    ensures CapitalisedWords(Join(MapUcFirst(ts), " "), Join(ts, " "))
  {
    if ts != [] {
      MapUcFirstTail(ts);
      CapitalisedToken(ts[0]);
      if |ts| > 1 {
        SpacedCapitalised(ts[1..]);
        CapitalisedSpace(UcFirst(ts[0]), ts[0]);
        CapitalisedConcat(UcFirst(ts[0]) + " ", ts[0] + " ", Join(MapUcFirst(ts[1..]), " "), Join(ts[1..], " "));
      }
    }
  }

  /** Inflector::toHuman, an alias of toSpacedUpper. */
  function ToHuman(s: string, intelligentSplitting: bool): (r: string)
    ensures r == ToSpacedUpper(s, intelligentSplitting)
    ensures CapitalisedWords(r, Join(ToArray(s, intelligentSplitting), " "))
    ensures ToArray(r, false) == ToArray(s, intelligentSplitting)
  {
    ToSpacedUpper(s, intelligentSplitting)
  }

  /** Every token but the first starts with a lower-case ASCII letter, so its capital marks where it starts. */
  predicate CamelReadable(ts: seq<string>) {
    forall i :: 1 <= i < |ts| ==> ts[i] != [] && IsLower(ts[i][0])
  }

  /**
   * Inflector::toCamelCase: the capitalised tokens run together.  Lower-cased
   * it spells the input's kept letters; dumb mode splits it back into the
   * tokens whenever each token after the first starts with a letter.
   */
  function ToCamelCase(s: string, intelligentSplitting: bool): (r: string)
    ensures var ts := ToArray(s, intelligentSplitting);
      ts != [] ==> r == UcFirst(ts[0]) + Concat(MapUcFirst(ts[1..]))
    ensures LowerStr(r) == Letters(s)
    ensures CamelReadable(ToArray(s, intelligentSplitting)) ==> ToArray(r, false) == ToArray(s, intelligentSplitting)
  {
    var ts := ToArray(s, intelligentSplitting);
    LowerCamel(ts);
    CamelSplitsBack(ts);
    if ts != [] then MapUcFirstTail(ts); Concat(MapUcFirst(ts)) else Concat(MapUcFirst(ts))
  }

  lemma CamelSplitsBack(ts: seq<string>)
    requires forall i :: 0 <= i < |ts| ==> IsToken(ts[i])
    ensures CamelReadable(ts) ==> SplitWords(Concat(MapUcFirst(ts))) == ts
  {
    if ts != [] && CamelReadable(ts) {
      MapUcFirstTail(ts);
      SplitFromUcFirst(ts[0], Concat(MapUcFirst(ts[1..])));
      SplitCamelAfter(ts[1..], ts[0]);
      assert [ts[0]] + ts[1..] == ts;
    }
  }

  /**
   * Inflector::toCamelBack: toCamelCase with its first character lower-cased,
   * so the first token appears as it is and the rest capitalised.
   */
  function ToCamelBack(s: string, intelligentSplitting: bool): (r: string)
    ensures UcFirst(r) == ToCamelCase(s, intelligentSplitting)
    ensures var ts := ToArray(s, intelligentSplitting);
      ts != [] ==> r == ts[0] + Concat(MapUcFirst(ts[1..]))
    ensures LowerStr(r) == Letters(s)
    ensures CamelReadable(ToArray(s, intelligentSplitting)) ==> ToArray(r, false) == ToArray(s, intelligentSplitting)
  {
    var ts := ToArray(s, intelligentSplitting);
    CamelBackShape(ts);
    if ts != [] && CamelReadable(ts) then
      CamelBackSplitsBack(ts);
      LcFirst(ToCamelCase(s, intelligentSplitting))
    else
    LcFirst(ToCamelCase(s, intelligentSplitting))
  }

  /** lcfirst undoes the ucfirst of the first token and changes neither the capitals nor the lower-case text. */
  lemma CamelBackShape(ts: seq<string>)
    requires forall i :: 0 <= i < |ts| ==> IsToken(ts[i])
    ensures var camel := Concat(MapUcFirst(ts));
      && UcFirst(LcFirst(camel)) == camel
      && LowerStr(LcFirst(camel)) == LowerStr(camel)
      && (ts != [] ==> LcFirst(camel) == ts[0] + Concat(MapUcFirst(ts[1..])))
  {
    var camel := Concat(MapUcFirst(ts));
    if ts != [] {
      var t := ts[0];
      var u := UcFirst(t);
      var rest := Concat(MapUcFirst(ts[1..]));
      MapUcFirstTail(ts);
      assert camel == u + rest;
      UcFirstOfToken(t);
      LcFirstConcat(u, rest);
      UcFirstOfLcFirst(camel);
      LowerStrOfLcFirst(camel);
    }
  }

  /** A token starts with no capital, so lcfirst undoes its ucfirst. */
  lemma UcFirstOfToken(t: string)
    requires IsToken(t)
    ensures var u := UcFirst(t);
      u != [] && LcFirst(u) == t && ToUpper(ToLower(u[0])) == u[0]
  {
    assert [t[0]] + t[1..] == t;
  }

  lemma LcFirstConcat(u: string, rest: string)
    requires u != []
    ensures LcFirst(u + rest) == LcFirst(u) + rest && (u + rest)[0] == u[0]
  {
    assert (u + rest)[1..] == u[1..] + rest;
  }

  lemma UcFirstOfLcFirst(s: string)
    requires s != [] && ToUpper(ToLower(s[0])) == s[0]
    ensures UcFirst(LcFirst(s)) == s
  {
    assert [s[0]] + s[1..] == s;
  }

  lemma LowerStrOfLcFirst(s: string)
    ensures LowerStr(LcFirst(s)) == LowerStr(s)
  {
    if s != [] {
      LowerStrConcat([ToLower(s[0])], s[1..]);
      LowerStrConcat([s[0]], s[1..]);
      assert [s[0]] + s[1..] == s;
    }
  }

  /** The first token as it is, then the rest capitalised: dumb mode splits it back. */
  lemma CamelBackSplitsBack(ts: seq<string>)
    requires forall i :: 0 <= i < |ts| ==> IsToken(ts[i])
    requires ts != [] && CamelReadable(ts)
    ensures SplitWords(ts[0] + Concat(MapUcFirst(ts[1..]))) == ts
  {
    SplitThroughWord(ts[0], Concat(MapUcFirst(ts[1..])), "");
    assert "" + ts[0] == ts[0];
    SplitCamelAfter(ts[1..], ts[0]);
    assert [ts[0]] + ts[1..] == ts;
  }

  /**
   * Every separator character of r is sep, and it stands alone between two
   * characters that are not separators.
   */
  predicate SingleSeparated(r: string, sep: char) {
    forall i :: 0 <= i < |r| && IsSeparator(r[i]) ==>
      r[i] == sep && 0 < i < |r| - 1 && !IsSeparator(r[i - 1]) && !IsSeparator(r[i + 1])
  }

  /** Tokens joined by one separator character: that separator alone between every two tokens. */
  lemma {:induction false} JoinSingleSeparated(ts: seq<string>, sep: char)
    requires forall i :: 0 <= i < |ts| ==> IsToken(ts[i])
    requires IsSeparator(sep)
    ensures SingleSeparated(Join(ts, [sep]), sep)
  {
    if |ts| == 1 {
      assert Join(ts, [sep]) == ts[0];
    } else if |ts| > 1 {
      var t, rest := ts[0], Join(ts[1..], [sep]);
      JoinSingleSeparated(ts[1..], sep);
      JoinStartsWithToken(ts[1..], sep);
      SeparatedConcat(t, sep, rest);
    }
  }

  /** A join of tokens starts with the first token's first character. */
  lemma JoinStartsWithToken(ts: seq<string>, sep: char)
    requires ts != [] && IsToken(ts[0])
    ensures var j := Join(ts, [sep]); j != [] && j[0] == ts[0][0]
  {
  }

  lemma SeparatedConcat(t: string, sep: char, rest: string)
    requires IsToken(t) && IsSeparator(sep) && SingleSeparated(rest, sep)
    requires rest != [] && !IsSeparator(rest[0])
    ensures SingleSeparated(t + [sep] + rest, sep)
  {
    var r := t + [sep] + rest;
    var n := |t|;
    assert forall i :: 0 <= i < n ==> r[i] == t[i];
    forall i | 0 <= i < |r| && IsSeparator(r[i])
      ensures r[i] == sep && 0 < i < |r| - 1 && !IsSeparator(r[i - 1]) && !IsSeparator(r[i + 1])
    {
      if i == n {
        assert r[i - 1] == t[n - 1] && r[i + 1] == rest[0];
      } else {
        var k := i - n - 1;
        assert r[i] == rest[k];
        assert k > 0 ==> r[i - 1] == rest[k - 1];
        assert k < |rest| - 1 ==> r[i + 1] == rest[k + 1];
      }
    }
  }

  /**
   * Inflector::toDashed: the tokens joined by '-'.  Both modes split it back
   * into the same tokens, and it holds no capital.
   */
  function ToDashed(s: string, intelligentSplitting: bool): (r: string)
    ensures SingleSeparated(r, '-')
    ensures NoUpper(r)
    ensures ToArray(r, false) == ToArray(s, intelligentSplitting)
    ensures ToArray(r, true) == ToArray(s, intelligentSplitting)
  {
    var ts := ToArray(s, intelligentSplitting);
    JoinNoUpper(ts, '-');
    JoinSingleSeparated(ts, '-');
    SplitJoined(ts, '-');
    ModesAgreeWithoutCapitals(Join(ts, "-"));
    Join(ts, "-")
  }

  /**
   * Inflector::toUnderscore: the tokens joined by '_'.  Both modes split it
   * back into the same tokens, and it holds no capital.
   */
  function ToUnderscore(s: string, intelligentSplitting: bool): (r: string)
    ensures SingleSeparated(r, '_')
    ensures NoUpper(r)
    ensures ToArray(r, false) == ToArray(s, intelligentSplitting)
    ensures ToArray(r, true) == ToArray(s, intelligentSplitting)
  {
    var ts := ToArray(s, intelligentSplitting);
    JoinNoUpper(ts, '_');
    JoinSingleSeparated(ts, '_');
    SplitJoined(ts, '_');
    ModesAgreeWithoutCapitals(Join(ts, "_"));
    Join(ts, "_")
  }

  /** Inflector::toDatabase, an alias of toUnderscore. */
  function ToDatabase(s: string, intelligentSplitting: bool): (r: string)
    ensures r == ToUnderscore(s, intelligentSplitting)
    ensures SingleSeparated(r, '_') && NoUpper(r)
    ensures ToArray(r, false) == ToArray(s, intelligentSplitting)
    ensures ToArray(r, true) == ToArray(s, intelligentSplitting)
  {
    ToUnderscore(s, intelligentSplitting)
  }

  /** Converting twice changes nothing: the dashed and underscored forms are fixed points. */
  lemma DashedIdempotent(s: string, intelligentSplitting: bool, again: bool)
    ensures ToDashed(ToDashed(s, intelligentSplitting), again) == ToDashed(s, intelligentSplitting)
    ensures ToUnderscore(ToUnderscore(s, intelligentSplitting), again) == ToUnderscore(s, intelligentSplitting)
  {
  }
}
