/**
 * toComparable (Inflector.php:456-471): the words of toFile's result are
 * tallied in order of first occurrence (array_count_values), optionally
 * suffixed with their count (array_walk), sorted and joined with spaces.
 * Words are compared the way strcmp compares their UTF-8 bytes, which is
 * the order of their character codes.
 */
module Comparable {
  import opened Chars
  import opened Tokenizer
  import opened Files

  // ---------------------------------------------------------------------
  // Decimal numerals, as PHP writes an integer into a string

  function DigitChar(d: nat): (c: char)
    requires d < 10
    ensures IsDigit(c)
  {
    ('0' as int + d) as char
  }

  function Decimal(n: nat): (r: string)
    ensures r != [] && forall i :: 0 <= i < |r| ==> IsDigit(r[i])
    ensures r[0] == '0' <==> n == 0
    decreases n
  {
    if n < 10 then [DigitChar(n)] else Decimal(n / 10) + [DigitChar(n % 10)]
  }

  /** The value of a string of decimal digits. */
  function DecimalValue(s: string): nat
    requires forall i :: 0 <= i < |s| ==> IsDigit(s[i])
  {
    if s == [] then 0
    else
      var d := s[|s| - 1];
      assert IsDigit(d);
      DecimalValue(s[..|s| - 1]) * 10 + (d as int - '0' as int)
  }

  /** A count written by Decimal reads back as the same count. */
  lemma {:induction false} DecimalRoundTrip(n: nat)
    ensures DecimalValue(Decimal(n)) == n
    decreases n
  {
    if n >= 10 {
      DecimalRoundTrip(n / 10);
      var d := Decimal(n);
      assert d[..|d| - 1] == Decimal(n / 10);
    }
  }

  // ---------------------------------------------------------------------
  // The order of sort(): strcmp on the bytes

  /** a sorts before b or equals it: lexicographic by character code, a prefix first. */
  predicate LessOrEqual(a: string, b: string)
  {
    a == [] || (b != [] && (a[0] < b[0] || (a[0] == b[0] && LessOrEqual(a[1..], b[1..]))))
  }

  lemma {:induction false} LessOrEqualTotal(a: string, b: string)
    ensures LessOrEqual(a, b) || LessOrEqual(b, a)
  {
    if a != [] && b != [] && a[0] == b[0] {
      LessOrEqualTotal(a[1..], b[1..]);
    }
  }

  lemma {:induction false} LessOrEqualAntisymmetric(a: string, b: string)
    requires LessOrEqual(a, b) && LessOrEqual(b, a)
    ensures a == b
  {
    if a != [] && b != [] {
      LessOrEqualAntisymmetric(a[1..], b[1..]);
      assert a == [a[0]] + a[1..] && b == [b[0]] + b[1..];
    }
  }

  lemma {:induction false} LessOrEqualTransitive(a: string, b: string, c: string)
    requires LessOrEqual(a, b) && LessOrEqual(b, c)
    ensures LessOrEqual(a, c)
  {
    if a != [] && b != [] && c != [] && a[0] == b[0] && b[0] == c[0] {
      LessOrEqualTransitive(a[1..], b[1..], c[1..]);
    }
  }

  /** Each word sorts no later than the next one. */
  predicate Sorted(s: seq<string>) {
    forall k :: 0 < k < |s| ==> LessOrEqual(s[k - 1], s[k])
  }

  /** The first word of a sorted list sorts no later than any of its words. */
  lemma {:induction false} SortedHeadIsLeast(s: seq<string>, x: string)
    requires Sorted(s) && x in s
    ensures LessOrEqual(s[0], x)
  {
    if s[0] == x {
      LessOrEqualReflexive(x);
    } else {
      assert x in s[1..];
      assert Sorted(s[1..]) by {
        forall k | 0 < k < |s[1..]| ensures LessOrEqual(s[1..][k - 1], s[1..][k]) {
          assert s[1..][k - 1] == s[k] && s[1..][k] == s[k + 1];
        }
      }
      SortedHeadIsLeast(s[1..], x);
      LessOrEqualTransitive(s[0], s[1], x);
    }
  }

  lemma {:induction false} LessOrEqualReflexive(a: string)
    ensures LessOrEqual(a, a)
  {
    if a != [] {
      LessOrEqualReflexive(a[1..]);
    }
  }

  lemma SortedTail(s: seq<string>)
    requires Sorted(s) && s != []
    ensures Sorted(s[1..])
  {
    forall k | 0 < k < |s[1..]| ensures LessOrEqual(s[1..][k - 1], s[1..][k]) {
      assert s[1..][k - 1] == s[k] && s[1..][k] == s[k + 1];
    }
  }

  /** A list has one sorted arrangement only. */
  lemma {:induction false} SortedUnique(a: seq<string>, b: seq<string>)
    requires Sorted(a) && Sorted(b) && multiset(a) == multiset(b)
    ensures a == b
    decreases |a|
  {
    if a != [] {
      assert |b| == |a| by { assert |multiset(a)| == |multiset(b)|; }
      assert a[0] in multiset(b) && b[0] in multiset(a);
      SortedHeadIsLeast(a, b[0]);
      SortedHeadIsLeast(b, a[0]);
      LessOrEqualAntisymmetric(a[0], b[0]);
      assert a == [a[0]] + a[1..] && b == [b[0]] + b[1..];
      assert multiset(a) == multiset{a[0]} + multiset(a[1..]);
      assert multiset(b) == multiset{b[0]} + multiset(b[1..]);
      assert a[0] == b[0];
      forall x ensures multiset(a[1..])[x] == multiset(b[1..])[x] {
        assert multiset(a)[x] == multiset{a[0]}[x] + multiset(a[1..])[x];
        assert multiset(b)[x] == multiset{b[0]}[x] + multiset(b[1..])[x];
      }
      assert multiset(a[1..]) == multiset(b[1..]);
      SortedTail(a);
      SortedTail(b);
      SortedUnique(a[1..], b[1..]);
    } else {
      assert |multiset(b)| == 0;
    }
  }

  /** x inserted before the first word it does not sort after. */
  function Insert(x: string, s: seq<string>): seq<string>
  {
    if s == [] then [x]
    else if LessOrEqual(x, s[0]) then [x] + s
    else [s[0]] + Insert(x, s[1..])
  }

  lemma {:induction false} InsertMultiset(x: string, s: seq<string>)
    ensures multiset(Insert(x, s)) == multiset(s) + multiset{x}
  {
    if s != [] && !LessOrEqual(x, s[0]) {
      InsertMultiset(x, s[1..]);
      assert s == [s[0]] + s[1..];
    }
  }

  lemma InsertHead(x: string, s: seq<string>)
    ensures Insert(x, s) != [] && (Insert(x, s)[0] == x || (s != [] && Insert(x, s)[0] == s[0]))
  {
  }

  lemma {:induction false} InsertSorted(x: string, s: seq<string>)
    requires Sorted(s)
    ensures Sorted(Insert(x, s))
  {
    if s != [] && !LessOrEqual(x, s[0]) {
      var t := Insert(x, s[1..]);
      SortedTail(s);
      InsertSorted(x, s[1..]);
      InsertHead(x, s[1..]);
      LessOrEqualTotal(x, s[0]);
      var r := [s[0]] + t;
      assert LessOrEqual(r[0], r[1]);
      forall k | 1 < k < |r| ensures LessOrEqual(r[k - 1], r[k]) {
        assert r[k - 1] == t[k - 2] && r[k] == t[k - 1];
      }
    }
  }

  /** sort(): the words in ascending order, each as often as in the input. */
  function SortStrings(s: seq<string>): (r: seq<string>)
    ensures Sorted(r) && multiset(r) == multiset(s)
  {
    if s == [] then []
    else
      InsertSorted(s[0], SortStrings(s[1..]));
      InsertMultiset(s[0], SortStrings(s[1..]));
      assert s == [s[0]] + s[1..];
      Insert(s[0], SortStrings(s[1..]))
  }

  // ---------------------------------------------------------------------
  // array_count_values

  /** How often w occurs in ws. */
  function Count(ws: seq<string>, w: string): nat
  {
    if ws == [] then 0 else Count(ws[..|ws| - 1], w) + (if ws[|ws| - 1] == w then 1 else 0)
  }

  lemma CountSnoc(ws: seq<string>, x: string, w: string)
    ensures Count(ws + [x], w) == Count(ws, w) + (if x == w then 1 else 0)
  {
    assert (ws + [x])[..|ws|] == ws;
  }

  /** The distinct words of ws in order of first occurrence. */
  function Distinct(ws: seq<string>): seq<string>
  {
    if ws == [] then []
    else
      var d := Distinct(ws[..|ws| - 1]);
      if ws[|ws| - 1] in d then d else d + [ws[|ws| - 1]]
  }

  predicate NoDuplicates(s: seq<string>) {
    forall i, j :: 0 <= i < j < |s| ==> s[i] != s[j]
  }

  lemma {:induction false} CountIsMultiplicity(ws: seq<string>, w: string)
    ensures Count(ws, w) == multiset(ws)[w]
  {
    if ws != [] {
      CountIsMultiplicity(ws[..|ws| - 1], w);
      assert ws == ws[..|ws| - 1] + [ws[|ws| - 1]];
    }
  }

  /** Distinct lists every word of ws once. */
  lemma {:induction false} DistinctWords(ws: seq<string>)
    ensures NoDuplicates(Distinct(ws))
    ensures forall w :: w in Distinct(ws) <==> w in ws
  {
    if ws != [] {
      var init := ws[..|ws| - 1];
      DistinctWords(init);
      assert ws == init + [ws[|ws| - 1]];
    }
  }

  /** One value of the tally after array_walk, or its key when counts are not wanted. */
  function Entry(ws: seq<string>, w: string, withCounts: bool): string
  {
    if withCounts then w + Decimal(Count(ws, w)) else w
  }

  /** The entries for the words d, counted in ws. */
  function EntryList(ws: seq<string>, d: seq<string>, withCounts: bool): (r: seq<string>)
    ensures |r| == |d| && forall j :: 0 <= j < |d| ==> r[j] == Entry(ws, d[j], withCounts)
  {
    if d == [] then [] else [Entry(ws, d[0], withCounts)] + EntryList(ws, d[1..], withCounts)
  }

  /** The values of the tally, or its keys, in order of first occurrence. */
  function Entries(ws: seq<string>, withCounts: bool): seq<string>
  {
    EntryList(ws, Distinct(ws), withCounts)
  }

  /** What toComparable returns for the words toArray found. */
  function ComparableOfWords(ws: seq<string>, withCounts: bool): string
  {
    Join(SortStrings(Entries(ws, withCounts)), " ")
  }

  /** array_count_values: the distinct words in order of first occurrence, and how often each occurs. */
  method CountValues(words: seq<string>) returns (keys: seq<string>, counts: map<string, nat>)
    ensures keys == Distinct(words)
    ensures forall w :: w in counts <==> w in words
    ensures forall w :: w in counts ==> counts[w] == Count(words, w)
  {
    keys := [];
    counts := map[];
    for i := 0 to |words|
      invariant keys == Distinct(words[..i])
      invariant forall w :: w in counts <==> w in words[..i]
      invariant forall w :: w in counts ==> counts[w] == Count(words[..i], w)
    {
      var w := words[i];
      TallyStep(words, i);
      if w in counts {
        counts := counts[w := counts[w] + 1];
      } else {
        keys := keys + [w];
        counts := counts[w := 1];
      }
    }
    assert words[..|words|] == words;
  }

  /** Reading one more word: its count goes up by one, and it joins the distinct words when it is new. */
  lemma TallyStep(ws: seq<string>, i: nat)
    requires i < |ws|
    ensures var pre, w := ws[..i], ws[i];
      && Distinct(ws[..i + 1]) == (if w in pre then Distinct(pre) else Distinct(pre) + [w])
      && (forall v :: v in ws[..i + 1] <==> v in pre || v == w)
      && (forall v :: Count(ws[..i + 1], v) == Count(pre, v) + (if v == w then 1 else 0))
      && (w !in pre ==> Count(pre, w) == 0)
  {
    var pre, w := ws[..i], ws[i];
    assert ws[..i + 1][..i] == pre;
    assert ws[..i + 1] == pre + [w];
    DistinctWords(pre);
    forall v ensures Count(ws[..i + 1], v) == Count(pre, v) + (if v == w then 1 else 0) {
      CountSnoc(pre, w, v);
    }
    CountIsMultiplicity(pre, w);
  }

  /** sort(): in place, ascending. */
  method SortInPlace(a: array<string>)
    modifies a
    ensures Sorted(a[..]) && multiset(a[..]) == multiset(old(a[..]))
  {
    for i := 0 to a.Length
      invariant Sorted(a[..i])
      invariant multiset(a[..]) == multiset(old(a[..]))
    {
      InsertLast(a, i);
    }
    assert a[..a.Length] == a[..];
  }

  /** Moves a[i] down into the sorted run a[..i] by adjacent swaps. */
  method InsertLast(a: array<string>, i: nat)
    requires i < a.Length && Sorted(a[..i])
    modifies a
    ensures Sorted(a[..i + 1])
    ensures multiset(a[..]) == multiset(old(a[..]))
    ensures a[i + 1..] == old(a[i + 1..])
  {
    ghost var s := a[..];
    forall k | 0 < k < i ensures LessOrEqual(s[k - 1], s[k]) {
      assert a[..i][k - 1] == s[k - 1] && a[..i][k] == s[k];
    }
    var j := i;
    while j > 0 && !LessOrEqual(a[j - 1], a[j])
      invariant 0 <= j <= i
      invariant OrderedBut(a[..], i, j)
      invariant multiset(a[..]) == multiset(old(a[..]))
      invariant a[i + 1..] == old(a[i + 1..])
    {
      s := a[..];
      a[j - 1], a[j] := a[j], a[j - 1];
      assert a[..] == s[j - 1 := s[j]][j := s[j - 1]];
      SwapKeepsOrder(s, i, j);
      j := j - 1;
    }
    s := a[..i + 1];
    forall k | 0 < k < |s| ensures LessOrEqual(s[k - 1], s[k]) {
      assert s[k - 1] == a[k - 1] && s[k] == a[k];
    }
  }

  /**
   * Every adjacent pair of s[..i + 1] is in order except the one ending at j,
   * and the word before j sorts no later than the word after it.
   */
  predicate OrderedBut(s: seq<string>, i: nat, j: nat)
    requires i < |s|
  {
    (forall k :: 0 < k <= i && k != j ==> LessOrEqual(s[k - 1], s[k]))
    && (0 < j < i ==> LessOrEqual(s[j - 1], s[j + 1]))
  }

  /** Swapping the out-of-order pair ending at j moves the gap one place down. */
  lemma SwapKeepsOrder(s: seq<string>, i: nat, j: nat)
    requires 0 < j <= i < |s| && OrderedBut(s, i, j) && !LessOrEqual(s[j - 1], s[j])
    ensures OrderedBut(s[j - 1 := s[j]][j := s[j - 1]], i, j - 1)
  {
    LessOrEqualTotal(s[j - 1], s[j]);
    var t := s[j - 1 := s[j]][j := s[j - 1]];
    forall k | 0 < k <= i && k != j - 1 ensures LessOrEqual(t[k - 1], t[k]) {
      if k == j + 1 {
        assert t[k - 1] == s[j - 1] && t[k] == s[j + 1];
      } else if k != j {
        assert t[k - 1] == s[k - 1] && t[k] == s[k];
      }
    }
    if 0 < j - 1 {
      assert t[j - 2] == s[j - 2] && t[j] == s[j - 1];
    }
  }

  // ---------------------------------------------------------------------
  // toComparable

  /** The words toComparable tallies: toArray of toFile's result. */
  function Words(s: string): seq<string>
  {
    ToArray(FileName(s, false, FileExtensions), false)
  }

  /** toComparable($s, $withCounts). */
  function ComparableForm(s: string, withCounts: bool): string
  {
    ComparableOfWords(Words(s), withCounts)
  }

  method ToComparable(s: string, withCounts: bool) returns (r: string)
    ensures r == ComparableForm(s, withCounts)
  {
    var file := ToFile(s, false);
    var words := ToArray(file, false);
    var parts := SortedEntries(words, withCounts);
    r := Join(parts, " ");
  }

  /** The tally of the words, rewritten with or without counts, then sorted. */
  method SortedEntries(words: seq<string>, withCounts: bool) returns (r: seq<string>)
    ensures r == SortStrings(Entries(words, withCounts))
  {
    var keys, counts := CountValues(words);
    DistinctWords(words);
    // array_walk rewrites each count into its key followed by the count;
    // array_keys keeps only the keys.
    var parts := new string[|keys|];
    for j := 0 to |keys|
      invariant forall k :: 0 <= k < j ==> parts[k] == Entry(words, keys[k], withCounts)
    {
      if withCounts {
        parts[j] := keys[j] + Decimal(counts[keys[j]]);
      } else {
        parts[j] := keys[j];
      }
    }
    assert parts[..] == Entries(words, withCounts);
    ghost var entries := parts[..];
    SortInPlace(parts);
    SortedUnique(parts[..], SortStrings(entries));
    r := parts[..];
  }

  // ---------------------------------------------------------------------
  // Properties

  lemma EntryListConcat(ws: seq<string>, a: seq<string>, b: seq<string>, withCounts: bool)
    ensures EntryList(ws, a + b, withCounts) == EntryList(ws, a, withCounts) + EntryList(ws, b, withCounts)
  {
    var l, r := EntryList(ws, a + b, withCounts), EntryList(ws, a, withCounts) + EntryList(ws, b, withCounts);
    assert forall j :: 0 <= j < |l| ==> l[j] == r[j];
  }

  /** Taking one word out of d takes its entry out of the entries. */
  lemma EntryListRemove(ws: seq<string>, d: seq<string>, p: nat, withCounts: bool)
    requires p < |d|
    ensures multiset(EntryList(ws, d, withCounts))
      == multiset(EntryList(ws, d[..p] + d[p + 1..], withCounts)) + multiset{Entry(ws, d[p], withCounts)}
  {
    assert d == d[..p] + [d[p]] + d[p + 1..];
    EntryListConcat(ws, d[..p] + [d[p]], d[p + 1..], withCounts);
    EntryListConcat(ws, d[..p], [d[p]], withCounts);
    EntryListConcat(ws, d[..p], d[p + 1..], withCounts);
  }

  /** Taking one word out of d leaves the rest of its multiset. */
  lemma MultisetRemove(d: seq<string>, p: nat)
    requires p < |d|
    ensures multiset(d) == multiset(d[..p] + d[p + 1..]) + multiset{d[p]}
  {
    assert d == d[..p] + [d[p]] + d[p + 1..];
  }

  /** Rearranging the words rearranges their entries. */
  lemma {:induction false} EntryListPermutation(ws1: seq<string>, ws2: seq<string>, d1: seq<string>, d2: seq<string>, withCounts: bool)
    requires multiset(ws1) == multiset(ws2) && multiset(d1) == multiset(d2)
    ensures multiset(EntryList(ws1, d1, withCounts)) == multiset(EntryList(ws2, d2, withCounts))
    decreases |d1|
  {
    if d1 != [] {
      var x := d1[0];
      var p := IndexOf(d2, x);
      var rest := d2[..p] + d2[p + 1..];
      RemoveMatching(d1, d2, p);
      EntryListPermutation(ws1, ws2, d1[1..], rest, withCounts);
      EntryListRemoveFirst(ws1, d1, withCounts);
      EntryListRemove(ws2, d2, p, withCounts);
      SameEntry(ws1, ws2, x, withCounts);
    }
  }

  /** Taking the first word out of d takes the first entry out of the entries. */
  lemma EntryListRemoveFirst(ws: seq<string>, d: seq<string>, withCounts: bool)
    requires d != []
    ensures multiset(EntryList(ws, d, withCounts))
      == multiset(EntryList(ws, d[1..], withCounts)) + multiset{Entry(ws, d[0], withCounts)}
  {
  }

  /** Taking the same word out of two rearrangements leaves two rearrangements. */
  lemma RemoveMatching(d1: seq<string>, d2: seq<string>, p: nat)
    requires d1 != [] && p < |d2| && d2[p] == d1[0] && multiset(d1) == multiset(d2)
    ensures multiset(d1[1..]) == multiset(d2[..p] + d2[p + 1..])
  {
    MultisetRemove(d1, 0);
    MultisetRemove(d2, p);
    assert d1[..0] + d1[1..] == d1[1..];
    MultisetCancel(multiset(d1[1..]), multiset(d2[..p] + d2[p + 1..]), d1[0]);
  }

  /** A word's entry depends only on the multiset of the words it is counted in. */
  lemma SameEntry(ws1: seq<string>, ws2: seq<string>, w: string, withCounts: bool)
    requires multiset(ws1) == multiset(ws2)
    ensures Entry(ws1, w, withCounts) == Entry(ws2, w, withCounts)
  {
    CountIsMultiplicity(ws1, w);
    CountIsMultiplicity(ws2, w);
  }

  lemma IndexOf(d: seq<string>, x: string) returns (p: nat)
    requires x in multiset(d)
    ensures p < |d| && d[p] == x
  {
    assert x in d;
    p :| p < |d| && d[p] == x;
  }

  lemma MultisetCancel(a: multiset<string>, b: multiset<string>, x: string)
    requires a + multiset{x} == b + multiset{x}
    ensures a == b
  {
    forall y ensures a[y] == b[y] {
      assert (a + multiset{x})[y] == a[y] + multiset{x}[y];
      assert (b + multiset{x})[y] == b[y] + multiset{x}[y];
    }
  }

  /** A list without repeats holds each word at most once. */
  lemma {:induction false} NoDuplicatesMultiplicity(s: seq<string>, w: string)
    requires NoDuplicates(s)
    ensures multiset(s)[w] <= 1
  {
    if s != [] {
      assert s == [s[0]] + s[1..];
      NoDuplicatesMultiplicity(s[1..], w);
      if s[0] == w {
        assert w !in s[1..];
      }
    }
  }

  /** Two lists without repeats and with the same words hold the same multiset. */
  lemma SameWordsSameMultiset(a: seq<string>, b: seq<string>)
    requires NoDuplicates(a) && NoDuplicates(b)
    requires forall w :: w in a <==> w in b
    ensures multiset(a) == multiset(b)
  {
    forall w ensures multiset(a)[w] == multiset(b)[w] {
      NoDuplicatesMultiplicity(a, w);
      NoDuplicatesMultiplicity(b, w);
      assert w in a <==> w in multiset(a);
      assert w in b <==> w in multiset(b);
    }
  }

  /**
   * The order of the words does not matter: word lists that are
   * rearrangements of each other give the same comparable string.
   */
  lemma ComparableIgnoresOrder(ws1: seq<string>, ws2: seq<string>, withCounts: bool)
    requires multiset(ws1) == multiset(ws2)
    ensures ComparableOfWords(ws1, withCounts) == ComparableOfWords(ws2, withCounts)
  {
    DistinctWords(ws1);
    DistinctWords(ws2);
    forall w ensures w in Distinct(ws1) <==> w in Distinct(ws2) {
      assert w in ws1 <==> w in multiset(ws1);
      assert w in ws2 <==> w in multiset(ws2);
    }
    SameWordsSameMultiset(Distinct(ws1), Distinct(ws2));
    EntryListPermutation(ws1, ws2, Distinct(ws1), Distinct(ws2), withCounts);
    SortedUnique(SortStrings(Entries(ws1, withCounts)), SortStrings(Entries(ws2, withCounts)));
  }

  /** A list in which no word occurs twice in its multiset has no repeats. */
  lemma MultiplicityNoDuplicates(s: seq<string>)
    requires forall w :: multiset(s)[w] <= 1
    ensures NoDuplicates(s)
  {
    forall i, j | 0 <= i < j < |s| ensures s[i] != s[j] {
      assert s == s[..j] + [s[j]] + s[j + 1..];
      assert s[i] in s[..j];
      assert multiset(s)[s[j]] == multiset(s[..j])[s[j]] + 1 + multiset(s[j + 1..])[s[j]];
    }
  }

  /**
   * Without counts, toComparable lists every word once, in ascending order,
   * and nothing else.
   */
  lemma WordsListedOnce(ws: seq<string>)
    ensures var t := SortStrings(Entries(ws, false));
      ComparableOfWords(ws, false) == Join(t, " ")
      && Sorted(t) && NoDuplicates(t)
      && forall w :: w in t <==> w in ws
  {
    var d := Distinct(ws);
    var t := SortStrings(Entries(ws, false));
    assert Entries(ws, false) == d;
    DistinctWords(ws);
    forall w ensures multiset(t)[w] <= 1 {
      NoDuplicatesMultiplicity(d, w);
    }
    MultiplicityNoDuplicates(t);
    forall w ensures w in t <==> w in ws {
      assert w in t <==> w in multiset(t);
      assert w in d <==> w in multiset(d);
    }
  }

  /** The counted entries: one per distinct word, the word followed by how often it occurs. */
  lemma CountedEntries(ws: seq<string>)
    ensures var e := Entries(ws, true);
      |e| == |Distinct(ws)|
      && (forall w :: w in ws ==> w + Decimal(Count(ws, w)) in e)
      && (forall x :: x in e ==> exists w :: w in ws && Count(ws, w) > 0 && x == w + Decimal(Count(ws, w)))
  {
    var d := Distinct(ws);
    var e := Entries(ws, true);
    DistinctWords(ws);
    forall w | w in ws ensures w + Decimal(Count(ws, w)) in e {
      var j :| 0 <= j < |d| && d[j] == w;
      assert e[j] == w + Decimal(Count(ws, w));
    }
    forall x | x in e ensures exists w :: w in ws && Count(ws, w) > 0 && x == w + Decimal(Count(ws, w)) {
      var j :| 0 <= j < |e| && e[j] == x;
      var w := d[j];
      assert w in ws;
      CountIsMultiplicity(ws, w);
      assert w in multiset(ws);
      assert x == w + Decimal(Count(ws, w));
    }
  }

  /** Sorting keeps the words of a list. */
  lemma SortKeepsWords(s: seq<string>)
    ensures |SortStrings(s)| == |s|
    ensures forall x :: x in SortStrings(s) <==> x in s
  {
    var t := SortStrings(s);
    assert |multiset(t)| == |multiset(s)|;
    forall x ensures x in t <==> x in s {
      assert x in t <==> x in multiset(t);
      assert x in s <==> x in multiset(s);
    }
  }

  /**
   * With counts, toComparable lists one entry per distinct word, the word
   * followed by how often it occurs, in ascending order, and nothing else.
   */
  lemma WordsListedWithCounts(ws: seq<string>)
    ensures var t := SortStrings(Entries(ws, true));
      ComparableOfWords(ws, true) == Join(t, " ")
      && Sorted(t) && |t| == |Distinct(ws)|
      && (forall w :: w in ws ==> w + Decimal(Count(ws, w)) in t)
      && (forall x :: x in t ==> exists w :: w in ws && Count(ws, w) > 0 && x == w + Decimal(Count(ws, w)))
  {
    CountedEntries(ws);
    SortKeepsWords(Entries(ws, true));
  }
}
