/**
 * toUuid (Inflector.php:485-494): the md5 digest of the comparable form of
 * a string, cut into groups of 8, 4, 4, 4 and the rest of its characters
 * and joined with dashes.  The digest itself is a parameter of the model.
 */
module Uuid {
  import opened Slug
  import opened Comparable

  /** substr($s, $start, $length) for a start and a length that are not negative. */
  function Substr(s: string, start: nat, length: nat): (r: string)
    ensures |r| <= length
    ensures start + length <= |s| ==> r == s[start..start + length]
    ensures start <= |s| < start + length ==> r == s[start..]
    ensures |s| < start ==> r == ""
  {
    if |s| <= start then "" else if |s| <= start + length then s[start..] else s[start..start + length]
  }

  /** substr($s, $start) for a start that is not negative. */
  function SubstrFrom(s: string, start: nat): (r: string)
    ensures start <= |s| ==> r == s[start..]
    ensures |s| < start ==> r == ""
  {
    if |s| <= start then "" else s[start..]
  }

  /** The dashed layout of a digest. */
  function FormatUuid(h: string): (r: string)
  {
    Substr(h, 0, 8) + "-" + Substr(h, 8, 4) + "-" + Substr(h, 12, 4) + "-" + Substr(h, 16, 4) + "-" + SubstrFrom(h, 20)
  }

  lemma {:induction false} DropDashesOfNoDash(s: string)
    requires NoDash(s)
    ensures DropDashes(s) == s
  {
    if s != [] {
      DropDashesOfNoDash(s[1..]);
      assert s == [s[0]] + s[1..];
    }
  }

  /** The five groups of a digest, read in order, are the whole digest. */
  lemma GroupsCoverDigest(h: string)
    ensures Substr(h, 0, 8) + Substr(h, 8, 4) + Substr(h, 12, 4) + Substr(h, 16, 4) + SubstrFrom(h, 20) == h
  {
    if |h| >= 20 {
      assert h == h[..8] + h[8..12] + h[12..16] + h[16..20] + h[20..];
    } else if |h| >= 16 {
      assert h == h[..8] + h[8..12] + h[12..16] + h[16..];
    } else if |h| >= 12 {
      assert h == h[..8] + h[8..12] + h[12..];
    } else if |h| >= 8 {
      assert h == h[..8] + h[8..];
    }
  }

  /** Removing the four dashes of the layout gives back a digest without dashes. */
  lemma FormatUuidRoundTrip(h: string)
    requires NoDash(h)
    ensures DropDashes(FormatUuid(h)) == h
  {
    var g0, g1, g2, g3, g4 := Substr(h, 0, 8), Substr(h, 8, 4), Substr(h, 12, 4), Substr(h, 16, 4), SubstrFrom(h, 20);
    GroupsCoverDigest(h);
    assert NoDash(g0) && NoDash(g1) && NoDash(g2) && NoDash(g3) && NoDash(g4) by {
      NoDashSlices(h);
    }
    DropDashesOfNoDash(g0);
    DropDashesOfNoDash(g1);
    DropDashesOfNoDash(g2);
    DropDashesOfNoDash(g3);
    DropDashesOfNoDash(g4);
    var x1 := g0 + "-" + g1;
    DropDashAround(g0, g1);
    var x2 := x1 + "-" + g2;
    DropDashAround(x1, g2);
    var x3 := x2 + "-" + g3;
    DropDashAround(x2, g3);
    var x4 := x3 + "-" + g4;
    DropDashAround(x3, g4);
    assert FormatUuid(h) == x4;
  }

  lemma DropDashAround(a: string, b: string)
    ensures DropDashes(a + "-" + b) == DropDashes(a) + DropDashes(b)
  {
    assert DropDashes("-") == "";
    DropDashesConcat(a, "-");
    DropDashesConcat(a + "-", b);
  }

  lemma NoDashSlices(h: string)
    requires NoDash(h)
    ensures NoDash(Substr(h, 0, 8)) && NoDash(Substr(h, 8, 4)) && NoDash(Substr(h, 12, 4))
    ensures NoDash(Substr(h, 16, 4)) && NoDash(SubstrFrom(h, 20))
  {
  }

  /** A 32-character digest becomes the 36-character 8-4-4-4-12 layout. */
  lemma FormatUuidLayout(h: string)
    requires |h| == 32
    ensures var r := FormatUuid(h);
      |r| == 36 && r[8] == '-' && r[13] == '-' && r[18] == '-' && r[23] == '-'
      && r[..8] == h[..8] && r[9..13] == h[8..12] && r[14..18] == h[12..16]
      && r[19..23] == h[16..20] && r[24..] == h[20..]
  {
    DashedLayout(h[..8], h[8..12], h[12..16], h[16..20], h[20..]);
  }

  lemma DashedLayout(a: string, b: string, c: string, d: string, e: string)
    requires |a| == 8 && |b| == 4 && |c| == 4 && |d| == 4 && |e| == 12
    ensures var r := a + "-" + b + "-" + c + "-" + d + "-" + e;
      |r| == 36 && r[8] == '-' && r[13] == '-' && r[18] == '-' && r[23] == '-'
      && r[..8] == a && r[9..13] == b && r[14..18] == c && r[19..23] == d && r[24..] == e
  {
  }

  /** toUuid($s), given the md5 function as a parameter. */
  function Uuid(s: string, md5: string -> string): string
  {
    FormatUuid(md5(ComparableForm(s, true)))
  }

  method ToUuid(s: string, md5: string -> string) returns (r: string)
    ensures r == Uuid(s, md5)
  {
    var comparable := ToComparable(s, true);
    var digest := md5(comparable);
    r := Substr(digest, 0, 8) + "-" + Substr(digest, 8, 4) + "-" + Substr(digest, 12, 4) + "-"
      + Substr(digest, 16, 4) + "-" + SubstrFrom(digest, 20);
  }

  /**
   * Strings whose words are the same up to order get the same id, whatever
   * the digest function.
   */
  lemma UuidIgnoresOrder(s1: string, s2: string, md5: string -> string)
    requires multiset(Words(s1)) == multiset(Words(s2))
    ensures Uuid(s1, md5) == Uuid(s2, md5)
  {
    ComparableIgnoresOrder(Words(s1), Words(s2), true);
  }
}
