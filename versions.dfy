// Versions `major.minor.revision`, optionally a development build
// `-devN`, as the cloud functions and the ESP32 updater handle them: the
// precedence they all implement and the text form they print.
module Versions {
  import opened Decimal
  import opened Text

  /** `dev == 0` is a release; `dev >= 1` is development build `dev` of that release. */
  datatype Version = Version(major: nat, minor: nat, revision: nat, dev: nat)

  predicate SameTriple(a: Version, b: Version)
  {
    a.major == b.major && a.minor == b.minor && a.revision == b.revision
  }

  /** `a`'s (major, minor, revision) is lexicographically greater than `b`'s. */
  predicate TripleAbove(a: Version, b: Version)
  {
    a.major > b.major
    || (a.major == b.major && (a.minor > b.minor || (a.minor == b.minor && a.revision > b.revision)))
  }

  /**
   * `a` is strictly newer than `b`: a greater triple, or the same triple
   * where `b` is a development build and `a` is the release or a later
   * development build (a development build ranks below its release).
   */
  predicate Above(a: Version, b: Version)
  {
    TripleAbove(a, b) || (SameTriple(a, b) && b.dev != 0 && (a.dev == 0 || a.dev > b.dev))
  }

  predicate AtLeast(a: Version, b: Version)
  {
    !Above(b, a)
  }

  /**
   * An independent description of the same order: the precedence of
   * section 11 of Semantic Versioning 2.0.0, with a release ranked above
   * its pre-releases and `devN` pre-releases compared numerically, as a
   * lexicographic comparison of number sequences.
   */
  function Key(v: Version): seq<nat>
  {
    [v.major, v.minor, v.revision, if v.dev == 0 then 1 else 0, v.dev]
  }

  /** `x` is lexicographically greater than `y` (sequences of equal length). */
  predicate LexAbove(x: seq<nat>, y: seq<nat>)
    requires |x| == |y|
  {
    |x| > 0 && (x[0] > y[0] || (x[0] == y[0] && LexAbove(x[1..], y[1..])))
  }

  lemma LexAboveCons(h: nat, t: seq<nat>, g: nat, u: seq<nat>)
    requires |t| == |u|
    ensures LexAbove([h] + t, [g] + u) <==> h > g || (h == g && LexAbove(t, u))
  {
    assert ([h] + t)[1..] == t && ([g] + u)[1..] == u;
  }

  lemma {:induction false} AboveIsKeyOrder(a: Version, b: Version)
    ensures Above(a, b) <==> LexAbove(Key(a), Key(b))
  {
    var ra, rb := if a.dev == 0 then 1 else 0, if b.dev == 0 then 1 else 0;
    var x4, y4 := [ra] + [a.dev], [rb] + [b.dev];
    var x3, y3 := [a.revision] + x4, [b.revision] + y4;
    var x2, y2 := [a.minor] + x3, [b.minor] + y3;
    assert Key(a) == [a.major] + x2 && Key(b) == [b.major] + y2;
    LexAboveCons(a.dev, [], b.dev, []);
    assert [a.dev] + [] == [a.dev] && [b.dev] + [] == [b.dev];
    LexAboveCons(ra, [a.dev], rb, [b.dev]);
    LexAboveCons(a.revision, x4, b.revision, y4);
    LexAboveCons(a.minor, x3, b.minor, y3);
    LexAboveCons(a.major, x2, b.major, y2);
  }

  lemma AboveIrreflexive(a: Version)
    ensures !Above(a, a)
  {
  }

  lemma AboveTransitive(a: Version, b: Version, c: Version)
    requires Above(a, b) && Above(b, c)
    ensures Above(a, c)
  {
  }

  lemma AboveTotal(a: Version, b: Version)
    requires a != b
    ensures Above(a, b) || Above(b, a)
  {
  }

  lemma AtLeastTransitive(a: Version, b: Version, c: Version)
    requires AtLeast(a, b) && AtLeast(b, c)
    ensures AtLeast(a, c)
  {
    if Above(c, a) {
      if a != b { AboveTotal(a, b); }
      if b != c { AboveTotal(b, c); }
    }
  }

  /** `M.m.r` for a release, `M.m.r-devD` for a development build. */
  function Render(v: Version): string
  {
    ToDecimal(v.major) + "." + ToDecimal(v.minor) + "." + ToDecimal(v.revision)
      + (if v.dev == 0 then "" else "-dev" + ToDecimal(v.dev))
  }

  /** The release triple's text, which holds only digits and dots. */
  function Base(v: Version): string
  {
    ToDecimal(v.major) + "." + ToDecimal(v.minor) + "." + ToDecimal(v.revision)
  }

  lemma BaseHasNoDash(v: Version, i: nat)
    requires i < |Base(v)|
    ensures Base(v)[i] != '-'
  {
    var a, b, c := ToDecimal(v.major), ToDecimal(v.minor), ToDecimal(v.revision);
    assert Base(v) == a + "." + b + "." + c;
    if i < |a| { assert Base(v)[i] == a[i]; }
    else if i == |a| {}
    else if i < |a| + 1 + |b| { assert Base(v)[i] == b[i - |a| - 1]; }
    else if i == |a| + 1 + |b| {}
    else { assert Base(v)[i] == c[i - |a| - |b| - 2]; }
  }

  /** Where `-dev` first occurs in the text of a version: nowhere for a release, right after the triple otherwise. */
  lemma {:induction false} RenderDevMarker(v: Version)
    ensures IndexOf(Render(v), "-dev") == if v.dev == 0 then -1 else |Base(v)|
  {
    var s := Render(v);
    var b := Base(v);
    assert s == b + (if v.dev == 0 then "" else "-dev" + ToDecimal(v.dev));
    forall i: nat | i < |b| ensures !OccursAt(s, "-dev", i) {
      BaseHasNoDash(v, i);
      assert s[i] == b[i];
    }
    if v.dev != 0 {
      assert s[|b|..|b| + 4] == "-dev";
      assert OccursAt(s, "-dev", |b|);
    } else {
      assert s == b;
    }
  }

  /** The text of a version contains `-dev` exactly when it is a development build. */
  lemma RenderMarksDev(v: Version)
    ensures (IndexOf(Render(v), "-dev") != -1) <==> v.dev != 0
  {
    RenderDevMarker(v);
  }
}
