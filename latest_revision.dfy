// The `LatestRevision` cloud function: it lists the container's
// top-level prefixes, keeps those that look like `M.m.r/` or
// `M.m.r-devD/`, and answers with the latest of them by way of a
// `SemVer` accumulator whose `Latest` overwrites its four fields.
module LatestRevision {
  import opened Wrappers
  import opened Bytes
  import opened Decimal
  import opened Text
  import opened Versions

  // ------------------------------------------------------------ the regex

  /** The capture groups of `^(\d+)\.(\d+)\.(\d+)(?:-dev([1-9]\d*))?/$`; group 4 may be absent. */
  datatype Groups = Groups(major: string, minor: string, revision: string, dev: Option<string>)

  /** Groups the pattern can capture: non-empty digit runs, and a dev number without a leading zero. */
  predicate GroupsValid(g: Groups)
  {
    Number(g.major) && Number(g.minor) && Number(g.revision)
    && (g.dev.Some? ==> Number(g.dev.value) && g.dev.value[0] != '0')
  }

  /** The text the pattern matches before its final `/`. */
  function Assemble(g: Groups): string
  {
    g.major + "." + g.minor + "." + g.revision + (if g.dev.Some? then "-dev" + g.dev.value else "")
  }

  /** A non-empty run of digits. */
  predicate Number(s: string) { |s| > 0 && AllDigits(s) }

  /** The third field: `(\d+)` then, optionally, `-dev([1-9]\d*)`, to the end. */
  function MatchRevision(p: string): Option<(string, Option<string>)>
  {
    var j := DigitsEnd(p, 0);
    if j == 0 then None
    else if j == |p| then Some((p, None))
    else if OccursAt(p, "-dev", j) && Number(p[j + 4..]) && p[j + 4] != '0' then Some((p[..j], Some(p[j + 4..])))
    else None
  }

  lemma MatchRevisionSound(p: string)
    requires MatchRevision(p).Some?
    ensures var (r, d) := MatchRevision(p).value;
      Number(r) && (d.Some? ==> Number(d.value) && d.value[0] != '0')
      && p == r + (if d.Some? then "-dev" + d.value else "")
  {
    var j := DigitsEnd(p, 0);
    if j < |p| {
      assert p == p[..j] + p[j..j + 4] + p[j + 4..];
    }
  }

  lemma MatchRevisionComplete(r: string, d: Option<string>)
    requires Number(r) && (d.Some? ==> Number(d.value) && d.value[0] != '0')
    ensures MatchRevision(r + (if d.Some? then "-dev" + d.value else "")) == Some((r, d))
  {
    var p := r + (if d.Some? then "-dev" + d.value else "");
    assert p[..|r|] == r;
    if d.Some? {
      assert p[|r|] == '-';
      DigitsEndAt(p, 0, |r|);
      assert p[|r|..|r| + 4] == "-dev";
      assert p[|r| + 4..] == d.value;
    } else {
      assert p == r;
      DigitsEndAt(p, 0, |r|);
    }
  }

  /**
   * The pattern applied to the text before the final `/`: three fields
   * separated by dots. Each group is a maximal run of digits, because
   * what follows it (`.`, `-`, the end) is not a digit, so backtracking
   * cannot split the text any other way.
   */
  function MatchBody(b: string): Option<Groups>
  {
    var fields := Split(b, '.');
    if |fields| == 3 && Number(fields[0]) && Number(fields[1]) && MatchRevision(fields[2]).Some? then
      Some(Groups(fields[0], fields[1], MatchRevision(fields[2]).value.0, MatchRevision(fields[2]).value.1))
    else None
  }

  /** `version.Match(prefix)`: `$` also matches before a final newline. */
  function MatchVersion(s: string): Option<Groups>
  {
    if |s| >= 1 && s[|s| - 1] == '/' then MatchBody(s[..|s| - 1])
    else if |s| >= 2 && s[|s| - 2..] == "/\n" then MatchBody(s[..|s| - 2])
    else None
  }

  lemma MatchBodySound(b: string)
    requires MatchBody(b).Some?
    ensures GroupsValid(MatchBody(b).value) && b == Assemble(MatchBody(b).value)
  {
    var fields := Split(b, '.');
    var f0, f1, f2 := fields[0], fields[1], fields[2];
    var (r, d) := MatchRevision(f2).value;
    var tail := if d.Some? then "-dev" + d.value else "";
    assert MatchBody(b) == Some(Groups(f0, f1, r, d));
    assert Number(r) && (d.Some? ==> Number(d.value) && d.value[0] != '0') && f2 == r + tail by {
      MatchRevisionSound(f2);
    }
    assert b == f0 + "." + f1 + "." + f2 by {
      assert fields == [f0, f1, f2];
      SplitJoin(b, '.');
      Join3(f0, f1, f2, '.');
    }
    Assoc(f0 + "." + f1 + ".", r, tail);
  }

  /** Every match is valid groups followed by `/` (and perhaps a newline). */
  lemma MatchSound(s: string)
    requires MatchVersion(s).Some?
    ensures GroupsValid(MatchVersion(s).value)
    ensures s == Assemble(MatchVersion(s).value) + "/" || s == Assemble(MatchVersion(s).value) + "/\n"
  {
    if s[|s| - 1] == '/' {
      MatchBodySound(s[..|s| - 1]);
      assert s == s[..|s| - 1] + "/";
    } else {
      MatchBodySound(s[..|s| - 2]);
      assert s == s[..|s| - 2] + "/\n";
    }
  }

  lemma MatchBodyComplete(g: Groups)
    requires GroupsValid(g)
    ensures MatchBody(Assemble(g)) == Some(g)
  {
    var tail := if g.dev.Some? then "-dev" + g.dev.value else "";
    var third := g.revision + tail;
    MatchRevisionComplete(g.revision, g.dev);
    assert '.' !in third by {
      DigitsHaveNoDot(g.revision);
      if g.dev.Some? { DigitsHaveNoDot(g.dev.value); }
    }
    var fields := [g.major, g.minor, third];
    assert Split(Assemble(g), '.') == fields by {
      DigitsHaveNoDot(g.major);
      DigitsHaveNoDot(g.minor);
      Join3(g.major, g.minor, third, '.');
      Assoc(g.major + "." + g.minor + ".", g.revision, tail);
      SplitOfJoin(fields, '.');
    }
  }

  /** Valid groups followed by `/`, or by `/` and a newline, are matched and captured exactly. */
  lemma MatchComplete(g: Groups)
    requires GroupsValid(g)
    ensures MatchVersion(Assemble(g) + "/") == Some(g)
    ensures MatchVersion(Assemble(g) + "/\n") == Some(g)
  {
    MatchBodyComplete(g);
    var b := Assemble(g);
    assert (b + "/")[..|b|] == b;
    assert (b + "/\n")[..|b|] == b;
    assert (b + "/\n")[|b| ..] == "/\n";
  }

  // ------------------------------------------------- reading one prefix

  /** What one listed prefix contributes: nothing, a candidate, or an exception from `UInt32.Parse`. */
  datatype Reading = Skipped | Accepted(candidate: Version) | Throws

  /** The loop body's arguments to `Latest`: the four groups parsed, a missing dev group as 0. */
  function ReadPrefix(prefix: string): (r: Reading)
    ensures r.Accepted? ==> Fits32(r.candidate)
  {
    match MatchVersion(prefix)
    case None => Skipped
    case Some(g) => ParseGroups(g)
  }

  predicate Fits32(v: Version)
  {
    v.major < 0x1_0000_0000 && v.minor < 0x1_0000_0000 && v.revision < 0x1_0000_0000 && v.dev < 0x1_0000_0000
  }

  /** The four `UInt32.Parse` calls (a missing dev group is 0); any failure throws. */
  function ParseGroups(g: Groups): (r: Reading)
    ensures r.Accepted? ==> Fits32(r.candidate)
  {
    var major, minor, revision := ParseUInt32(g.major), ParseUInt32(g.minor), ParseUInt32(g.revision);
    var dev := if g.dev.Some? then ParseUInt32(g.dev.value) else Some(0);
    if major.Some? && minor.Some? && revision.Some? && dev.Some?
    then Accepted(Version(major.value, minor.value, revision.value, dev.value))
    else Throws
  }

  /** What each prefix contributes, in listing order. */
  function Readings(prefixes: seq<string>): (rs: seq<Reading>)
    ensures |rs| == |prefixes|
  {
    if |prefixes| == 0 then [] else Readings(prefixes[..|prefixes| - 1]) + [ReadPrefix(prefixes[|prefixes| - 1])]
  }

  lemma {:induction false} ReadingsAt(prefixes: seq<string>, i: nat)
    requires i < |prefixes|
    ensures Readings(prefixes)[i] == ReadPrefix(prefixes[i])
  {
    if i < |prefixes| - 1 {
      assert prefixes[..|prefixes| - 1][i] == prefixes[i];
      ReadingsAt(prefixes[..|prefixes| - 1], i);
    }
  }

  function GroupsOf(v: Version): Groups
  {
    Groups(ToDecimal(v.major), ToDecimal(v.minor), ToDecimal(v.revision), if v.dev == 0 then None else Some(ToDecimal(v.dev)))
  }

  lemma ReadMatched(s: string, g: Groups)
    requires MatchVersion(s) == Some(g)
    ensures ReadPrefix(s) == ParseGroups(g)
  {
  }

  lemma AssembleGroupsOf(v: Version)
    ensures GroupsValid(GroupsOf(v)) && Assemble(GroupsOf(v)) == Render(v)
  {
  }

  lemma ParseGroupsOf(v: Version)
    requires Fits32(v)
    ensures ParseGroups(GroupsOf(v)) == Accepted(v)
  {
    ParseUInt32OfToDecimal(v.major);
    ParseUInt32OfToDecimal(v.minor);
    ParseUInt32OfToDecimal(v.revision);
    if v.dev != 0 { ParseUInt32OfToDecimal(v.dev); }
  }

  /** A prefix named after a version's text is read back as that version. */
  lemma RenderIsRead(v: Version)
    requires Fits32(v)
    ensures ReadPrefix(Render(v) + "/") == Accepted(v)
  {
    var g := GroupsOf(v);
    AssembleGroupsOf(v);
    MatchComplete(g);
    ReadMatched(Render(v) + "/", g);
    ParseGroupsOf(v);
  }

  // -------------------------------------------------- the accumulator

  /** The condition under which `Latest` overwrites the stored version. */
  function Adopts(stored: Version, candidate: Version, allowDev: bool): (b: bool)
    ensures b ==> TripleAbove(candidate, stored) || SameTriple(candidate, stored)
    ensures candidate == stored ==> (b <==> candidate.dev == 0)
  {
    (candidate.major > stored.major)
    || ((candidate.major == stored.major)
        && ((candidate.minor > stored.minor)
            || ((candidate.minor == stored.minor)
                && ((candidate.revision > stored.revision)
                    || ((candidate.revision == stored.revision)
                        && ((candidate.dev == 0)
                            || ((stored.dev != 0) && allowDev && (candidate.dev > stored.dev))))))))
  }

  /** The stored version after `Latest`. */
  function LatestOf(stored: Version, candidate: Version, allowDev: bool): Version
  {
    if Adopts(stored, candidate, allowDev) then candidate else stored
  }

  class SemVer {
    var major: U64
    var minor: U64
    var revision: U64
    var dev: U64

    function Value(): Version
      reads this
    {
      Version(major, minor, revision, dev)
    }

    constructor (major: U64 := 0, minor: U64 := 0, revision: U64 := 0, dev: U64 := 0)
      ensures Value() == Version(major, minor, revision, dev)
    {
      this.major := major;
      this.minor := minor;
      this.revision := revision;
      this.dev := dev;
    }

    method Latest(major: U32, minor: U32, revision: U32, dev: U32, allowDev: bool)
      modifies this
      ensures Value() == LatestOf(old(Value()), Version(major, minor, revision, dev), allowDev)
    {
      if Adopts(Value(), Version(major, minor, revision, dev), allowDev) {
        this.major := major;
        this.minor := minor;
        this.revision := revision;
        this.dev := dev;
      }
    }

    function ToString(): string
      reads this
    {
      Render(Value())
    }
  }

  /** With development builds allowed, `Latest` adopts exactly the newer candidates (and re-adopts an equal release). */
  lemma AdoptsWithDev(stored: Version, candidate: Version)
    ensures Adopts(stored, candidate, true) <==> Above(candidate, stored) || (candidate == stored && candidate.dev == 0)
  {
  }

  /**
   * Without them, a greater triple is still adopted whatever its dev
   * number; at an equal triple only the release is.
   */
  lemma AdoptsWithoutDev(stored: Version, candidate: Version)
    ensures Adopts(stored, candidate, false) <==> TripleAbove(candidate, stored) || (SameTriple(candidate, stored) && candidate.dev == 0)
  {
  }

  /** The stored version never decreases, and with development builds allowed it ends at least as new as the candidate. */
  lemma LatestIsMonotone(stored: Version, candidate: Version, allowDev: bool)
    ensures AtLeast(LatestOf(stored, candidate, allowDev), stored)
    ensures allowDev ==> AtLeast(LatestOf(stored, candidate, allowDev), candidate)
  {
  }

  // ----------------------------------------------------- the selection

  /** How the accumulator treats a candidate: as written, or ignoring development builds unless they are allowed. */
  datatype Gate = AsWritten | Corrected

  function Apply(gate: Gate, stored: Version, candidate: Version, allowDev: bool): (v: Version)
    ensures v == stored || v == candidate
    ensures gate == Corrected && !allowDev && candidate.dev != 0 ==> v == stored
  {
    if gate == Corrected && !allowDev && candidate.dev != 0 then stored else LatestOf(stored, candidate, allowDev)
  }

  /** The response for the listed prefixes' readings in order; `None` when a parse throws. */
  function Select(gate: Gate, readings: seq<Reading>, allowDev: bool): (r: Option<Version>)
    ensures r.Some? && r.value != Version(0, 0, 0, 0) ==> exists i :: 0 <= i < |readings| && readings[i] == Accepted(r.value)
  {
    if |readings| == 0 then Some(Version(0, 0, 0, 0))
    else
      match Select(gate, readings[..|readings| - 1], allowDev)
      case None => None
      case Some(stored) =>
        match readings[|readings| - 1]
        case Skipped => Some(stored)
        case Throws => None
        case Accepted(c) => Some(Apply(gate, stored, c, allowDev))
  }

  lemma {:induction false} SelectThrows(gate: Gate, readings: seq<Reading>, allowDev: bool, k: nat)
    requires k <= |readings| && Select(gate, readings[..k], allowDev).None?
    ensures Select(gate, readings, allowDev).None?
    decreases |readings| - k
  {
    if k < |readings| {
      assert readings[..k + 1][..k] == readings[..k];
      SelectThrows(gate, readings, allowDev, k + 1);
    } else {
      assert readings[..k] == readings;
    }
  }

  /** The loop body's reading of the `i`th prefix: the match, and the parses when it succeeds. */
  method ReadOne(ghost readings: seq<Reading>, prefixes: seq<string>, i: nat) returns (reading: Reading)
    requires readings == Readings(prefixes) && i < |prefixes|
    ensures reading == readings[i]
    ensures reading.Accepted? ==> Fits32(reading.candidate)
  {
    ReadingsAt(prefixes, i);
    reading := ReadPrefix(prefixes[i]);
  }

  /**
   * The body of `Run` from the listing on: a fresh accumulator, `Latest`
   * for every prefix the pattern matches, then its text; `None` is the
   * "Internal error" exception a failing `UInt32.Parse` turns into.
   */
  method SelectLatest(prefixes: seq<string>, allowDev: bool) returns (response: Option<string>)
    ensures response == match Select(AsWritten, Readings(prefixes), allowDev)
                        case None => None
                        case Some(v) => Some(Render(v))
  {
    ghost var readings := Readings(prefixes);
    var latestRev := new SemVer();
    var i := 0;
    while i < |prefixes|
      invariant 0 <= i <= |prefixes|
      invariant Select(AsWritten, readings[..i], allowDev) == Some(latestRev.Value())
    {
      assert readings[..i + 1][..i] == readings[..i];
      var reading := ReadOne(readings, prefixes, i);
      match reading {
        case Skipped =>
        case Throws =>
          SelectThrows(AsWritten, readings, allowDev, i + 1);
          return None;
        case Accepted(c) =>
          latestRev.Latest(c.major, c.minor, c.revision, c.dev, allowDev);
      }
      i := i + 1;
    }
    assert readings[..i] == readings;
    response := Some(latestRev.ToString());
  }

  /** The request fails exactly when some matched prefix holds a number `UInt32.Parse` rejects. */
  lemma {:induction false} SelectFailsIff(gate: Gate, readings: seq<Reading>, allowDev: bool)
    ensures Select(gate, readings, allowDev).None? <==> exists k | 0 <= k < |readings| :: readings[k].Throws?
  {
    if |readings| > 0 {
      var front := readings[..|readings| - 1];
      SelectFailsIff(gate, front, allowDev);
      if exists k | 0 <= k < |front| :: front[k].Throws? {
        var k :| 0 <= k < |front| && front[k].Throws?;
        assert readings[k] == front[k];
      }
      if exists k | 0 <= k < |readings| :: readings[k].Throws? {
        var k :| 0 <= k < |readings| && readings[k].Throws?;
        if k < |front| { assert front[k] == readings[k]; }
      }
    }
  }

  /** The candidates the gate lets compete: all, or only releases when development builds are not allowed. */
  predicate Eligible(gate: Gate, c: Version, allowDev: bool)
  {
    gate == AsWritten || allowDev || c.dev == 0
  }

  /** The answer is no older than any candidate that competes under the gate. */
  predicate Dominates(gate: Gate, m: Version, readings: seq<Reading>, allowDev: bool)
  {
    forall k | 0 <= k < |readings| && readings[k].Accepted? && Eligible(gate, readings[k].candidate, allowDev) ::
      AtLeast(m, readings[k].candidate)
  }

  lemma ApplyStep(stored: Version, c: Version, allowDev: bool)
    requires allowDev || c.dev == 0
    ensures AtLeast(Apply(Corrected, stored, c, allowDev), c)
    ensures AtLeast(Apply(Corrected, stored, c, allowDev), stored)
  {
  }

  /**
   * Corrected, the answer is the newest competing version: no candidate
   * that competes is newer, and without development builds allowed the
   * answer is a release.
   */
  lemma {:induction false} SelectCorrectedIsNewest(readings: seq<Reading>, allowDev: bool)
    requires Select(Corrected, readings, allowDev).Some?
    ensures Dominates(Corrected, Select(Corrected, readings, allowDev).value, readings, allowDev)
    ensures AtLeast(Select(Corrected, readings, allowDev).value, Version(0, 0, 0, 0))
    ensures !allowDev ==> Select(Corrected, readings, allowDev).value.dev == 0
  {
    if |readings| > 0 {
      var front := readings[..|readings| - 1];
      SelectCorrectedIsNewest(front, allowDev);
      var stored := Select(Corrected, front, allowDev).value;
      var m := Select(Corrected, readings, allowDev).value;
      assert AtLeast(m, stored) by {
        if readings[|readings| - 1].Accepted? {
          var c := readings[|readings| - 1].candidate;
          assert m == Apply(Corrected, stored, c, allowDev);
        }
      }
      AtLeastTransitive(m, stored, Version(0, 0, 0, 0));
      forall k | 0 <= k < |readings| && readings[k].Accepted? && Eligible(Corrected, readings[k].candidate, allowDev)
        ensures AtLeast(m, readings[k].candidate)
      {
        if k < |front| {
          assert front[k] == readings[k];
          AtLeastTransitive(m, stored, readings[k].candidate);
        } else {
          ApplyStep(stored, readings[k].candidate, allowDev);
        }
      }
    }
  }

  /** With development builds allowed the gate changes nothing, so the function as written answers with the newest prefix. */
  lemma {:induction false} SelectWithDevIsNewest(readings: seq<Reading>)
    requires Select(AsWritten, readings, true).Some?
    ensures Select(Corrected, readings, true) == Select(AsWritten, readings, true)
    ensures Dominates(AsWritten, Select(AsWritten, readings, true).value, readings, true)
  {
    SameWithDev(readings);
    SelectCorrectedIsNewest(readings, true);
  }

  lemma {:induction false} SameWithDev(readings: seq<Reading>)
    ensures Select(Corrected, readings, true) == Select(AsWritten, readings, true)
  {
    if |readings| > 0 { SameWithDev(readings[..|readings| - 1]); }
  }

  lemma ReadingsOfOne(prefix: string)
    ensures Readings([prefix]) == [ReadPrefix(prefix)]
  {
    assert [prefix][..0] == [];
  }

  lemma SelectOne(gate: Gate, c: Version, allowDev: bool)
    ensures Select(gate, [Accepted(c)], allowDev) == Some(Apply(gate, Version(0, 0, 0, 0), c, allowDev))
  {
    assert [Accepted(c)][..0] == [];
  }

  /**
   * As written, a request that does not allow development builds is
   * still answered with one: a development build with a greater triple
   * than everything else listed is adopted, where the corrected gate
   * answers with the initial version.
   */
  lemma DevAnsweredWithoutAllowDev(v: Version)
    requires Fits32(v) && v.dev != 0 && TripleAbove(v, Version(0, 0, 0, 0))
    ensures Select(AsWritten, Readings([Render(v) + "/"]), false) == Some(v)
    ensures Select(Corrected, Readings([Render(v) + "/"]), false) == Some(Version(0, 0, 0, 0))
  {
    RenderIsRead(v);
    ReadingsOfOne(Render(v) + "/");
    SelectOne(AsWritten, v, false);
    SelectOne(Corrected, v, false);
  }

  /** The prefix `1.0.0-dev1/` is the text of development build 1 of 1.0.0. */
  lemma DevExample()
    ensures Render(Version(1, 0, 0, 1)) + "/" == "1.0.0-dev1/"
  {
    assert ToDecimal(1) == "1" && ToDecimal(0) == "0";
  }
}
