// `Function1`, the first version of the `LatestRevision` cloud function:
// it reads blob names out of the container's XML listing, turns each into
// a `SemVer` with `FromString` (which already drops development builds
// when they are not wanted) and keeps the latest with `Latest`.
module Function1 {
  import opened Wrappers
  import opened Decimal
  import opened Text
  import opened Versions
  import LatestRevision

  /** `FromString`'s outcome: `Ok(None)` is its `null`, `Err` an exception it throws. */
  type Parsed = Result<Option<Version>, string>

  /** The second half of `FromString`: exactly three dot-separated parts, each parsed by `UInt32.Parse`. */
  function ParseTriple(base: string, dev: nat): (r: Parsed)
    ensures r.Ok? ==> r.value.Some? && r.value.value.dev == dev
  {
    var parts := Split(base, '.');
    if |parts| != 3 then Err("does not match SemVer syntax")
    else
      var major, minor, revision := ParseUInt32(parts[0]), ParseUInt32(parts[1]), ParseUInt32(parts[2]);
      if major.None? || minor.None? || revision.None? then Err("FormatException")
      else Ok(Some(Version(major.value, minor.value, revision.value, dev)))
  }

  /** The dev branch of `FromString`: `UInt32.Parse` of the dev number, then the triple of the base. */
  function DevBuild(devNum: string, base: string): Parsed
  {
    if ParseUInt32(devNum).None? then Err("FormatException")
    else ParseTriple(base, ParseUInt32(devNum).value)
  }

  /**
   * `SemVer.FromString` as written. The C# ranges `semver[0..^(devOffset + 4)]`
   * and `semver[0..^devOffset]` count from the END of the string: the dev
   * number is taken as the first `|s| - devOffset - 4` characters and the
   * triple as the first `|s| - devOffset`.
   */
  function FromString(s: string, allowDev: bool): (r: Parsed)
    ensures r.Ok? && r.value.Some? && !allowDev ==> IndexOf(s, "-dev") == -1 && r.value.value.dev == 0
  {
    var devOffset := IndexOf(s, "-dev");
    if devOffset == -1 then ParseTriple(s, 0)
    else if !allowDev then Ok(None)
    else
      DevBuild(s[..|s| - (devOffset + 4)], s[..|s| - devOffset])
  }

  /** `FromString` with the slices its authors evidently meant: the triple before `-dev`, the dev number after it. */
  function FromStringCorrected(s: string, allowDev: bool): (r: Parsed)
    ensures r.Ok? && r.value.Some? && !allowDev ==> IndexOf(s, "-dev") == -1 && r.value.value.dev == 0
  {
    var devOffset := IndexOf(s, "-dev");
    if devOffset == -1 then ParseTriple(s, 0)
    else if !allowDev then Ok(None)
    else
      DevBuild(s[devOffset + 4..], s[..devOffset])
  }

  lemma SplitBase(v: Version)
    ensures Split(Base(v), '.') == [ToDecimal(v.major), ToDecimal(v.minor), ToDecimal(v.revision)]
  {
    var parts := [ToDecimal(v.major), ToDecimal(v.minor), ToDecimal(v.revision)];
    DigitsHaveNoDot(parts[0]);
    DigitsHaveNoDot(parts[1]);
    DigitsHaveNoDot(parts[2]);
    Join3(parts[0], parts[1], parts[2], '.');
    SplitOfJoin(parts, '.');
  }

  lemma ParseTripleOfParts(base: string, a: string, b: string, c: string, x: nat, y: nat, z: nat, dev: nat)
    requires Split(base, '.') == [a, b, c]
    requires ParseUInt32(a) == Some(x) && ParseUInt32(b) == Some(y) && ParseUInt32(c) == Some(z)
    ensures ParseTriple(base, dev) == Ok(Some(Version(x, y, z, dev)))
  {
  }

  lemma ParseTripleOfBase(v: Version, dev: nat)
    requires LatestRevision.Fits32(v)
    ensures ParseTriple(Base(v), dev) == Ok(Some(Version(v.major, v.minor, v.revision, dev)))
  {
    SplitBase(v);
    ParseUInt32OfToDecimal(v.major);
    ParseUInt32OfToDecimal(v.minor);
    ParseUInt32OfToDecimal(v.revision);
    ParseTripleOfParts(Base(v), ToDecimal(v.major), ToDecimal(v.minor), ToDecimal(v.revision), v.major, v.minor, v.revision, dev);
  }

  /** As written, `FromString` reads back the text of every release. */
  lemma FromStringRelease(v: Version, allowDev: bool)
    requires LatestRevision.Fits32(v) && v.dev == 0
    ensures FromString(Render(v), allowDev) == Ok(Some(v))
  {
    RenderDevMarker(v);
    assert Render(v) == Base(v);
    ParseTripleOfBase(v, 0);
  }

  /**
   * Corrected, `FromString` reads back the text of every version, and
   * without development builds allowed it drops exactly those.
   */
  lemma FromStringCorrectedRoundTrip(v: Version, allowDev: bool)
    requires LatestRevision.Fits32(v)
    ensures FromStringCorrected(Render(v), allowDev) == if allowDev || v.dev == 0 then Ok(Some(v)) else Ok(None)
  {
    RenderDevMarker(v);
    var s, b := Render(v), Base(v);
    if v.dev == 0 {
      assert s == b;
      ParseTripleOfBase(v, 0);
    } else if allowDev {
      assert s == b + "-dev" + ToDecimal(v.dev);
      assert s[..|b|] == b;
      assert s[|b| + 4..] == ToDecimal(v.dev);
      ParseUInt32OfToDecimal(v.dev);
      ParseTripleOfBase(v, v.dev);
    }
  }

  lemma Texts1234()
    ensures Base(Version(1, 2, 3, 4)) == "1.2.3" && Render(Version(1, 2, 3, 4)) == "1.2.3-dev4"
    ensures Base(Version(10, 2, 3, 4)) == "10.2.3" && Render(Version(10, 2, 3, 4)) == "10.2.3-dev4"
  {
    assert ToDecimal(1) == "1" && ToDecimal(2) == "2" && ToDecimal(3) == "3" && ToDecimal(4) == "4";
    assert ToDecimal(10) == "10";
  }

  /** As written, the text of `1.2.3-dev4` is read as development build 1: the dev slice is the name's first character. */
  lemma FromStringReadsWrongDev(v: Version)
    requires v == Version(1, 2, 3, 4)
    ensures FromString(Render(v), true) == Ok(Some(Version(1, 2, 3, 1)))
    ensures FromStringCorrected(Render(v), true) == Ok(Some(v))
  {
    var s := Render(v);
    assert |s| == 10 && |Base(v)| == 5 && s[..1] == ToDecimal(1) && s[..5] == Base(v) by {
      Texts1234();
    }
    assert FromString(s, true) == DevBuild(ToDecimal(1), Base(v)) by {
      RenderDevMarker(v);
    }
    assert DevBuild(ToDecimal(1), Base(v)) == Ok(Some(Version(1, 2, 3, 1))) by {
      ParseUInt32OfToDecimal(1);
      ParseTripleOfBase(v, 1);
    }
    FromStringCorrectedRoundTrip(v, true);
  }

  /** Two numerals each followed by a dot: the third part is empty, which `UInt32.Parse` rejects. */
  lemma ParseTripleOfTwoDots(a: string, b: string, dev: nat)
    requires AllDigits(a) && AllDigits(b)
    ensures ParseTriple(a + "." + b + ".", dev).Err?
  {
    DigitsHaveNoDot(a);
    DigitsHaveNoDot(b);
    Join3(a, b, "", '.');
    assert a + "." + b + "." == a + ['.'] + b + ['.'] + "";
    SplitOfJoin([a, b, ""], '.');
    ParseUInt32Empty();
  }

  /** As written, the text of `10.2.3-dev4` makes `FromString` throw: its triple slice is `10.2.`, whose third part is empty. */
  lemma FromStringThrowsOnDev(v: Version)
    requires v == Version(10, 2, 3, 4)
    ensures FromString(Render(v), true).Err?
    ensures FromStringCorrected(Render(v), true) == Ok(Some(v))
  {
    var a, b, c, d := ToDecimal(10), ToDecimal(2), ToDecimal(3), ToDecimal(4);
    assert a == "10" && b == "2" && c == "3" && d == "4" && ToDecimal(1) == "1";
    var s := Render(v);
    var head := a + "." + b + ".";
    assert s == head + (c + "-dev" + d);
    assert s[..5] == head;
    assert s[..1] == ToDecimal(1);
    RenderDevMarker(v);
    assert |Base(v)| == 6;
    assert FromString(s, true) == DevBuild(s[..1], s[..5]);
    ParseUInt32OfToDecimal(1);
    ParseTripleOfTwoDots(a, b, 1);
    FromStringCorrectedRoundTrip(v, true);
  }

  /** The C# `SemVer` of this function: `Latest` takes a whole (possibly null) candidate. */
  class SemVer {
    var major: nat
    var minor: nat
    var revision: nat
    var dev: nat

    function Value(): Version
      reads this
    {
      Version(major, minor, revision, dev)
    }

    constructor (major: nat := 0, minor: nat := 0, revision: nat := 0, dev: nat := 0)
      ensures Value() == Version(major, minor, revision, dev)
    {
      this.major := major;
      this.minor := minor;
      this.revision := revision;
      this.dev := dev;
    }

    /** A null candidate changes nothing; otherwise the condition is `LatestRevision`'s with development builds allowed. */
    method Latest(candidate: Option<Version>)
      modifies this
      ensures Value() == Keep(old(Value()), candidate)
    {
      if candidate.None? {
        return;
      }
      var c := candidate.value;
      if (c.major > major)
         || ((c.major == major)
             && ((c.minor > minor)
                 || ((c.minor == minor)
                     && ((c.revision > revision)
                         || ((c.revision == revision)
                             && ((c.dev == 0) || ((dev != 0) && (c.dev > dev))))))))
      {
        major := c.major;
        minor := c.minor;
        revision := c.revision;
        dev := c.dev;
      }
    }

    function ToString(): (s: string)
      reads this
      ensures s == Render(Value())
    {
      if dev == 0 then ToDecimal(major) + "." + ToDecimal(minor) + "." + ToDecimal(revision)
      else ToDecimal(major) + "." + ToDecimal(minor) + "." + ToDecimal(revision) + "-dev" + ToDecimal(dev)
    }
  }

  /** The stored version after `Latest(candidate)`. */
  function Keep(stored: Version, candidate: Option<Version>): (v: Version)
    ensures v == stored || Some(v) == candidate
  {
    if candidate.None? then stored else LatestRevision.LatestOf(stored, candidate.value, true)
  }

  /** `Latest` keeps the newer of the two: it never goes back, and ends no older than a non-null candidate. */
  lemma KeepIsNewest(stored: Version, candidate: Option<Version>)
    ensures AtLeast(Keep(stored, candidate), stored)
    ensures candidate.Some? ==> AtLeast(Keep(stored, candidate), candidate.value)
    ensures Keep(stored, candidate) == stored || Some(Keep(stored, candidate)) == candidate
  {
    if candidate.Some? { LatestRevision.LatestIsMonotone(stored, candidate.value, true); }
  }

  /** How a name is read: by `FromString` as written, or corrected. */
  function Read(gate: LatestRevision.Gate, name: string, allowDev: bool): (r: Parsed)
    ensures r.Ok? && r.value.Some? && !allowDev ==> r.value.value.dev == 0
  {
    if gate == LatestRevision.AsWritten then FromString(name, allowDev) else FromStringCorrected(name, allowDev)
  }

  /** What each listed name yields, in listing order. */
  function Reads(gate: LatestRevision.Gate, names: seq<string>, allowDev: bool): (rs: seq<Parsed>)
    ensures |rs| == |names|
    ensures forall i | 0 <= i < |names| :: rs[i] == Read(gate, names[i], allowDev)
  {
    seq(|names|, i requires 0 <= i < |names| => Read(gate, names[i], allowDev))
  }

  /** The response for the names' readings in order; `None` when `FromString` throws for one of them. */
  function Scan(parsed: seq<Parsed>): (r: Option<Version>)
    ensures r.Some? && r.value != Version(0, 0, 0, 0) ==> exists i :: 0 <= i < |parsed| && parsed[i] == Ok(Some(r.value))
  {
    if |parsed| == 0 then Some(Version(0, 0, 0, 0))
    else
      match Scan(parsed[..|parsed| - 1])
      case None => None
      case Some(stored) =>
        match parsed[|parsed| - 1]
        case Err(_) => None
        case Ok(c) => Some(Keep(stored, c))
  }

  lemma {:induction false} ScanFails(parsed: seq<Parsed>, k: nat)
    requires k <= |parsed| && Scan(parsed[..k]).None?
    ensures Scan(parsed).None?
    decreases |parsed| - k
  {
    if k < |parsed| {
      assert parsed[..k + 1][..k] == parsed[..k];
      ScanFails(parsed, k + 1);
    } else {
      assert parsed[..k] == parsed;
    }
  }

  /**
   * The loop of `Run` over the texts of the listing's `Name` elements:
   * `Latest(FromString(name, allowDev))` for each, then `ToString()`;
   * `None` is the exception that escapes `Run`.
   */
  method Run(names: seq<string>, allowDev: bool) returns (response: Option<string>)
    ensures response == match Scan(Reads(LatestRevision.AsWritten, names, allowDev))
                        case None => None
                        case Some(v) => Some(Render(v))
  {
    var latestRev := new SemVer();
    RunStart(names, allowDev);
    var i := 0;
    while i < |names|
      invariant 0 <= i <= |names|
      invariant Scan(Reads(LatestRevision.AsWritten, names, allowDev)[..i]) == Some(latestRev.Value())
    {
      var candidate := FromString(names[i], allowDev);
      ghost var stored := latestRev.Value();
      RunStep(names, allowDev, i, stored);
      if candidate.Err? {
        return None;
      }
      latestRev.Latest(candidate.value);
      i := i + 1;
    }
    RunEnd(names, allowDev);
    var text := latestRev.ToString();
    response := Some(text);
  }

  /** Before the loop nothing has been read. */
  lemma RunStart(names: seq<string>, allowDev: bool)
    ensures Scan(Reads(LatestRevision.AsWritten, names, allowDev)[..0]) == Some(Version(0, 0, 0, 0))
  {
    assert Reads(LatestRevision.AsWritten, names, allowDev)[..0] == [];
  }

  /** After the loop every name has been read. */
  lemma RunEnd(names: seq<string>, allowDev: bool)
    ensures var parsed := Reads(LatestRevision.AsWritten, names, allowDev); parsed[..|names|] == parsed
  {
  }

  /** One more reading: a failure fails the scan, a success is kept by `Latest`. */
  lemma ScanSnoc(parsed: seq<Parsed>, i: nat)
    requires i < |parsed|
    ensures Scan(parsed[..i + 1]) == match Scan(parsed[..i])
      case None => None
      case Some(stored) => if parsed[i].Err? then None else Some(Keep(stored, parsed[i].value))
  {
    assert parsed[..i + 1][..i] == parsed[..i];
  }

  /** One turn of `Run`'s loop: a name that throws fails the run, any other is kept by `Latest`. */
  lemma RunStep(names: seq<string>, allowDev: bool, i: nat, stored: Version)
    requires i < |names|
    requires Scan(Reads(LatestRevision.AsWritten, names, allowDev)[..i]) == Some(stored)
    ensures var parsed := Reads(LatestRevision.AsWritten, names, allowDev);
      if FromString(names[i], allowDev).Err? then Scan(parsed).None?
      else Scan(parsed[..i + 1]) == Some(Keep(stored, FromString(names[i], allowDev).value))
  {
    var parsed := Reads(LatestRevision.AsWritten, names, allowDev);
    assert parsed[i] == FromString(names[i], allowDev);
    ScanSnoc(parsed, i);
    if parsed[i].Err? {
      ScanFails(parsed, i + 1);
    }
  }

  /** The response is no older than any version that was read, and no older than the initial `0.0.0`. */
  lemma {:induction false} ScanIsNewest(parsed: seq<Parsed>, k: nat, c: Version)
    requires Scan(parsed).Some?
    requires k < |parsed| && parsed[k] == Ok(Some(c))
    ensures AtLeast(Scan(parsed).value, c)
  {
    var front := parsed[..|parsed| - 1];
    var stored := Scan(front).value;
    var m := Scan(parsed).value;
    KeepIsNewest(stored, parsed[|parsed| - 1].value);
    if k < |front| {
      assert front[k] == parsed[k];
      ScanIsNewest(front, k, c);
      AtLeastTransitive(m, stored, c);
    }
  }

  /** Releases only in, a release out. */
  predicate AllReleases(parsed: seq<Parsed>)
  {
    forall k | 0 <= k < |parsed| && parsed[k].Ok? && parsed[k].value.Some? :: parsed[k].value.value.dev == 0
  }

  lemma {:induction false} ScanRelease(parsed: seq<Parsed>)
    requires Scan(parsed).Some? && AllReleases(parsed)
    ensures Scan(parsed).value.dev == 0
  {
    if |parsed| > 0 {
      var front := parsed[..|parsed| - 1];
      assert AllReleases(front) by {
        forall k | 0 <= k < |front| && front[k].Ok? && front[k].value.Some? ensures front[k].value.value.dev == 0 {
          assert front[k] == parsed[k];
        }
      }
      ScanRelease(front);
    }
  }

  /** A request without development builds is answered with a release (as written too: `FromString` returns null for them). */
  lemma ReleaseWithoutAllowDev(gate: LatestRevision.Gate, names: seq<string>)
    requires Scan(Reads(gate, names, false)).Some?
    ensures Scan(Reads(gate, names, false)).value.dev == 0
  {
    var parsed := Reads(gate, names, false);
    forall k | 0 <= k < |parsed| && parsed[k].Ok? && parsed[k].value.Some? ensures parsed[k].value.value.dev == 0 {
    }
    ScanRelease(parsed);
  }

  /** Corrected, the response is no older than any listed version's text that is wanted. */
  lemma ScanCorrectedIsNewest(names: seq<string>, allowDev: bool, k: nat, v: Version)
    requires Scan(Reads(LatestRevision.Corrected, names, allowDev)).Some?
    requires k < |names| && names[k] == Render(v) && LatestRevision.Fits32(v) && (allowDev || v.dev == 0)
    ensures AtLeast(Scan(Reads(LatestRevision.Corrected, names, allowDev)).value, v)
  {
    FromStringCorrectedRoundTrip(v, allowDev);
    ScanIsNewest(Reads(LatestRevision.Corrected, names, allowDev), k, v);
  }
}
