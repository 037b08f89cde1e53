// The ESP32 over-the-air updater: the `sscanf` reading of a version
// string into an `ota_version_t`, the HTTP data handler, the release
// determination, the upgrade decision and the scheduling in `start_ota`.
module Ota {
  import opened Wrappers
  import opened Bytes
  import opened Decimal
  import opened Versions

  // ------------------------------------------------------------ sscanf

  /** One directive of a `scanf` format: `%hu`, or literal text to match. */
  datatype Directive = Number | Literal(text: string)

  /** `SEMVER_FORMAT`, `"%hu.%hu.%hu-dev%hu"`, written as its successive tails. */
  const SemVerFormat: seq<Directive> := [Number] + AfterMajor
  const AfterMajor: seq<Directive> := [Literal(".")] + MinorOn
  const MinorOn: seq<Directive> := [Number] + AfterMinor
  const AfterMinor: seq<Directive> := [Literal(".")] + RevisionOn
  const RevisionOn: seq<Directive> := [Number] + AfterRevision
  const AfterRevision: seq<Directive> := [Literal("-dev")] + DevOn
  const DevOn: seq<Directive> := [Number]

  /** What one `%hu` does to the rest of the input. */
  datatype Conversion = InputFailure | MatchingFailure | Converted(value: U16, rest: string)

  /**
   * `%hu`: skip white space, take an optional sign and a non-empty run
   * of digits, and store the number truncated to 16 bits (negated
   * modulo 2^16 after a `-`). The end of the input before any digit is
   * an input failure.
   */
  function ConvertU16(input: string): (c: Conversion)
    ensures c.Converted? ==> |c.rest| < |input|
  {
    var t := TrimStart(input);
    if |t| == 0 then InputFailure
    else
      var signed := t[0] == '+' || t[0] == '-';
      var u := if signed then t[1..] else t;
      var e := DigitsEnd(u, 0);
      if e == 0 then MatchingFailure
      else
        var n := Trunc16(DigitsValue(u[..e]));
        Converted(if t[0] == '-' then Trunc16(0x1_0000 - n) else n, u[e..])
  }

  /** The result of `sscanf`: its return value and the values it stored, in format order. */
  datatype Scanned = Scanned(count: int, values: seq<U16>)

  function Conversions(format: seq<Directive>): nat
  {
    if |format| == 0 then 0 else (if format[0] == Number then 1 else 0) + Conversions(format[1..])
  }

  /**
   * `sscanf` from the directive `format[0]` on, with `got` already
   * stored. It stops at the first failure and returns the number of
   * conversions, or -1 (`EOF`) when the input ran out before the first
   * one. Literal text is matched exactly, because the format has no
   * white space in it.
   */
  function ScanFrom(input: string, format: seq<Directive>, got: seq<U16>): (r: Scanned)
    ensures (r.count == -1 && r.values == [])
         || (r.count == |r.values| && |got| <= |r.values| <= |got| + Conversions(format))
    decreases |format|
  {
    if |format| == 0 then Scanned(|got|, got)
    else
      match format[0]
      case Literal(t) =>
        if |t| <= |input| && input[..|t|] == t then ScanFrom(input[|t|..], format[1..], got)
        else Scanned(|got|, got)
      case Number =>
        match ConvertU16(input)
        case InputFailure => if |got| == 0 then Scanned(-1, []) else Scanned(|got|, got)
        case MatchingFailure => Scanned(|got|, got)
        case Converted(v, rest) =>
          ScanFrom(rest, format[1..], got + [v])
  }

  /** `sscanf(s, SEMVER_FORMAT, ...)`: between -1 and 4, never more than the four conversions. */
  function ScanSemVer(s: string): (r: Scanned)
    ensures -1 <= r.count <= 4 && (r.count == -1 || r.count == |r.values|) && |r.values| <= 4
  {
    assert Conversions(SemVerFormat) == 4 by {
      assert DevOn[1..] == [];
      assert Conversions(DevOn) == 1;
      assert AfterRevision[1..] == DevOn;
      assert Conversions(AfterRevision) == 1;
      assert RevisionOn[1..] == AfterRevision;
      assert Conversions(RevisionOn) == 2;
      assert AfterMinor[1..] == RevisionOn;
      assert Conversions(AfterMinor) == 2;
      assert MinorOn[1..] == AfterMinor;
      assert Conversions(MinorOn) == 3;
      assert AfterMajor[1..] == MinorOn;
      assert Conversions(AfterMajor) == 3;
      assert SemVerFormat[1..] == AfterMajor;
    }
    ScanFrom(s, SemVerFormat, [])
  }

  /** A numeral followed by something that is not a digit converts to its value modulo 2^16. */
  lemma ConvertNumeral(n: nat, rest: string)
    requires |rest| > 0 ==> !IsDigit(rest[0])
    ensures ConvertU16(ToDecimal(n) + rest) == Converted(Trunc16(n), rest)
  {
    var d := ToDecimal(n);
    var s := d + rest;
    assert s[0] == d[0];
    assert TrimStart(s) == s;
    assert s[..|d|] == d;
    assert s[|d|..] == rest;
    if |rest| > 0 {
      assert s[|d|] == rest[0];
    }
    DigitsEndAt(s, 0, |d|);
    ToDecimalValue(n);
  }

  lemma ScanLiteral(t: string, rest: string, format: seq<Directive>, got: seq<U16>)
    requires |format| > 0 && format[0] == Literal(t)
    ensures ScanFrom(t + rest, format, got) == ScanFrom(rest, format[1..], got)
  {
    assert (t + rest)[..|t|] == t;
    assert (t + rest)[|t|..] == rest;
  }

  lemma ScanNumeral(n: nat, rest: string, format: seq<Directive>, got: seq<U16>)
    requires |format| > 0 && format[0] == Number
    requires |rest| > 0 ==> !IsDigit(rest[0])
    ensures ScanFrom(ToDecimal(n) + rest, format, got) == ScanFrom(rest, format[1..], got + [Trunc16(n)])
  {
    ConvertNumeral(n, rest);
  }

  /** The end of the input after `k` directives stops the scan with what was stored. */
  lemma ScanAtEnd(format: seq<Directive>, got: seq<U16>)
    requires |format| > 0 && |got| > 0
    ensures ScanFrom("", format, got) == Scanned(|got|, got)
  {
    assert TrimStart("") == "";
  }

  /** A number and the dot after it. */
  lemma ScanNumberDot(n: nat, rest: string, format: seq<Directive>, got: seq<U16>)
    requires |format| > 1 && format[0] == Number && format[1] == Literal(".")
    ensures ScanFrom(ToDecimal(n) + ("." + rest), format, got) == ScanFrom(rest, format[2..], got + [Trunc16(n)])
  {
    ScanNumeral(n, "." + rest, format, got);
    ScanLiteral(".", rest, format[1..], got + [Trunc16(n)]);
    assert format[1..][1..] == format[2..];
  }

  /** Two numbers, each followed by a dot. */
  lemma ScanTwoDots(x: nat, y: nat, rest: string, format: seq<Directive>)
    requires |format| > 3 && format[0] == format[2] == Number && format[1] == format[3] == Literal(".")
    ensures ScanFrom(ToDecimal(x) + ("." + (ToDecimal(y) + ("." + rest))), format, [])
         == ScanFrom(rest, format[4..], [Trunc16(x), Trunc16(y)])
  {
    var a, b := Trunc16(x), Trunc16(y);
    var s1 := ToDecimal(y) + ("." + rest);
    ScanNumberDot(x, s1, format, []);
    assert [] + [a] == [a];
    ScanNumberDot(y, rest, format[2..], [a]);
    assert [a] + [b] == [a, b];
    assert format[2..][2..] == format[4..];
  }

  /** A revision at the end of the input is the third and last conversion. */
  lemma ScanRevisionAtEnd(z: nat, got: seq<U16>)
    requires |got| == 2
    ensures ScanFrom(ToDecimal(z), RevisionOn, got) == Scanned(3, got + [Trunc16(z)])
  {
    assert ToDecimal(z) + "" == ToDecimal(z);
    ScanNumeral(z, "", RevisionOn, got);
    assert RevisionOn[1..] == AfterRevision;
    ScanAtEnd(AfterRevision, got + [Trunc16(z)]);
  }

  /** A revision followed by `-dev` and a number gives the third and fourth conversions. */
  lemma ScanRevisionDev(z: nat, d: nat, got: seq<U16>)
    requires |got| == 2
    ensures ScanFrom(ToDecimal(z) + ("-dev" + ToDecimal(d)), RevisionOn, got) == Scanned(4, got + [Trunc16(z), Trunc16(d)])
  {
    var tail, g := "-dev" + ToDecimal(d), got + [Trunc16(z)];
    assert ScanFrom(ToDecimal(z) + tail, RevisionOn, got) == ScanFrom(tail, AfterRevision, g) by {
      ScanNumeral(z, tail, RevisionOn, got);
      assert RevisionOn[1..] == AfterRevision;
    }
    assert ScanFrom(tail, AfterRevision, g) == Scanned(4, got + [Trunc16(z), Trunc16(d)]) by {
      ScanDevTail(d, g);
      assert g + [Trunc16(d)] == got + [Trunc16(z), Trunc16(d)];
    }
  }

  /** After the triple, `-dev` and a number give the fourth conversion. */
  lemma ScanDevTail(n: nat, got: seq<U16>)
    ensures ScanFrom("-dev" + ToDecimal(n), AfterRevision, got) == Scanned(|got| + 1, got + [Trunc16(n)])
  {
    ScanLiteral("-dev", ToDecimal(n), AfterRevision, got);
    assert AfterRevision[1..] == DevOn;
    assert ToDecimal(n) + "" == ToDecimal(n);
    ScanNumeral(n, "", DevOn, got);
    assert DevOn[1..] == [];
  }

  /**
   * The device reads the text of a version (as the cloud function
   * renders it) back as three or four conversions: the numbers modulo
   * 2^16, and no dev number for a release.
   */
  lemma {:induction false} ScanRender(v: Version)
    ensures ScanSemVer(Render(v))
         == if v.dev == 0 then Scanned(3, [Trunc16(v.major), Trunc16(v.minor), Trunc16(v.revision)])
            else Scanned(4, [Trunc16(v.major), Trunc16(v.minor), Trunc16(v.revision), Trunc16(v.dev)])
  {
    var tail := if v.dev == 0 then "" else "-dev" + ToDecimal(v.dev);
    var x, y := Trunc16(v.major), Trunc16(v.minor);
    RenderSplit(v, tail);
    assert SemVerFormat[4..] == RevisionOn;
    ScanTwoDots(v.major, v.minor, ToDecimal(v.revision) + tail, SemVerFormat);
    if v.dev == 0 {
      assert ToDecimal(v.revision) + tail == ToDecimal(v.revision);
      ScanRevisionAtEnd(v.revision, [x, y]);
    } else {
      ScanRevisionDev(v.revision, v.dev, [x, y]);
    }
  }

  lemma RenderSplit(v: Version, tail: string)
    requires tail == if v.dev == 0 then "" else "-dev" + ToDecimal(v.dev)
    ensures Render(v) == ToDecimal(v.major) + ("." + (ToDecimal(v.minor) + ("." + (ToDecimal(v.revision) + tail))))
  {
  }

  // ------------------------------------------------------ ota_version_t

  class OtaVersion {
    var major: U16
    var minor: U16
    var revision: U16
    var dev: U16

    function Fields(): seq<U16>
      reads this
    {
      [major, minor, revision, dev]
    }

    function Value(): Version
      reads this
    {
      Version(major, minor, revision, dev)
    }

    /** `ota_version_t latest_version = {0}`. */
    constructor ()
      ensures Fields() == [0, 0, 0, 0]
    {
      major, minor, revision, dev := 0, 0, 0, 0;
    }

    /** Stores `values` into the first fields, in order, and keeps the others. */
    method Store(values: seq<U16>)
      requires |values| <= 4
      modifies this
      ensures Fields() == Overwrite(old(Fields()), values)
    {
      if |values| > 0 { major := values[0]; }
      if |values| > 1 { minor := values[1]; }
      if |values| > 2 { revision := values[2]; }
      if |values| > 3 { dev := values[3]; }
    }

    /** `sscanf(s, SEMVER_FORMAT, &major, &minor, &revision, &dev)`: the converted fields are overwritten, the rest kept. */
    method Scan(s: string) returns (count: int)
      modifies this
      ensures count == ScanSemVer(s).count
      ensures Fields() == Overwrite(old(Fields()), ScanSemVer(s).values)
    {
      var r := ScanSemVer(s);
      count := r.count;
      Store(r.values);
    }

    /**
     * The `sscanf` into the fields followed by the fix-up every caller
     * does: three conversions are a release, so `dev` is set to 0.
     */
    method Read(s: string) returns (ssRc: int)
      modifies this
      ensures ssRc == ScanSemVer(s).count
      ensures Fields() == AfterRead(old(Fields()), s)
    {
      ssRc := Scan(s);
      if ssRc == 3 {
        dev := 0;
      }
    }
  }

  /** The fields after storing `values` into the first of them. */
  function Overwrite(fields: seq<U16>, values: seq<U16>): (r: seq<U16>)
    requires |fields| == 4 && |values| <= 4
    ensures |r| == 4 && r[..|values|] == values && r[|values|..] == fields[|values|..]
  {
    values + fields[|values|..]
  }

  function FromFields(f: seq<U16>): Version
    requires |f| == 4
  {
    Version(f[0], f[1], f[2], f[3])
  }

  /** The verdict every caller gives on an `sscanf` count: 3 or 4 conversions are a version. */
  predicate ScanValid(count: int) { !(count < 3 || count > 4) }

  /** The fields after `Read(s)`: the conversions stored, and `dev` cleared after exactly three. */
  function AfterRead(fields: seq<U16>, s: string): (r: seq<U16>)
    requires |fields| == 4
    ensures |r| == 4
  {
    var sc := ScanSemVer(s);
    var f := Overwrite(fields, sc.values);
    if sc.count == 3 then f[..3] + [0] else f
  }

  /** The version a string denotes for this updater: three numbers are a release, four a development build. */
  function ScannedVersion(s: string): (r: Option<Version>)
    ensures r.Some? <==> ScanValid(ScanSemVer(s).count)
    ensures r.Some? ==> r.value.major < 0x1_0000 && r.value.minor < 0x1_0000 && r.value.revision < 0x1_0000 && r.value.dev < 0x1_0000
  {
    var sc := ScanSemVer(s);
    if sc.count == 3 then Some(FromFields(sc.values + [0]))
    else if sc.count == 4 then Some(FromFields(sc.values))
    else None
  }

  /** After a valid read the fields hold exactly the version read, whatever they held before. */
  lemma AfterReadValid(fields: seq<U16>, s: string)
    requires |fields| == 4 && ScannedVersion(s).Some?
    ensures FromFields(AfterRead(fields, s)) == ScannedVersion(s).value
  {
    var sc := ScanSemVer(s);
    var f := Overwrite(fields, sc.values);
    if sc.count == 3 {
      assert f[..3] == sc.values;
    } else {
      assert f == sc.values;
    }
  }

  lemma ScannedOf(s: string, v: Version)
    requires v.major < 0x1_0000 && v.minor < 0x1_0000 && v.revision < 0x1_0000 && v.dev < 0x1_0000
    requires ScanSemVer(s) == if v.dev == 0 then Scanned(3, [Trunc16(v.major), Trunc16(v.minor), Trunc16(v.revision)])
                              else Scanned(4, [Trunc16(v.major), Trunc16(v.minor), Trunc16(v.revision), Trunc16(v.dev)])
    ensures ScannedVersion(s) == Some(v)
  {
    var sc := ScanSemVer(s);
    assert Trunc16(v.major) == v.major && Trunc16(v.minor) == v.minor && Trunc16(v.revision) == v.revision;
    if v.dev == 0 {
      assert sc.values + [0] == [v.major, v.minor, v.revision, 0];
    } else {
      assert Trunc16(v.dev) == v.dev;
    }
  }

  /**
   * Round trip with the cloud side: the text `Render` gives for a
   * version whose numbers fit in 16 bits reads back as that version.
   */
  lemma ReadRender(v: Version)
    requires v.major < 0x1_0000 && v.minor < 0x1_0000 && v.revision < 0x1_0000 && v.dev < 0x1_0000
    ensures ScannedVersion(Render(v)) == Some(v)
  {
    ScanRender(v);
    ScannedOf(Render(v), v);
  }

  /** `esp_err_t` as far as these functions return it. */
  datatype EspErr = EspOk | EspFail

  /**
   * `HTTP_EVENT_ON_DATA`: the body is read into the version; three
   * conversions mean a release, fewer (or more, which cannot happen)
   * fail.
   */
  method OnData(version: OtaVersion, data: string) returns (rc: EspErr)
    modifies version
    ensures rc == if ScanValid(ScanSemVer(data).count) then EspOk else EspFail
    ensures version.Fields() == AfterRead(old(version.Fields()), data)
  {
    rc := EspOk;
    var ssRc := version.Read(data);
    if ssRc < 3 || ssRc > 4 {
      rc := EspFail;
    }
  }

  // -------------------------------------------------------- do_we_upgrade

  /** The condition of `do_we_upgrade` on the candidate `version` and the running build `current`. */
  predicate Upgrades(version: Version, current: Version)
    ensures Upgrades(version, current) ==> version != current && version.major >= current.major
  {
    version.major > current.major
    || (version.major == current.major
        && (version.minor > current.minor
            || (version.minor == current.minor
                && (version.revision > current.revision
                    || (version.revision == current.revision
                        && current.dev != 0 && (version.dev == 0 || version.dev > current.dev))))))
  }

  /** The condition holds exactly when the candidate is strictly newer, in the precedence of Semantic Versioning 2.0.0. */
  lemma UpgradesIffAbove(version: Version, current: Version)
    ensures Upgrades(version, current) <==> Above(version, current)
    ensures Upgrades(version, current) <==> LexAbove(Key(version), Key(current))
  {
    AboveIsKeyOrder(version, current);
  }

  /** Never an upgrade to the version already running. */
  lemma NoUpgradeToSame(v: Version)
    ensures !Upgrades(v, v)
  {
  }

  /** A release is never replaced by anything with the same triple. */
  lemma NoUpgradeFromReleaseAtSameTriple(version: Version, current: Version)
    requires SameTriple(version, current) && current.dev == 0
    ensures !Upgrades(version, current)
  {
  }

  /**
   * `do_we_upgrade` as written: `success` is never initialised, so on a
   * valid running version the result is whatever the variable held
   * (`unset`); an unreadable running version always fails.
   */
  method DoWeUpgrade(version: OtaVersion, running: string, unset: bool) returns (success: bool, upgrade: bool)
    ensures success == (unset && ScannedVersion(running).Some?)
    ensures upgrade == (success && Upgrades(version.Value(), ScannedVersion(running).value))
  {
    success := unset;
    upgrade := false;
    var current := new OtaVersion();
    var ssRc := current.Read(running);
    if ssRc < 3 || ssRc > 4 {
      success := false;
    }
    if success {
      AfterReadValid([0, 0, 0, 0], running);
      if Upgrades(version.Value(), current.Value()) {
        upgrade := true;
      }
    }
  }

  /** `do_we_upgrade` with `success` initialised to true. */
  method DoWeUpgradeCorrected(version: OtaVersion, running: string) returns (success: bool, upgrade: bool)
    ensures success == ScannedVersion(running).Some?
    ensures upgrade == (success && Above(version.Value(), ScannedVersion(running).value))
  {
    success := true;
    upgrade := false;
    var current := new OtaVersion();
    var ssRc := current.Read(running);
    if ssRc < 3 || ssRc > 4 {
      success := false;
    }
    if success {
      AfterReadValid([0, 0, 0, 0], running);
      UpgradesIffAbove(version.Value(), current.Value());
      if Upgrades(version.Value(), current.Value()) {
        upgrade := true;
      }
    }
  }

  // ---------------------------------------------------- determine_release

  /** The HTTP request for the latest revision, with its query string. */
  datatype Request = Request(query: Option<string>)

  /** The fields after the configured release (when there is one) and then the response body (when one arrived) were read. */
  function Fetched(fields: seq<U16>, configured: string, body: Option<string>): (r: seq<U16>)
    requires |fields| == 4
    ensures |r| == 4
  {
    var f := if |configured| > 0 then AfterRead(fields, configured) else fields;
    if body.Some? then AfterRead(f, body.value) else f
  }

  /**
   * `determine_release` as written. The configured release is read
   * into the version, but its validity test `ss_rc < 3 && ss_rc > 4`
   * can never hold, so the latest-revision request is always made and
   * its body (`body`, the one `HTTP_EVENT_ON_DATA` chunk, if any)
   * overwrites what was read. The outcome is the outcome of the request
   * (`performOk`); `dev` is sent as the query when development images
   * are allowed.
   */
  method DetermineRelease(version: OtaVersion, configured: string, allowDev: bool, performOk: bool, body: Option<string>)
    returns (success: bool, request: Option<Request>)
    modifies version
    ensures success == performOk
    ensures request == Some(Request(if allowDev then Some("dev") else None))
    ensures version.Fields() == Fetched(old(version.Fields()), configured, body)
  {
    success := true;
    request := None;
    if |configured| > 0 {
      var ssRc := version.Read(configured);
      if ssRc < 3 && ssRc > 4 {
        success := false;
      }
    }
    if success {
      var query := None;
      if allowDev {
        query := Some("dev");
      }
      request := Some(Request(query));
      if body.Some? {
        var _ := OnData(version, body.value);
      }
      if !performOk {
        success := false;
      }
    }
  }

  /** As written, a configured release, valid or not, never decides the outcome, and a valid body replaces it. */
  lemma ConfiguredReleaseOverridden(fields: seq<U16>, configured: string, body: string)
    requires |fields| == 4 && ScannedVersion(body).Some?
    ensures FromFields(Fetched(fields, configured, Some(body))) == ScannedVersion(body).value
  {
    var f := if |configured| > 0 then AfterRead(fields, configured) else fields;
    AfterReadValid(f, body);
  }

  /**
   * `determine_release` as its comment intends: a configured release
   * is used on its own (no request) and fails when malformed; without
   * one, the latest revision is requested.
   */
  method DetermineReleaseCorrected(version: OtaVersion, configured: string, allowDev: bool, performOk: bool, body: Option<string>)
    returns (success: bool, request: Option<Request>)
    modifies version
    ensures request == if |configured| > 0 then None else Some(Request(if allowDev then Some("dev") else None))
    ensures success == Release(old(version.Fields()), configured, performOk, body).Some?
    ensures success ==> version.Value() == Release(old(version.Fields()), configured, performOk, body).value
  {
    success := true;
    request := None;
    if |configured| > 0 {
      ghost var before := version.Fields();
      var ssRc := version.Read(configured);
      if ssRc < 3 || ssRc > 4 {
        success := false;
      } else {
        AfterReadValid(before, configured);
      }
    } else {
      var query := None;
      if allowDev {
        query := Some("dev");
      }
      request := Some(Request(query));
      if body.Some? {
        var _ := OnData(version, body.value);
      }
      if !performOk {
        success := false;
      }
    }
  }

  /**
   * What the corrected `determine_release` finds: the configured
   * release when there is one (nothing when it is malformed), otherwise
   * the fetched fields when the request succeeded.
   */
  function Release(fields: seq<U16>, configured: string, performOk: bool, body: Option<string>): (r: Option<Version>)
    requires |fields| == 4
    ensures |configured| > 0 ==> r == ScannedVersion(configured)
    ensures |configured| == 0 ==> (r.Some? <==> performOk)
  {
    if |configured| > 0 then ScannedVersion(configured)
    else if performOk then Some(FromFields(Fetched(fields, configured, body)))
    else None
  }

  // ------------------------------------------------------------ start_ota

  /** `(uint64_t)24 * 60 * 60 * 1000 * 1000`: the retry delay after a successful round, 24 hours in microseconds. */
  const RetryAfterSuccess: U64 := 24 * 60 * 60 * 1000 * 1000

  /** `(uint64_t)1 * 60 * 60 * 1000 * 1000`: the retry delay after a failed round, 1 hour in microseconds. */
  const RetryAfterFailure: U64 := 1 * 60 * 60 * 1000 * 1000

  lemma RetryDelays()
    ensures RetryAfterSuccess == 86_400_000_000 && RetryAfterFailure == 3_600_000_000
    ensures RetryAfterSuccess == 24 * RetryAfterFailure
  {
  }

  /**
   * What `start_ota` depends on beyond its own code: the configuration
   * (`enabled`, the configured release, `allowDev`), the HTTP exchange
   * (`performOk`, `body`), the running image's version string
   * (`running`), the stray value of `do_we_upgrade`'s uninitialised
   * `success` (`unset`) and whether the image download and flash in
   * `upgrade_to` succeed (`flashOk`).
   */
  datatype Environment = Environment(
    enabled: bool, configured: string, allowDev: bool, performOk: bool, body: Option<string>,
    running: string, unset: bool, flashOk: bool)

  /**
   * How a round ends: OTA disabled, a restart after `upgrade_to(target)`
   * succeeded, or a retry armed after `delay` microseconds. `upgrade_to` as
   * written builds its URL without the version, so `target` is the version
   * asked for, not a statement about the image flashed.
   */
  datatype Outcome = Disabled | Restart(target: Version) | Retry(delay: U64)

  /** The version `determine_release` leaves in the zero-initialised `latest_version`. */
  function Latest(env: Environment): Version
  {
    FromFields(Fetched([0, 0, 0, 0], env.configured, env.body))
  }

  /** How a round of `start_ota` as written ends: see `StartOta`. */
  function AsWrittenOutcome(env: Environment): (o: Outcome)
    ensures o == Disabled <==> !env.enabled
    ensures o.Restart? ==> env.flashOk && o.target == Latest(env)
    ensures o != Retry(RetryAfterSuccess)
  {
    if !env.enabled then Disabled
    else if env.performOk && env.unset && ScannedVersion(env.running).Some? && env.flashOk then Restart(Latest(env))
    else Retry(RetryAfterFailure)
  }

  /**
   * As written, a round whose `upgrade_to` succeeds restarts for the
   * fetched version even when it is not newer (here: the very version
   * running), and the 24-hour retry is never armed.
   */
  lemma AsWrittenReflashes(env: Environment)
    requires env.enabled && env.performOk && env.unset && env.flashOk
    requires ScannedVersion(env.running) == Some(Latest(env))
    ensures !Upgrades(Latest(env), ScannedVersion(env.running).value)
    ensures AsWrittenOutcome(env) == Restart(Latest(env))
  {
    NoUpgradeToSame(Latest(env));
  }

  lemma AsWrittenNeverWaitsADay(env: Environment)
    ensures AsWrittenOutcome(env) != Retry(RetryAfterSuccess)
  {
  }

  /** How a corrected round ends: see `StartOtaCorrected`. */
  function CorrectedOutcome(env: Environment): (o: Outcome)
    ensures o == Disabled <==> !env.enabled
    ensures o.Restart? ==> env.flashOk && ScannedVersion(env.running).Some? && Above(o.target, ScannedVersion(env.running).value)
  {
    var release, current := Release([0, 0, 0, 0], env.configured, env.performOk, env.body), ScannedVersion(env.running);
    if !env.enabled then Disabled
    else if release.None? || current.None? then Retry(RetryAfterFailure)
    else if !Above(release.value, current.value) then Retry(RetryAfterSuccess)
    else if env.flashOk then Restart(release.value)
    else Retry(RetryAfterFailure)
  }

  /**
   * The corrected round restarts only for a strictly newer version, and
   * waits a day exactly when both versions were read and nothing newer
   * was found.
   */
  lemma CorrectedOutcomeProperties(env: Environment)
    ensures !env.enabled <==> CorrectedOutcome(env) == Disabled
    ensures CorrectedOutcome(env).Restart? ==> ScannedVersion(env.running).Some? && Above(CorrectedOutcome(env).target, ScannedVersion(env.running).value)
    ensures CorrectedOutcome(env) == Retry(RetryAfterSuccess)
        <==> env.enabled && ScannedVersion(env.running).Some? && Release([0, 0, 0, 0], env.configured, env.performOk, env.body).Some?
             && !Above(Release([0, 0, 0, 0], env.configured, env.performOk, env.body).value, ScannedVersion(env.running).value)
  {
  }

  /** The OTA task: the one-shot retry timer, armed with a delay or stopped. */
  class OtaTask {
    var retryTimer: Option<U64>

    constructor ()
      ensures retryTimer == None
    {
      retryTimer := None;
    }

    /**
     * `start_ota` as written: `upgrade_to` is called whenever both
     * steps succeed, whether or not `do_we_upgrade` asked for an
     * upgrade. A successful flash restarts the device; every other
     * path arms the 1-hour retry, so the 24-hour branch is never taken.
     */
    method StartOta(env: Environment) returns (outcome: Outcome)
      modifies this
      ensures outcome == AsWrittenOutcome(env)
      ensures retryTimer == if outcome.Retry? then Some(outcome.delay) else None
    {
      retryTimer := None;
      if !env.enabled {
        return Disabled;
      }
      var latest := new OtaVersion();
      var success, _ := DetermineRelease(latest, env.configured, env.allowDev, env.performOk, env.body);
      var doUpgrade := false;
      if success {
        success, doUpgrade := DoWeUpgrade(latest, env.running, env.unset);
      }
      if success {
        if env.flashOk {
          return Restart(latest.Value());
        }
        success := false;
      }
      var retryIn := if success then RetryAfterSuccess else RetryAfterFailure;
      retryTimer := Some(retryIn);
      outcome := Retry(retryIn);
    }

    /**
     * `start_ota` as its comments intend: `do_we_upgrade` with
     * `success` initialised, and `upgrade_to` only when an upgrade is
     * due; a round that finds nothing newer retries in 24 hours.
     */
    method StartOtaCorrected(env: Environment) returns (outcome: Outcome)
      modifies this
      ensures outcome == CorrectedOutcome(env)
      ensures retryTimer == if outcome.Retry? then Some(outcome.delay) else None
    {
      retryTimer := None;
      if !env.enabled {
        return Disabled;
      }
      var latest := new OtaVersion();
      var success, _ := DetermineReleaseCorrected(latest, env.configured, env.allowDev, env.performOk, env.body);
      var doUpgrade := false;
      if success {
        success, doUpgrade := DoWeUpgradeCorrected(latest, env.running);
      }
      if success && doUpgrade {
        if env.flashOk {
          return Restart(latest.Value());
        }
        success := false;
      }
      var retryIn := if success then RetryAfterSuccess else RetryAfterFailure;
      retryTimer := Some(retryIn);
      outcome := Retry(retryIn);
    }
  }

  // ------------------------------------------------------ image acceptance

  /** `esp_ota_img_states_t`. */
  datatype ImageState = New | PendingVerify | Valid | Invalid | Aborted | Undefined

  /** `(uint64_t)acceptance_interval_mins * 60 * 1000 * 1000`: the acceptance delay in microseconds. */
  function AcceptanceDelay(mins: U16): (r: U64)
    ensures r % 60_000_000 == 0 && r / 60_000_000 == mins
  {
    mins * 60 * 1000 * 1000
  }

  /**
   * The start-up check of `cs_ota_task` as written: on an OTA partition
   * the acceptance timer is armed when the image is already `VALID`,
   * although the comments say it is for an image pending verification.
   */
  function AcceptanceTimer(factory: bool, state: ImageState, mins: U16): (r: Option<U64>)
    ensures r.Some? <==> !factory && state == Valid
    ensures r.Some? ==> r.value == AcceptanceDelay(mins)
  {
    if !factory && state == Valid then Some(AcceptanceDelay(mins)) else None
  }

  /** As written, a freshly flashed image waiting for verification never gets the timer that would accept it. */
  lemma PendingImageNeverAccepted(mins: U16)
    ensures AcceptanceTimer(false, PendingVerify, mins) == None
    ensures AcceptanceTimer(false, Valid, mins) == Some(AcceptanceDelay(mins))
  {
  }

  /** The start-up check as intended: arm the timer for an OTA image pending verification. */
  function AcceptanceTimerCorrected(factory: bool, state: ImageState, mins: U16): (r: Option<U64>)
    ensures r.Some? <==> !factory && state == PendingVerify
    ensures r.Some? ==> r.value == AcceptanceDelay(mins)
  {
    if !factory && state == PendingVerify then Some(AcceptanceDelay(mins)) else None
  }
}
