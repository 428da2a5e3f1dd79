/** The collector object: its configuration directory and the label maps of its two
    gauges, updated in place by `SetConfigDir` and `CollectMetrics`. */
module Collector {
  import opened Errors
  import opened CertStore
  import opened Projection
  import Expiry
  import SubjectLabel

  /** The scan result with `certs` put in front of its certificates. */
  function Prepend(certs: seq<Certificate>, r: Result<seq<Certificate>>): Result<seq<Certificate>>
  {
    match r
    case Ok(rest) => Ok(certs + rest)
    case Err(e) => Err(e)
  }

  /** One collection cycle on the gauges `g`: the store is scanned in full first, so a
      listing, read or decoding failure leaves the gauges as they were; an empty store
      changes nothing; otherwise the certificates are written in order. */
  function Cycle(g: Gauges, fs: FileSystem, dir: string, now: int, accepts: (GaugeKind, string) -> bool): (r: Step)
    ensures g.days.Keys <= r.gauges.days.Keys && g.dates.Keys <= r.gauges.dates.Keys
    ensures r.outcome.Fail? && !r.outcome.error.GaugeWriteFailed? ==> r.gauges == g
  {
    match ScanDir(fs, dir)
    case Err(e) => Step(g, Fail(e))
    case Ok(certs) => if certs == [] then Step(g, Pass) else Project(g, certs, now, accepts)
  }

  /** A certificate that is present but cannot be read or decoded fails the cycle with
      the first such file's error, and neither gauge changes, whatever comes before it. */
  lemma CycleDecodeFailureChangesNothing(g: Gauges, fs: FileSystem, dir: string, now: int, accepts: (GaugeKind, string) -> bool, i: int)
    requires fs.Listable(dir) && 0 <= i < |fs.dirs[dir]| && Fails(fs.dirs[dir][i])
    ensures Cycle(g, fs, dir, now, accepts).gauges == g
    ensures exists k :: (FirstFailureAt(fs.dirs[dir], k)
      && Cycle(g, fs, dir, now, accepts).outcome == Fail(FailureOf(dir, fs.dirs[dir][k])))
  {
    ScanSucceedsIffAllDecode(dir, fs.dirs[dir]);
    ScanFailsAtFirst(dir, fs.dirs[dir]);
  }

  /** A directory that exists but cannot be listed is accepted as the configuration
      directory, yet every cycle on it fails at the listing with both gauges unchanged. */
  lemma CycleOnUnlistableDirectory(g: Gauges, fs: FileSystem, dir: string, now: int, accepts: (GaugeKind, string) -> bool)
    requires fs.IsDir(dir) && dir in fs.unlistable
    ensures Cycle(g, fs, dir, now, accepts) == Step(g, Fail(ListingFailed(dir)))
  {
  }

  /** A store where no child holds a certificate file ends the cycle successfully with
      both gauges as they were. */
  lemma CycleWithoutCertificatesChangesNothing(g: Gauges, fs: FileSystem, dir: string, now: int, accepts: (GaugeKind, string) -> bool)
    requires fs.Listable(dir)
    requires forall i :: 0 <= i < |fs.dirs[dir]| ==> fs.dirs[dir][i].certFile.Missing?
    ensures Cycle(g, fs, dir, now, accepts) == Step(g, Pass)
  {
    ScanSucceedsIffAllDecode(dir, fs.dirs[dir]);
    PemCertificatesEmpty(fs.dirs[dir]);
  }

  /** Whatever the outcome, a name that no certificate in the store carries keeps its
      entry and value in both gauges, or stays absent: entries of certificates that are
      gone are never removed. */
  lemma CycleKeepsOtherNames(g: Gauges, fs: FileSystem, dir: string, now: int, accepts: (GaugeKind, string) -> bool, name: string)
    requires fs.Listable(dir) ==> name !in Names(PemCertificates(fs.dirs[dir]))
    ensures var r := Cycle(g, fs, dir, now, accepts).gauges;
      && (name in r.days <==> name in g.days) && (name in g.days ==> r.days[name] == g.days[name])
      && (name in r.dates <==> name in g.dates) && (name in g.dates ==> r.dates[name] == g.dates[name])
  {
    if fs.Listable(dir) {
      ScanSucceedsIffAllDecode(dir, fs.dirs[dir]);
      if Scan(dir, fs.dirs[dir]).Ok? {
        ProjectKeepsOtherNames(g, PemCertificates(fs.dirs[dir]), now, accepts, name);
      }
    }
  }

  /** When every certificate file decodes and every write is accepted, the cycle
      succeeds, every name in the store is in both gauges, and each holds the days left
      and the expiry second of the last certificate in listing order with that name. */
  lemma CycleAllSucceed(g: Gauges, fs: FileSystem, dir: string, now: int, accepts: (GaugeKind, string) -> bool)
    requires fs.Listable(dir)
    requires forall i :: 0 <= i < |fs.dirs[dir]| ==> !Fails(fs.dirs[dir][i])
    requires var certs := PemCertificates(fs.dirs[dir]);
      forall i :: 0 <= i < |certs| ==> Accepted(certs[i], accepts)
    ensures var r := Cycle(g, fs, dir, now, accepts);
      var certs := PemCertificates(fs.dirs[dir]);
      && r.outcome == Pass
      && r.gauges.days.Keys == g.days.Keys + Names(certs)
      && r.gauges.dates.Keys == g.dates.Keys + Names(certs)
      && forall i :: LastWithName(certs, i) ==>
           r.gauges.days[Name(certs[i])] == DaysValue(certs[i], now)
           && r.gauges.dates[Name(certs[i])] == DateValue(certs[i])
  {
    var certs := PemCertificates(fs.dirs[dir]);
    ScanSucceedsIffAllDecode(dir, fs.dirs[dir]);
    if certs == [] {
      assert Names(certs) == {};
    } else {
      ProjectAllAccepted(g, certs, now, accepts);
      ProjectOutcome(g, certs, now, accepts);
    }
  }

  /** Two cycles in a row over an unchanged store, with the same clock, leave the
      gauges and the outcome as one cycle does. */
  lemma CycleIdempotent(g: Gauges, fs: FileSystem, dir: string, now: int, accepts: (GaugeKind, string) -> bool)
    ensures var once := Cycle(g, fs, dir, now, accepts);
      Cycle(once.gauges, fs, dir, now, accepts) == once
  {
    match ScanDir(fs, dir)
    case Err(_) =>
    case Ok(certs) =>
      if certs != [] {
        ProjectIdempotent(g, certs, now, accepts);
      }
  }

  /** A store with `a/cert.pem` for "CN=alice", expiring five days from now, and a
      child `b` without `cert.pem`: one cycle on empty gauges records "alice" with 5 days
      left and its expiry second. */
  lemma CycleExample(notAfterSecs: int)
    ensures var now := Expiry.ExpirationInstant(notAfterSecs) - 5 * Expiry.MicrosPerDay;
      var alice := Certificate("CN=alice", notAfterSecs);
      var fs := FileSystem(map["/etc/letsencrypt/live" := [Child("a", Pem(alice)), Child("b", Missing)]], {});
      Cycle(Gauges(map[], map[]), fs, "/etc/letsencrypt/live", now, (kind, name) => true)
        == Step(Gauges(map["alice" := 5], map["alice" := notAfterSecs]), Pass)
  {
    var now := Expiry.ExpirationInstant(notAfterSecs) - 5 * Expiry.MicrosPerDay;
    var alice := Certificate("CN=alice", notAfterSecs);
    var children := [Child("a", Pem(alice)), Child("b", Missing)];
    var fs := FileSystem(map["/etc/letsencrypt/live" := children], {});
    var dir := "/etc/letsencrypt/live";
    assert children[1..][1..] == [];
    assert Scan(dir, children[1..]) == Ok([]);
    assert [alice] + [] == [alice];
    assert ScanDir(fs, dir) == Ok([alice]);
    var domain := "alice";
    forall j | 0 <= j <= |domain| ensures !SubjectLabel.OccursAt(domain, SubjectLabel.CommonNameTag, j) {
      if j + 3 <= |domain| {
        assert domain[j..j + 3][2] == domain[j + 2] != '=';
      }
    }
    SubjectLabel.CertificateNameOfCommonName(domain);
    assert Name(alice) == "alice";
    Expiry.DaysLeftUnique(Expiry.ExpirationInstant(notAfterSecs), now, 5);
    Expiry.EpochSecondsOfExpiration(notAfterSecs);
    assert DaysValue(alice, now) == 5 && DateValue(alice) == notAfterSecs;
    var accepts := (kind, name) => true;
    var g := Gauges(map[], map[]);
    var s := Record(g, alice, now, accepts);
    assert s == Step(Gauges(map["alice" := 5], map["alice" := notAfterSecs]), Pass);
    assert [alice][1..] == [];
    assert Project(g, [alice], now, accepts) == s;
    assert Cycle(g, fs, dir, now, accepts) == s;
  }

  class MetricsCollector {
    var configDir: string
    var expirationDays: map<string, int>
    var expirationDate: map<string, int>

    function Snapshot(): Gauges
      reads this
    {
      Gauges(expirationDays, expirationDate)
    }

    /** The object before its directory is set: no directory, both gauges empty. */
    constructor Unconfigured()
      ensures configDir == "" && expirationDays == map[] && expirationDate == map[]
    {
      configDir := "";
      expirationDays := map[];
      expirationDate := map[];
    }

    /** Construction fails when the directory is rejected; otherwise the collector
        starts with that directory and gauges that hold no label yet. */
    static method Create(configDir: string, fs: FileSystem) returns (r: Result<MetricsCollector>)
      ensures r.Err? <==> !fs.IsDir(configDir)
      ensures r.Err? ==> r.error == NotADirectory(configDir)
      ensures r.Ok? ==> fresh(r.value) && r.value.configDir == configDir
      ensures r.Ok? ==> r.value.expirationDays == map[] && r.value.expirationDate == map[]
    {
      var collector := new MetricsCollector.Unconfigured();
      var o := collector.SetConfigDir(configDir, fs);
      if o.Fail? {
        return Err(o.error);
      }
      return Ok(collector);
    }

    /** A path that is not an existing directory is rejected and the directory stays
        what it was; any other path becomes the directory. */
    method SetConfigDir(path: string, fs: FileSystem) returns (o: Outcome)
      modifies this`configDir
      ensures o == if fs.IsDir(path) then Pass else Fail(NotADirectory(path))
      ensures configDir == if fs.IsDir(path) then path else old(configDir)
    {
      if !fs.IsDir(path) {
        return Fail(NotADirectory(path));
      }
      configDir := path;
      return Pass;
    }

    /** The certificates of the directory, read in full before anything is written. */
    method GetCertificates(fs: FileSystem) returns (r: Result<seq<Certificate>>)
      ensures r == ScanDir(fs, configDir)
    {
      if !fs.Listable(configDir) {
        return Err(ListingFailed(configDir));
      }
      var children := fs.dirs[configDir];
      var certs: seq<Certificate> := [];
      var i := 0;
      assert children[i..] == children;
      assert Scan(configDir, children).Ok? ==> [] + Scan(configDir, children).value == Scan(configDir, children).value;
      while i < |children|
        invariant 0 <= i <= |children|
        invariant Scan(configDir, children) == Prepend(certs, Scan(configDir, children[i..]))
      {
        var child := children[i];
        assert children[i..][1..] == children[i + 1..];
        if child.certFile.Missing? {
          i := i + 1;
          continue;
        }
        if child.certFile.Unreadable? {
          return Err(ReadFailed(CertPath(configDir, child)));
        }
        if child.certFile.Unparsable? {
          return Err(ParseFailed(CertPath(configDir, child)));
        }
        ghost var rest := Scan(configDir, children[i + 1..]);
        assert rest.Ok? ==> certs + ([child.certFile.cert] + rest.value) == (certs + [child.certFile.cert]) + rest.value;
        certs := certs + [child.certFile.cert];
        i := i + 1;
      }
      assert children[i..] == [] && certs + [] == certs;
      return Ok(certs);
    }

    /** One cycle: scan, then write both gauges for each certificate in order. */
    method CollectMetrics(fs: FileSystem, now: int, accepts: (GaugeKind, string) -> bool) returns (o: Outcome)
      modifies this`expirationDays, this`expirationDate
      ensures Step(Snapshot(), o) == Cycle(old(Snapshot()), fs, configDir, now, accepts)
    {
      var scanned := GetCertificates(fs);
      if scanned.Err? {
        return Fail(scanned.error);
      }
      var certificates := scanned.value;
      if certificates == [] {
        return Pass;
      }
      var i := 0;
      while i < |certificates|
        invariant 0 <= i <= |certificates|
        invariant Project(old(Snapshot()), certificates, now, accepts) == Project(Snapshot(), certificates[i..], now, accepts)
      {
        var cert := certificates[i];
        assert certificates[i..][1..] == certificates[i + 1..];
        var expirationInstant := Expiry.ExpirationInstant(cert.notAfterSecs);
        var daysLeft := Expiry.DaysLeft(expirationInstant, now);
        var name := SubjectLabel.CertificateName(cert.subject);
        if !accepts(DaysGauge, name) {
          return Fail(GaugeWriteFailed(name));
        }
        expirationDays := expirationDays[name := daysLeft];
        if !accepts(DateGauge, name) {
          return Fail(GaugeWriteFailed(name));
        }
        expirationDate := expirationDate[name := Expiry.EpochSeconds(expirationInstant)];
        i := i + 1;
      }
      assert certificates[i..] == [];
      return Pass;
    }
  }
}
