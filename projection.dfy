/** What one collection cycle does to the two gauges once the certificates are in hand.
    A gauge is modelled by its label map, from certificate name to value: the days
    gauge (`certbot_certificate_expiration`) and the date gauge
    (`certbot_certificate_expiration_date`). Whether a gauge accepts a write under a
    name is decided outside the model and given as `accepts`. */
module Projection {
  import opened Errors
  import opened CertStore
  import Expiry
  import SubjectLabel

  datatype GaugeKind = DaysGauge | DateGauge

  datatype Gauges = Gauges(days: map<string, int>, dates: map<string, int>)

  /** The gauges after some writes, and whether the writes all went through. */
  datatype Step = Step(gauges: Gauges, outcome: Outcome)

  /** The label a certificate is recorded under. */
  function Name(cert: Certificate): (name: string)
    ensures |name| < |cert.subject| <==> SubjectLabel.Occurs(cert.subject, SubjectLabel.CommonNameTag)
  {
    SubjectLabel.CertificateName(cert.subject)
  }

  /** The value written to the days gauge: negative exactly once the certificate has
      expired. */
  function DaysValue(cert: Certificate, now: int): (days: int)
    ensures days < 0 <==> cert.notAfterSecs * Expiry.MicrosPerSecond < now
  {
    Expiry.DaysLeftSign(Expiry.ExpirationInstant(cert.notAfterSecs), now);
    Expiry.DaysLeft(Expiry.ExpirationInstant(cert.notAfterSecs), now)
  }

  /** The value written to the date gauge: the certificate's expiry second. */
  function DateValue(cert: Certificate): (secs: int)
    ensures secs == cert.notAfterSecs
  {
    Expiry.EpochSecondsOfExpiration(cert.notAfterSecs);
    Expiry.EpochSeconds(Expiry.ExpirationInstant(cert.notAfterSecs))
  }

  predicate Accepted(cert: Certificate, accepts: (GaugeKind, string) -> bool)
  {
    accepts(DaysGauge, Name(cert)) && accepts(DateGauge, Name(cert))
  }

  /** One pass of the loop body: the days gauge is written, then the date gauge; a
      refused write ends the pass, and a days value already written stays. */
  function Record(g: Gauges, cert: Certificate, now: int, accepts: (GaugeKind, string) -> bool): (r: Step)
    ensures r.outcome.Pass? <==> Accepted(cert, accepts)
    ensures r.outcome.Fail? ==> r.outcome.error == GaugeWriteFailed(Name(cert))
    ensures r.gauges.days == if accepts(DaysGauge, Name(cert)) then g.days[Name(cert) := DaysValue(cert, now)] else g.days
    ensures r.gauges.dates == if Accepted(cert, accepts) then g.dates[Name(cert) := cert.notAfterSecs] else g.dates
  {
    var name := Name(cert);
    if !accepts(DaysGauge, name) then Step(g, Fail(GaugeWriteFailed(name)))
    else
      var g' := g.(days := g.days[name := DaysValue(cert, now)]);
      if !accepts(DateGauge, name) then Step(g', Fail(GaugeWriteFailed(name)))
      else Step(g'.(dates := g.dates[name := DateValue(cert)]), Pass)
  }

  /** The loop over the certificates, in order, stopping at the first refused write. */
  function Project(g: Gauges, certs: seq<Certificate>, now: int, accepts: (GaugeKind, string) -> bool): (r: Step)
    ensures g.days.Keys <= r.gauges.days.Keys && g.dates.Keys <= r.gauges.dates.Keys
    ensures r.outcome.Fail? ==> r.outcome.error.GaugeWriteFailed?
    decreases |certs|
  {
    if certs == [] then Step(g, Pass)
    else
      var s := Record(g, certs[0], now, accepts);
      if s.outcome.Fail? then s else Project(s.gauges, certs[1..], now, accepts)
  }

  /** The names of a list of certificates. */
  function Names(certs: seq<Certificate>): set<string>
  {
    set i | 0 <= i < |certs| :: Name(certs[i])
  }

  /** Certificate `i` is the last one in the list with its name. */
  predicate LastWithName(certs: seq<Certificate>, i: int)
  {
    0 <= i < |certs| && forall j :: i < j < |certs| ==> Name(certs[j]) != Name(certs[i])
  }

  /** Certificate `k` is the first one a gauge refuses. */
  predicate FirstRefusedAt(certs: seq<Certificate>, k: int, accepts: (GaugeKind, string) -> bool)
  {
    0 <= k < |certs| && !Accepted(certs[k], accepts)
    && forall j :: 0 <= j < k ==> Accepted(certs[j], accepts)
  }

  /** What a cycle writes to the days gauge, independent of what the gauge held. */
  function DaysWritten(certs: seq<Certificate>, now: int, accepts: (GaugeKind, string) -> bool): map<string, int>
  {
    if certs == [] || !accepts(DaysGauge, Name(certs[0])) then map[]
    else if !accepts(DateGauge, Name(certs[0])) then map[Name(certs[0]) := DaysValue(certs[0], now)]
    else map[Name(certs[0]) := DaysValue(certs[0], now)] + DaysWritten(certs[1..], now, accepts)
  }

  /** What a cycle writes to the date gauge, independent of what the gauge held. */
  function DatesWritten(certs: seq<Certificate>, accepts: (GaugeKind, string) -> bool): map<string, int>
  {
    if certs == [] || !Accepted(certs[0], accepts) then map[]
    else map[Name(certs[0]) := DateValue(certs[0])] + DatesWritten(certs[1..], accepts)
  }

  lemma OverrideUpdate(m: map<string, int>, k: string, v: int, w: map<string, int>)
    ensures m[k := v] + w == m + (map[k := v] + w)
  {
  }

  /** A cycle overrides each gauge with what it writes and keeps nothing else from its
      own history: no entry is removed, none is aggregated. */
  lemma {:induction false} ProjectIsOverride(g: Gauges, certs: seq<Certificate>, now: int, accepts: (GaugeKind, string) -> bool)
    ensures Project(g, certs, now, accepts).gauges.days == g.days + DaysWritten(certs, now, accepts)
    ensures Project(g, certs, now, accepts).gauges.dates == g.dates + DatesWritten(certs, accepts)
    decreases |certs|
  {
    if certs != [] {
      var name := Name(certs[0]);
      var s := Record(g, certs[0], now, accepts);
      if s.outcome.Pass? {
        ProjectIsOverride(s.gauges, certs[1..], now, accepts);
        OverrideUpdate(g.days, name, DaysValue(certs[0], now), DaysWritten(certs[1..], now, accepts));
        OverrideUpdate(g.dates, name, DateValue(certs[0]), DatesWritten(certs[1..], accepts));
      }
    }
  }

  /** A cycle writes only under the names of its certificates. */
  lemma {:induction false} WrittenNames(certs: seq<Certificate>, now: int, accepts: (GaugeKind, string) -> bool)
    ensures DaysWritten(certs, now, accepts).Keys <= Names(certs)
    ensures DatesWritten(certs, accepts).Keys <= Names(certs)
  {
    DaysWrittenNames(certs, now, accepts);
    DatesWrittenNames(certs, accepts);
  }

  lemma {:induction false} DaysWrittenNames(certs: seq<Certificate>, now: int, accepts: (GaugeKind, string) -> bool)
    ensures DaysWritten(certs, now, accepts).Keys <= Names(certs)
  {
    if certs != [] && accepts(DaysGauge, Name(certs[0])) {
      var n := Name(certs[0]);
      DaysWrittenNames(certs[1..], now, accepts);
      NamesCons(certs);
      assert DaysWritten(certs, now, accepts).Keys <= {n} + DaysWritten(certs[1..], now, accepts).Keys;
    }
  }

  lemma {:induction false} DatesWrittenNames(certs: seq<Certificate>, accepts: (GaugeKind, string) -> bool)
    ensures DatesWritten(certs, accepts).Keys <= Names(certs)
  {
    if certs != [] && Accepted(certs[0], accepts) {
      var n := Name(certs[0]);
      DatesWrittenNames(certs[1..], accepts);
      NamesCons(certs);
      assert DatesWritten(certs, accepts).Keys == {n} + DatesWritten(certs[1..], accepts).Keys;
    }
  }

  /** Whatever happens in a cycle, a name none of its certificates carries keeps its
      entry in both gauges, with its value, or stays absent: a certificate that is gone
      from the store leaves its last values behind. */
  lemma ProjectKeepsOtherNames(g: Gauges, certs: seq<Certificate>, now: int, accepts: (GaugeKind, string) -> bool, name: string)
    requires name !in Names(certs)
    ensures var r := Project(g, certs, now, accepts).gauges;
      && (name in r.days <==> name in g.days) && (name in g.days ==> r.days[name] == g.days[name])
      && (name in r.dates <==> name in g.dates) && (name in g.dates ==> r.dates[name] == g.dates[name])
  {
    ProjectIsOverride(g, certs, now, accepts);
    WrittenNames(certs, now, accepts);
  }

  lemma NamesCons(certs: seq<Certificate>)
    requires certs != []
    ensures Names(certs) == {Name(certs[0])} + Names(certs[1..])
  {
    var rest := certs[1..];
    forall n | n in Names(certs) ensures n in {Name(certs[0])} + Names(rest) {
      var i :| 0 <= i < |certs| && Name(certs[i]) == n;
      if i > 0 {
        assert Name(rest[i - 1]) == n;
      }
    }
    forall n | n in Names(rest) ensures n in Names(certs) {
      var i :| 0 <= i < |rest| && Name(rest[i]) == n;
      assert certs[i + 1] == rest[i];
    }
  }

  /** When every write is accepted, a cycle writes under every name of its certificates. */
  lemma {:induction false} WrittenKeysWhenAllAccepted(certs: seq<Certificate>, now: int, accepts: (GaugeKind, string) -> bool)
    requires forall i :: 0 <= i < |certs| ==> Accepted(certs[i], accepts)
    ensures DaysWritten(certs, now, accepts).Keys == Names(certs)
    ensures DatesWritten(certs, accepts).Keys == Names(certs)
  {
    if certs != [] {
      var rest := certs[1..];
      assert forall i :: 0 <= i < |rest| ==> rest[i] == certs[i + 1];
      WrittenKeysWhenAllAccepted(rest, now, accepts);
      NamesCons(certs);
    }
  }

  /** The last certificate with a name is the first one with it in the rest of the list,
      so its name is not among the names after it. */
  lemma LastNameNotLater(certs: seq<Certificate>)
    requires LastWithName(certs, 0)
    ensures Name(certs[0]) !in Names(certs[1..])
  {
    var rest := certs[1..];
    forall j | 0 <= j < |rest| ensures Name(rest[j]) != Name(certs[0]) {
      assert rest[j] == certs[j + 1];
    }
  }

  /** When every write is accepted, each name of the cycle ends up in the days gauge
      with the value of the last certificate in the list that carries it. */
  lemma {:induction false} DaysWrittenLast(certs: seq<Certificate>, now: int, accepts: (GaugeKind, string) -> bool, i: int)
    requires forall i :: 0 <= i < |certs| ==> Accepted(certs[i], accepts)
    requires LastWithName(certs, i)
    ensures Name(certs[i]) in DaysWritten(certs, now, accepts)
    ensures DaysWritten(certs, now, accepts)[Name(certs[i])] == DaysValue(certs[i], now)
  {
    var rest := certs[1..];
    var n := Name(certs[0]);
    assert Accepted(certs[0], accepts);
    assert DaysWritten(certs, now, accepts) == map[n := DaysValue(certs[0], now)] + DaysWritten(rest, now, accepts);
    if i == 0 {
      LastNameNotLater(certs);
      DaysWrittenNames(rest, now, accepts);
    } else {
      assert LastWithName(rest, i - 1) by {
        forall j | i - 1 < j < |rest| ensures Name(rest[j]) != Name(rest[i - 1]) {
          assert rest[j] == certs[j + 1] && rest[i - 1] == certs[i];
        }
      }
      assert forall j :: 0 <= j < |rest| ==> Accepted(rest[j], accepts) by {
        forall j | 0 <= j < |rest| ensures Accepted(rest[j], accepts) {
          assert rest[j] == certs[j + 1];
        }
      }
      DaysWrittenLast(rest, now, accepts, i - 1);
      assert rest[i - 1] == certs[i];
    }
  }

  /** The same for the date gauge. */
  lemma {:induction false} DatesWrittenLast(certs: seq<Certificate>, accepts: (GaugeKind, string) -> bool, i: int)
    requires forall i :: 0 <= i < |certs| ==> Accepted(certs[i], accepts)
    requires LastWithName(certs, i)
    ensures Name(certs[i]) in DatesWritten(certs, accepts)
    ensures DatesWritten(certs, accepts)[Name(certs[i])] == DateValue(certs[i])
  {
    var rest := certs[1..];
    var n := Name(certs[0]);
    assert Accepted(certs[0], accepts);
    assert DatesWritten(certs, accepts) == map[n := DateValue(certs[0])] + DatesWritten(rest, accepts);
    if i == 0 {
      LastNameNotLater(certs);
      DatesWrittenNames(rest, accepts);
    } else {
      assert LastWithName(rest, i - 1) by {
        forall j | i - 1 < j < |rest| ensures Name(rest[j]) != Name(rest[i - 1]) {
          assert rest[j] == certs[j + 1] && rest[i - 1] == certs[i];
        }
      }
      assert forall j :: 0 <= j < |rest| ==> Accepted(rest[j], accepts) by {
        forall j | 0 <= j < |rest| ensures Accepted(rest[j], accepts) {
          assert rest[j] == certs[j + 1];
        }
      }
      DatesWrittenLast(rest, accepts, i - 1);
      assert rest[i - 1] == certs[i];
    }
  }

  /** A cycle whose writes are all accepted adds every name of its certificates to both
      gauges, and a name carried by several certificates gets the later one's values. */
  lemma ProjectAllAccepted(g: Gauges, certs: seq<Certificate>, now: int, accepts: (GaugeKind, string) -> bool)
    requires forall i :: 0 <= i < |certs| ==> Accepted(certs[i], accepts)
    ensures var r := Project(g, certs, now, accepts).gauges;
      && r.days.Keys == g.days.Keys + Names(certs)
      && r.dates.Keys == g.dates.Keys + Names(certs)
      && forall i :: LastWithName(certs, i) ==>
           r.days[Name(certs[i])] == DaysValue(certs[i], now) && r.dates[Name(certs[i])] == DateValue(certs[i])
  {
    ProjectIsOverride(g, certs, now, accepts);
    WrittenKeysWhenAllAccepted(certs, now, accepts);
    forall i | LastWithName(certs, i)
      ensures Name(certs[i]) in DaysWritten(certs, now, accepts)
      ensures DaysWritten(certs, now, accepts)[Name(certs[i])] == DaysValue(certs[i], now)
      ensures Name(certs[i]) in DatesWritten(certs, accepts)
      ensures DatesWritten(certs, accepts)[Name(certs[i])] == DateValue(certs[i])
    {
      DaysWrittenLast(certs, now, accepts, i);
      DatesWrittenLast(certs, accepts, i);
    }
  }

  /** A cycle reports success exactly when every write is accepted; otherwise it
      reports the name of the first certificate a gauge refused. */
  lemma {:induction false} ProjectOutcome(g: Gauges, certs: seq<Certificate>, now: int, accepts: (GaugeKind, string) -> bool)
    ensures Project(g, certs, now, accepts).outcome.Pass? <==> forall i :: 0 <= i < |certs| ==> Accepted(certs[i], accepts)
    ensures forall k :: FirstRefusedAt(certs, k, accepts) ==>
      Project(g, certs, now, accepts).outcome == Fail(GaugeWriteFailed(Name(certs[k])))
    decreases |certs|
  {
    if certs != [] {
      var rest := certs[1..];
      var s := Record(g, certs[0], now, accepts);
      ProjectOutcome(s.gauges, rest, now, accepts);
      assert forall i :: 0 <= i < |rest| ==> rest[i] == certs[i + 1];
      forall k | FirstRefusedAt(certs, k, accepts)
        ensures Project(g, certs, now, accepts).outcome == Fail(GaugeWriteFailed(Name(certs[k])))
      {
        if k > 0 {
          assert FirstRefusedAt(rest, k - 1, accepts);
        }
      }
    }
  }

  /** A refused write aborts the rest of the loop, but what was written before it stays:
      the gauges are those of the certificates before the refused one, plus its days
      value if only the date gauge refused it. */
  lemma {:induction false} ProjectStopsAtRefusal(g: Gauges, certs: seq<Certificate>, now: int, accepts: (GaugeKind, string) -> bool, k: nat)
    requires FirstRefusedAt(certs, k, accepts)
    ensures Project(g, certs, now, accepts) == Record(Project(g, certs[..k], now, accepts).gauges, certs[k], now, accepts)
    decreases |certs|
  {
    if k > 0 {
      var rest := certs[1..];
      var s := Record(g, certs[0], now, accepts);
      assert Accepted(certs[0], accepts);
      assert FirstRefusedAt(rest, k - 1, accepts) by {
        assert forall i :: 0 <= i < |rest| ==> rest[i] == certs[i + 1];
      }
      ProjectStopsAtRefusal(s.gauges, rest, now, accepts, k - 1);
      var prefix := certs[..k];
      assert prefix[0] == certs[0] && prefix[1..] == rest[..k - 1];
      assert Project(g, prefix, now, accepts) == Project(s.gauges, rest[..k - 1], now, accepts);
      assert Project(g, certs, now, accepts) == Project(s.gauges, rest, now, accepts);
      assert rest[k - 1] == certs[k];
    }
  }

  /** The outcome of a cycle does not depend on what the gauges held before. */
  lemma {:induction false} ProjectOutcomeIgnoresGauges(g1: Gauges, g2: Gauges, certs: seq<Certificate>, now: int, accepts: (GaugeKind, string) -> bool)
    ensures Project(g1, certs, now, accepts).outcome == Project(g2, certs, now, accepts).outcome
    decreases |certs|
  {
    if certs != [] {
      ProjectOutcomeIgnoresGauges(Record(g1, certs[0], now, accepts).gauges, Record(g2, certs[0], now, accepts).gauges, certs[1..], now, accepts);
    }
  }

  /** Running the same cycle twice, with the same certificates and clock, leaves the
      gauges and the outcome as running it once. */
  lemma ProjectIdempotent(g: Gauges, certs: seq<Certificate>, now: int, accepts: (GaugeKind, string) -> bool)
    ensures var once := Project(g, certs, now, accepts);
      Project(once.gauges, certs, now, accepts) == once
  {
    var once := Project(g, certs, now, accepts);
    ProjectIsOverride(g, certs, now, accepts);
    ProjectIsOverride(once.gauges, certs, now, accepts);
    ProjectOutcomeIgnoresGauges(g, once.gauges, certs, now, accepts);
    var w := DaysWritten(certs, now, accepts);
    var v := DatesWritten(certs, accepts);
    assert (g.days + w) + w == g.days + w;
    assert (g.dates + v) + v == g.dates + v;
  }
}
