/** The end of `obtener_incendios`: the hotspots inside a concession
    (`alertas`), the `FORCE_REPORT` switch, and the choice between the alert
    email, the forced status report, and sending nothing. */
module Report {
  import opened Wrappers
  import opened Text
  import opened Ingest

  /** What the run sends: the alert email listing the alerts, the status
      report drawing every analysed hotspot on the map, or nothing. */
  datatype Decision = AlertEmail(alertas: seq<Hotspot>) | StatusReport(points: seq<Hotspot>) | NoEmail

  /** `[p for p in base_datos if p['alerta']]`. */
  function Alerts(base: seq<Hotspot>): (r: seq<Hotspot>)
    ensures |r| <= |base|
    ensures forall h :: h in r <==> h in base && h.alerta
    decreases |base|
  {
    if base == [] then [] else
      var init, last := base[..|base| - 1], base[|base| - 1];
      assert base == init + [last];
      Alerts(init) + (if last.alerta then [last] else [])
  }

  /** The filter keeps the original order: filtering a concatenation is
      concatenating the filtered parts (with the one-element case, which
      keeps an alert and drops anything else, this fixes `Alerts` uniquely). */
  lemma {:induction false} AlertsAppend(a: seq<Hotspot>, b: seq<Hotspot>)
    ensures Alerts(a + b) == Alerts(a) + Alerts(b)
    decreases |b|
  {
    if b != [] {
      var init, last := b[..|b| - 1], b[|b| - 1];
      var ab := a + b;
      assert ab[..|ab| - 1] == a + init && ab[|ab| - 1] == last;
      var kept := if last.alerta then [last] else [];
      assert Alerts(ab) == Alerts(a + init) + kept;
      assert Alerts(b) == Alerts(init) + kept;
      AlertsAppend(a, init);
      assert Alerts(ab) == Alerts(a) + Alerts(init) + kept;
    } else {
      assert a + b == a;
    }
  }

  /** A single hotspot is kept exactly when it is an alert. */
  lemma AlertsSingle(h: Hotspot)
    ensures Alerts([h]) == if h.alerta then [h] else []
  {
    assert [h][..0] == [];
  }

  /** Filtering twice is filtering once. */
  lemma {:induction false} AlertsIdempotent(base: seq<Hotspot>)
    ensures Alerts(Alerts(base)) == Alerts(base)
    decreases |base|
  {
    if base != [] {
      var init, last := base[..|base| - 1], base[|base| - 1];
      var kept := if last.alerta then [last] else [];
      assert Alerts(base) == Alerts(init) + kept;
      AlertsIdempotent(init);
      AlertsAppend(Alerts(init), kept);
      AlertsSingle(last);
    }
  }

  /** `os.environ.get("FORCE_REPORT", "false").lower() == "true"`, with the
      variable's value given (`None` when it is unset). */
  function ForceReport(env: Option<string>): bool {
    Lower(env.GetOr("false")) == "true"
  }

  /** The report is forced exactly when the variable is set to "true" in any
      letter case; an unset variable never forces it. */
  lemma ForceReportMeaning(env: Option<string>)
    ensures ForceReport(env) <==> env.Some? && SameLettersAnyCase(env.value, "true")
  {
    LowerEqualsWord(env.GetOr("false"), "true");
    if env.None? {
      assert Lower("false")[0] == 'f';
    }
  }

  /** The branch taken after the loops: the alert email when some hotspot is
      inside a concession, listing exactly the alerts in order; otherwise the
      status report with every hotspot when it is forced; otherwise nothing.
      The three outcomes exclude each other. */
  function Decide(base: seq<Hotspot>, env: Option<string>): (d: Decision)
    ensures d.AlertEmail? <==> exists p :: 0 <= p < |base| && base[p].alerta
    ensures d.AlertEmail? ==> d.alertas == Alerts(base) && d.alertas != []
    ensures d.StatusReport? <==> (forall p :: 0 <= p < |base| ==> !base[p].alerta) && ForceReport(env)
    ensures d.StatusReport? ==> d.points == base
    ensures d.NoEmail? <==> (forall p :: 0 <= p < |base| ==> !base[p].alerta) && !ForceReport(env)
  {
    var alertas := Alerts(base);
    assert alertas != [] <==> exists p :: 0 <= p < |base| && base[p].alerta by {
      if alertas != [] {
        assert alertas[0] in alertas;
      }
      if exists p :: 0 <= p < |base| && base[p].alerta {
        var p :| 0 <= p < |base| && base[p].alerta;
        assert base[p] in alertas;
      }
    }
    if alertas != [] then AlertEmail(alertas)
    else if ForceReport(env) then StatusReport(base)
    else NoEmail
  }
}
