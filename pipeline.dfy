/** `obtener_incendios` as one run: load the registry, go through every
    satellite's response line by line, then decide what to send. Writing
    `incendios.json`, the log messages and sending the email are left to the
    caller, which receives `base_datos` and the decision. */
module Pipeline {
  import opened Wrappers
  import opened Text
  import opened Registry
  import opened Accumulation
  import opened Ingest
  import opened Report

  /** The inner loop over one satellite's lines, header skipped: each line
      that yields a record appends it to `base_datos`. */
  method ReadResponse<G>(baseDatos: seq<Hotspot>, lines: seq<string>, sats: seq<string>, k: nat, areas: seq<Area<G>>, lib: Foreign<G>)
    returns (extended: seq<Hotspot>)
    requires k < |sats| && lines == ResponseLines(lib.fetch(sats[k])) && |lines| > 1
    ensures extended == baseDatos + Rows(LineOutcome(sats, areas, lib), LineCount(sats, lib), k)
  {
    ghost var outcome := LineOutcome(sats, areas, lib);
    assert LineCount(sats, lib)(k) == |lines|;
    extended := baseDatos;
    for i := 1 to |lines|
      invariant extended == baseDatos + Collect(outcome, k, 1, i)
    {
      var record := AnalyseLine(lines[i], sats[k], areas, lib, lib.utcNow(k, i));
      assert outcome(k, i) == record;
      if record.Some? {
        extended := extended + [record.value];
      }
    }
  }

  /** One pass of the outer loop: satellite `k`'s response is downloaded
      and, when it succeeded and has data lines, its records are appended. */
  method ReadSatellite<G>(baseDatos: seq<Hotspot>, sats: seq<string>, k: nat, areas: seq<Area<G>>, lib: Foreign<G>)
    returns (extended: seq<Hotspot>)
    requires k < |sats|
    ensures extended == baseDatos + Rows(LineOutcome(sats, areas, lib), LineCount(sats, lib), k)
  {
    ghost var count := LineCount(sats, lib);
    var response := lib.fetch(sats[k]);
    extended := baseDatos;
    if response.Some? {
      var lines := Lines(response.value);
      if |lines| > 1 {
        extended := ReadResponse(baseDatos, lines, sats, k, areas, lib);
      } else {
        assert count(k) == |lines|;
      }
    } else {
      assert count(k) == 0;
    }
  }

  /** The outer loop over the satellites, in order. */
  method ReadSatellites<G>(sats: seq<string>, areas: seq<Area<G>>, lib: Foreign<G>) returns (baseDatos: seq<Hotspot>)
    ensures baseDatos == BaseDatos(sats, |sats|, areas, lib)
  {
    baseDatos := [];
    for k := 0 to |sats|
      invariant baseDatos == BaseDatos(sats, k, areas, lib)
    {
      baseDatos := ReadSatellite(baseDatos, sats, k, areas, lib);
    }
  }

  /** The whole run: the records of every satellite, in order, and the
      decision taken on them. */
  method ObtainFires<G>(features: seq<Feature<G>>, lib: Foreign<G>, forceReport: Option<string>)
    returns (baseDatos: seq<Hotspot>, decision: Decision)
    ensures baseDatos == BaseDatos(Satellites, |Satellites|, BuildRegistry(features), lib)
    ensures decision == Decide(baseDatos, forceReport)
  {
    var areas := LoadAreas(features);
    baseDatos := ReadSatellites(Satellites, areas, lib);
    decision := ChooseEmail(baseDatos, forceReport);
  }

  /** The branch after the loops: alert email, forced status report, or nothing. */
  method ChooseEmail(baseDatos: seq<Hotspot>, forceReport: Option<string>) returns (decision: Decision)
    ensures decision == Decide(baseDatos, forceReport)
  {
    var alertas := Alerts(baseDatos);
    var force := ForceReport(forceReport);
    if alertas != [] {
      decision := AlertEmail(alertas);
    } else if force {
      decision := StatusReport(baseDatos);
    } else {
      decision := NoEmail;
    }
  }
}
