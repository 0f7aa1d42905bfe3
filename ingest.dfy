/** Row ingestion in `obtener_incendios`: each FIRMS CSV response is split
    into lines, its header skipped, and every data line turned into a hotspot
    record when its coordinates and its date/time parse; a line that fails
    adds nothing and the loop moves on. */
module Ingest {
  import opened Wrappers
  import opened Text
  import opened Registry
  import opened Classify
  import opened Accumulation

  /** The feeds queried, in order. */
  const Satellites: seq<string> := ["MODIS_NRT", "VIIRS_SNPP_NRT", "VIIRS_NOAA20_NRT"]

  /** The `concesion` of a hotspot that no area contains. */
  const OutsideConcession: string := "Fuera de concesión"

  /** The map colour of a hotspot, by age. */
  datatype Color = Red | Orange | Yellow | Blue {
    /** The colour as written into the record. */
    function Name(): string {
      match this
      case Red => "red"
      case Orange => "orange"
      case Yellow => "yellow"
      case Blue => "blue"
    }
    /** Older hotspots get a higher rank. */
    function Rank(): nat {
      match this
      case Red => 0
      case Orange => 1
      case Yellow => 2
      case Blue => 3
    }
  }

  /** One entry of `base_datos`, the list written to `incendios.json`. */
  datatype Hotspot = Hotspot(
    lat: real,
    lon: real,
    alerta: bool,
    concesion: string,
    sat: string,
    fecha: string,
    horas: real,
    color: Color,
    gtm: string)

  /** What the ingestion calls but does not define: Python's `float()`,
      `datetime.strptime(s, "%Y-%m-%d %H%M")` (to seconds since the epoch),
      shapely's `contains`, `convertir_a_gtm(lon, lat)`, the reading of
      `datetime.utcnow()` taken while line `i` of satellite `k` is processed
      (in seconds), and the HTTP download of one satellite's CSV (`None` when
      the request raises). */
  datatype Foreign<!G> = Foreign(
    parseFloat: string -> Option<real>,
    parseDateTime: string -> Option<real>,
    contains: (G, Point) -> bool,
    toGtm: (real, real) -> string,
    utcNow: (nat, nat) -> real,
    fetch: string -> Option<string>)

  /** The acquisition time after its two reassignments: a 3-character time
      gets one leading zero, and anything that is then not 4 characters long
      becomes midnight. */
  function NormalizeHour(hour: string): (r: string)
    ensures |r| == 4
    ensures |hour| == 3 ==> r == "0" + hour
    ensures |hour| == 4 ==> r == hour
    ensures |hour| != 3 && |hour| != 4 ==> r == "0000"
  {
    var padded := if |hour| == 3 then "0" + hour else hour;
    if |padded| != 4 then "0000" else padded
  }

  predicate IsDigit(c: char) { '0' <= c <= '9' }

  /** Normalising an already normalised time changes nothing, and a time
      written in digits stays in digits. */
  lemma NormalizeHourStable(hour: string)
    ensures NormalizeHour(NormalizeHour(hour)) == NormalizeHour(hour)
    ensures (forall k :: 0 <= k < |hour| ==> IsDigit(hour[k])) ==>
      forall k :: 0 <= k < 4 ==> IsDigit(NormalizeHour(hour)[k])
  {
    if |hour| == 3 && forall k :: 0 <= k < |hour| ==> IsDigit(hour[k]) {
      var r := NormalizeHour(hour);
      assert forall k :: 1 <= k < 4 ==> r[k] == hour[k - 1];
    }
  }

  /** The colour of a hotspot `horas` hours old; each breakpoint belongs to
      the younger colour, and a negative age is red. */
  function ColorFor(horas: real): (c: Color)
    ensures c == Red <==> horas <= 24.0
    ensures c == Orange <==> 24.0 < horas <= 48.0
    ensures c == Yellow <==> 48.0 < horas <= 72.0
    ensures c == Blue <==> 72.0 < horas
  {
    if horas <= 24.0 then Red
    else if horas <= 48.0 then Orange
    else if horas <= 72.0 then Yellow
    else Blue
  }

  /** The colour text written into the record for each age bucket. */
  lemma ColorNameFor(horas: real)
    ensures ColorFor(horas).Name() == "red" <==> horas <= 24.0
    ensures ColorFor(horas).Name() == "orange" <==> 24.0 < horas <= 48.0
    ensures ColorFor(horas).Name() == "yellow" <==> 48.0 < horas <= 72.0
    ensures ColorFor(horas).Name() == "blue" <==> 72.0 < horas
  {
  }

  /** An older hotspot never gets a fresher colour. */
  lemma ColorForMonotone(younger: real, older: real)
    requires younger <= older
    ensures ColorFor(younger).Rank() <= ColorFor(older).Rank()
  {
  }

  /** The record's `fecha`: the date, the 4-character time, and " UTC". */
  function Fecha(date: string, hour: string): string {
    date + " " + NormalizeHour(hour) + " UTC"
  }

  /** The date part of a `fecha` field. */
  function FechaDate(fecha: string): string
    requires |fecha| >= 9
  {
    fecha[..|fecha| - 9]
  }

  /** The time part of a `fecha` field. */
  function FechaHour(fecha: string): string
    requires |fecha| >= 9
  {
    fecha[|fecha| - 8..|fecha| - 4]
  }

  /** Because the time is always 4 characters long, the date and the
      normalised time can be read back from `fecha`. */
  lemma FechaRoundTrip(date: string, hour: string)
    ensures |Fecha(date, hour)| == |date| + 9
    ensures FechaDate(Fecha(date, hour)) == date
    ensures FechaHour(Fecha(date, hour)) == NormalizeHour(hour)
    ensures Fecha(date, hour)[|date| + 5..] == " UTC"
  {
    var f := Fecha(date, hour);
    assert f == date + [' '] + NormalizeHour(hour) + " UTC";
    assert f[..|date|] == date;
    assert f[|date| + 1..|date| + 5] == NormalizeHour(hour);
  }

  /** The hotspot a data line yields. A line yields one exactly when it has
      at least 7 comma-separated fields, its first two fields parse as
      numbers and its date with the normalised time parses; the record then
      holds those coordinates, the satellite, the `fecha` text, the age in
      hours against `now` (the clock read for this line) and its colour, and
      is an alert exactly when some area contains the point, naming the
      first such area in registry order, or "Fuera de concesión" otherwise. */
  function LineRecord<G>(line: string, sat: string, areas: seq<Area<G>>, lib: Foreign<G>, now: real): (r: Option<Hotspot>)
    ensures var col := Split(line, ',');
      r.Some? <==>
        && |col| >= 7
        && lib.parseFloat(col[0]).Some?
        && lib.parseFloat(col[1]).Some?
        && lib.parseDateTime(col[5] + " " + NormalizeHour(col[6])).Some?
    ensures r.Some? ==>
      var col := Split(line, ',');
      var h := r.value;
      && lib.parseFloat(col[0]) == Some(h.lat)
      && lib.parseFloat(col[1]) == Some(h.lon)
      && h.sat == sat
      && h.fecha == Fecha(col[5], col[6])
      && h.horas == (now - lib.parseDateTime(col[5] + " " + NormalizeHour(col[6])).value) / 3600.0
      && h.color == ColorFor(h.horas)
      && (h.alerta <==> exists k :: 0 <= k < |areas| && lib.contains(areas[k].geometry, Point(h.lon, h.lat)))
      && (h.alerta ==> h.concesion == areas[FirstContaining(areas, lib.contains, Point(h.lon, h.lat)).value].name)
      && (!h.alerta ==> h.concesion == OutsideConcession)
      && h.gtm == lib.toGtm(h.lon, h.lat)
  {
    var col := Split(line, ',');
    if |col| < 7 then None
    else match (lib.parseFloat(col[0]), lib.parseFloat(col[1]))
      case (Some(lat), Some(lon)) =>
        var area := FirstContaining(areas, lib.contains, Point(lon, lat));
        var hour := NormalizeHour(col[6]);
        (match lib.parseDateTime(col[5] + " " + hour)
         case None => None
         case Some(t) =>
           var horas := (now - t) / 3600.0;
           Some(Hotspot(
             lat, lon, area.Some?,
             if area.Some? then areas[area.value].name else OutsideConcession,
             sat, col[5] + " " + hour + " UTC", horas, ColorFor(horas), lib.toGtm(lon, lat))))
      case _ => None
  }

  /** A line with fewer than 7 comma-separated fields yields no record. */
  lemma ShortLineRejected<G>(line: string, sat: string, areas: seq<Area<G>>, lib: Foreign<G>, now: real)
    requires |Split(line, ',')| < 7
    ensures LineRecord(line, sat, areas, lib, now) == None
  {
  }

  /** The body of the `try` block for one line: the same record, computed
      step by step as `obtener_incendios` does, reassigning the time and the colour. */
  method AnalyseLine<G>(line: string, sat: string, areas: seq<Area<G>>, lib: Foreign<G>, now: real)
    returns (record: Option<Hotspot>)
    ensures record == LineRecord(line, sat, areas, lib, now)
  {
    var col := Split(line, ',');
    if |col| < 7 {
      return None;
    }
    var latParsed := lib.parseFloat(col[0]);
    var lonParsed := lib.parseFloat(col[1]);
    if latParsed.None? || lonParsed.None? {
      return None;
    }
    var lat, lon := latParsed.value, lonParsed.value;
    var point := Point(lon, lat);
    var inside, areaName := FindArea(areas, lib.contains, point);

    var date := col[5];
    var hour := col[6];
    if |hour| == 3 {
      hour := "0" + hour;
    }
    if |hour| != 4 {
      hour := "0000";
    }
    var acquired := lib.parseDateTime(date + " " + hour);
    if acquired.None? {
      return None;
    }
    var horas := (now - acquired.value) / 3600.0;

    var color := Blue;
    if horas <= 24.0 {
      color := Red;
    } else if horas <= 48.0 {
      color := Orange;
    } else if horas <= 72.0 {
      color := Yellow;
    }

    var gtm := lib.toGtm(lon, lat);
    record := Some(Hotspot(
      lat, lon, inside,
      if inside then areaName.value else OutsideConcession,
      sat, date + " " + hour + " UTC", horas, color, gtm));
  }

  /** `res.text.strip().split('\n')`. */
  function Lines(text: string): (r: seq<string>)
    ensures |r| >= 1
    ensures forall l :: l in r ==> '\n' !in l
    ensures Join(r, '\n') == Strip(text)
  {
    JoinSplit(Strip(text), '\n');
    Split(Strip(text), '\n')
  }

  /** The lines of a satellite's response; none when the request failed. */
  function ResponseLines(response: Option<string>): seq<string> {
    match response
    case None => []
    case Some(text) => Lines(text)
  }

  /** What line `i` of satellite `k`'s response yields, read with the clock
      at `(k, i)`; nothing past the last line or the last satellite. */
  function LineOutcome<G>(sats: seq<string>, areas: seq<Area<G>>, lib: Foreign<G>): (nat, nat) -> Option<Hotspot> {
    (k: nat, i: nat) =>
      if k < |sats| then
        var lines := ResponseLines(lib.fetch(sats[k]));
        if i < |lines| then LineRecord(lines[i], sats[k], areas, lib, lib.utcNow(k, i)) else None
      else None
  }

  /** How many lines satellite `k`'s response has (none when it failed). */
  function LineCount<G>(sats: seq<string>, lib: Foreign<G>): nat -> nat {
    (k: nat) => if k < |sats| then |ResponseLines(lib.fetch(sats[k]))| else 0
  }

  /** `base_datos` after the loops have gone through the first `n` satellites. */
  function BaseDatos<G>(sats: seq<string>, n: nat, areas: seq<Area<G>>, lib: Foreign<G>): seq<Hotspot> {
    AllRows(LineOutcome(sats, areas, lib), LineCount(sats, lib), n)
  }

  /** Every record of `base_datos` is the record of a data line (line 1 or
      later, never the CSV header) of one satellite's response and carries
      that satellite's name; records come in satellite order, then line
      order; every data line that yields a record contributes it. */
  lemma BaseDatosOrigins<G>(sats: seq<string>, areas: seq<Area<G>>, lib: Foreign<G>)
    ensures var rs := BaseDatos(sats, |sats|, areas, lib);
      var os := Origins(LineOutcome(sats, areas, lib), LineCount(sats, lib), |sats|);
      && |os| == |rs|
      && (forall p :: 0 <= p < |os| ==>
            && os[p].0 < |sats|
            && var lines := ResponseLines(lib.fetch(sats[os[p].0]));
            && 1 <= os[p].1 < |lines|
            && LineRecord(lines[os[p].1], sats[os[p].0], areas, lib, lib.utcNow(os[p].0, os[p].1)) == Some(rs[p])
            && rs[p].sat == sats[os[p].0])
      && (forall p, q :: 0 <= p < q < |os| ==> Before(os[p], os[q]))
      && (forall k: nat, i: nat :: k < |sats| && 1 <= i < |ResponseLines(lib.fetch(sats[k]))|
            && LineRecord(ResponseLines(lib.fetch(sats[k]))[i], sats[k], areas, lib, lib.utcNow(k, i)).Some?
            ==> (k, i) in os)
  {
    var outcome, count := LineOutcome(sats, areas, lib), LineCount(sats, lib);
    OriginsSound(outcome, count, |sats|);
    var rs := BaseDatos(sats, |sats|, areas, lib);
    var os := Origins(outcome, count, |sats|);
    forall p | 0 <= p < |os|
      ensures os[p].0 < |sats|
      ensures var lines := ResponseLines(lib.fetch(sats[os[p].0]));
        && 1 <= os[p].1 < |lines|
        && LineRecord(lines[os[p].1], sats[os[p].0], areas, lib, lib.utcNow(os[p].0, os[p].1)) == Some(rs[p])
        && rs[p].sat == sats[os[p].0]
    {
      var k, i := os[p].0, os[p].1;
      var lines := ResponseLines(lib.fetch(sats[k]));
      assert outcome(k, i) == Some(rs[p]);
    }
    forall k: nat, i: nat | k < |sats| && 1 <= i < |ResponseLines(lib.fetch(sats[k]))|
        && LineRecord(ResponseLines(lib.fetch(sats[k]))[i], sats[k], areas, lib, lib.utcNow(k, i)).Some?
      ensures (k, i) in os
    {
      assert count(k) == |ResponseLines(lib.fetch(sats[k]))|;
      assert outcome(k, i).Some?;
    }
  }

  /** A data line that fails adds nothing to `base_datos` and does not stop
      the lines after it. */
  lemma FailedLineSkipped<G>(sats: seq<string>, k: nat, i: nat, areas: seq<Area<G>>, lib: Foreign<G>)
    requires k < |sats|
    requires 1 <= i < |ResponseLines(lib.fetch(sats[k]))|
    requires LineRecord(ResponseLines(lib.fetch(sats[k]))[i], sats[k], areas, lib, lib.utcNow(k, i)).None?
    ensures var outcome, count := LineOutcome(sats, areas, lib), LineCount(sats, lib);
      Rows(outcome, count, k) == Collect(outcome, k, 1, i) + Collect(outcome, k, i + 1, count(k))
  {
    var outcome, count := LineOutcome(sats, areas, lib), LineCount(sats, lib);
    assert outcome(k, i).None?;
    CollectSkipsFailure(outcome, k, 1, i, count(k));
  }
}
