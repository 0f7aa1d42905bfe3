# Alerta Paxbán — hotspot ingestion and alert decision, in Dafny

This project models the core of `actualizar_paxban.py`. That script downloads
NASA FIRMS thermal-anomaly CSV feeds for three satellites and checks every
hotspot against the forest-concession polygons of a GeoJSON file. It builds
the `base_datos` list that is written to `incendios.json`, and then decides
whether to send an alert email, a forced status report, or nothing.

The model covers four parts of the script:

- `cargar_concesiones` builds the insertion-ordered concession dict. In the
  model that dict is a sequence of areas whose names are all different, and
  a stored key keeps its place when it is overwritten. (`Registry`)
- the per-line work of `obtener_incendios` (`Text`, `Classify`, `Ingest`):
  - splitting each response into lines and skipping the header;
  - splitting a line into fields;
  - the first-match containment loop over the concessions;
  - normalising the acquisition time;
  - the age in hours and the colour bucket;
  - the record that gets appended, and dropping any line whose
    number or date parse fails.
- the two loops, over satellites and over lines, which produce `base_datos`
  in order. Generic lemmas in `Accumulation` prove where every record came
  from and in what order. (`Accumulation`, `Pipeline`)
- the `alertas` filter and the choice between the alert email, the forced
  status report and no email, with the `FORCE_REPORT` variable read as
  Python reads it. (`Report`)

The calls the core makes into library code are fields of `Ingest.Foreign`:
- `float()`;
- `datetime.strptime`;
- shapely's `contains`;
- the clock reading taken for each line;
- the HTTP download.

The script's own `convertir_a_gtm` (pyproj) is kept abstract there as
well. A call that can raise returns an `Option`. The concession geometry
is a type parameter `G`.

Two behaviours of the script are worth stating plainly:
- The acquisition time is first normalised:
  - a 3-character time gets a leading zero;
  - any other length that is not 4 becomes "0000", that is midnight;
  - this includes the empty time and times of 5 or more characters.

  Only a 4-character time that `strptime` then rejects drops the row.
- A GeoJSON file with zero features is not an error. The run goes on
  with an empty registry.

## Model

| member | source | states |
|---|---|---|
| Registry.Put | actualizar_paxban.py:143 | `dict[name] = geometry`: an existing key keeps its position and takes the new geometry; a new key is appended last; names stay distinct; the key set is the old one plus `name` |
| Registry.BuildRegistry | actualizar_paxban.py:138-144 | the registry after the loop of `cargar_concesiones` holds no duplicate names |
| Registry.LoadAreas | actualizar_paxban.py:136-144 | the imperative loop stores every feature in order, with a missing `Name` replaced by "Área desconocida", and yields exactly `BuildRegistry(features)` |
| Registry.BuildRegistryNames | actualizar_paxban.py:141-143 | the registry has a key exactly when some feature carries that name |
| Registry.BuildRegistryLastWins | actualizar_paxban.py:141-143 | the last feature carrying a name decides that name's geometry |
| Registry.BuildRegistryOrder | actualizar_paxban.py:141-143 | keys are ordered by the first feature naming them: if area a precedes area b, a feature naming a comes before any feature naming b |
| Classify.FirstContaining | actualizar_paxban.py:174-178 | the result is the first area in registry order whose polygon contains the point, or none when no polygon contains it |
| Classify.FindArea | actualizar_paxban.py:171-178 | the loop with `break` sets `esta_dentro` exactly when some area contains the point, and the name is the first such area's name, or `None` |
| Ingest.NormalizeHour | actualizar_paxban.py:184-185 | the time is always 4 characters: a 3-character time gets a leading zero, a 4-character one is kept, anything else becomes "0000" |
| Ingest.NormalizeHourStable | actualizar_paxban.py:184-185 | normalising twice changes nothing, and a time made of digits stays made of digits |
| Ingest.ColorFor | actualizar_paxban.py:191-197 | red exactly when the age is at most 24 h, orange for (24, 48], yellow for (48, 72], blue beyond 72 h |
| Ingest.ColorNameFor | actualizar_paxban.py:191-197 | the colour text stored in the record is "red" exactly when the age is at most 24 h, "orange" for (24, 48], "yellow" for (48, 72] and "blue" beyond 72 h |
| Ingest.ColorForMonotone | actualizar_paxban.py:191-197 | an older hotspot never gets a fresher colour than a younger one |
| Ingest.FechaRoundTrip | actualizar_paxban.py:208 | the `fecha` text is the date, a space, the normalised time and " UTC", and date and time can be read back from it |
| Ingest.LineRecord | actualizar_paxban.py:166-212 | a line yields a record exactly when it has at least 7 fields, both coordinates parse and the date with the normalised time parses; the record's coordinates, satellite, `fecha`, age against the line's clock reading, colour, GTM text, `alerta` (some area contains the point) and `concesion` (the first such area, else "Fuera de concesión") are then fixed |
| Ingest.ShortLineRejected | actualizar_paxban.py:167 | a line with fewer than 7 comma-separated fields yields no record |
| Ingest.AnalyseLine | actualizar_paxban.py:166-212 | the step-by-step body of the `try` block, with the reassigned time, the colour `if` chain and the containment loop, computes the same record as `LineRecord` (the failed parse is the `None` case) |
| Ingest.Lines | actualizar_paxban.py:162 | a response splits into at least one line, no line contains a newline, and joining the lines with newlines gives back the stripped text |
| Ingest.BaseDatosOrigins | actualizar_paxban.py:155-215 | every record of `base_datos` is the record of a data line (never the header) of one satellite and carries that satellite's name; records come in satellite order, then line order; every data line that yields a record contributes it |
| Ingest.FailedLineSkipped | actualizar_paxban.py:213-215 | a line whose parse fails adds nothing, and the lines after it are still processed |
| Accumulation.OriginsSound | actualizar_paxban.py:163-164 | for any per-line outcome, the collected rows come one to one from successful lines numbered 1 or more, in lexicographic (satellite, line) order, with none missing |
| Accumulation.CollectSkipsFailure | actualizar_paxban.py:213-215 | a failed line splits the collected rows into those before it and those after it, with nothing in between |
| Accumulation.AllRowsPrefix | actualizar_paxban.py:155 | the rows after fewer satellites are a prefix of the rows after more: later satellites only append |
| Text.Strip | actualizar_paxban.py:162 | `str.strip()` returns the slice that is left after dropping whitespace from both ends; it neither starts nor ends with whitespace, and everything it dropped is whitespace |
| Text.Split | actualizar_paxban.py:166 | `str.split(sep)` gives at least one piece, and no piece contains the separator |
| Text.JoinSplit | actualizar_paxban.py:166 | joining the pieces of a split with the separator gives back the original text |
| Text.SplitJoin | actualizar_paxban.py:166 | splitting the join of separator-free pieces gives back those pieces |
| Text.Lower | actualizar_paxban.py:231 | `str.lower()` keeps the length, and each character is lowered |
| Text.LowerEqualsWord | actualizar_paxban.py:231 | a text lowers to a lower-case word exactly when it is that word in some letter case |
| Report.Alerts | actualizar_paxban.py:228 | `alertas` keeps exactly the records of `base_datos` that are inside a concession, and is never longer |
| Report.AlertsAppend | actualizar_paxban.py:228 | filtering distributes over concatenation, so records keep their relative order |
| Report.AlertsSingle | actualizar_paxban.py:228 | a single record is kept exactly when it is an alert |
| Report.AlertsIdempotent | actualizar_paxban.py:228 | filtering the alerts again changes nothing |
| Report.ForceReportMeaning | actualizar_paxban.py:231 | the report is forced exactly when `FORCE_REPORT` is set to "true" in any letter case; an unset variable never forces it |
| Report.Decide | actualizar_paxban.py:233-278 | alert email exactly when some record is an alert, and it lists all the alerts in order; otherwise status report with every record exactly when forced; otherwise no email; the three outcomes exclude each other |
| Pipeline.ReadResponse | actualizar_paxban.py:163-215 | the inner loop over lines 1 onwards appends exactly the records that those lines yield, in order |
| Pipeline.ReadSatellite | actualizar_paxban.py:156-218 | one satellite's pass appends its rows when the download succeeded with more than one line, and nothing otherwise |
| Pipeline.ReadSatellites | actualizar_paxban.py:155-218 | the outer loop over the satellites produces `base_datos` exactly as the specification function `BaseDatos` describes |
| Pipeline.ObtainFires | actualizar_paxban.py:146-278 | a whole run over MODIS_NRT, VIIRS_SNPP_NRT and VIIRS_NOAA20_NRT yields the `base_datos` of the registry loaded from the features, and the decision `Decide` takes on it |
| Pipeline.ChooseEmail | actualizar_paxban.py:233-278 | the branch the script takes after its loops is the one `Decide` describes |

## Left out

- Sending email (`enviar_correo_alerta`) and rendering the map image (`generar_mapa_imagen`) are left out. Both are I/O, and the model returns the decision and its data instead.
- The HTML bodies of both emails, their subjects and the timestamp formatting are left out. They are templating only.
- The HTTP request is left out:
  - The request URL, the API key, the bounding box and the interval are not modelled.
  - The download is a function from the satellite name to the response text.
  - `None` stands for a request that raised: a connection error or timeout, or a 4xx or 5xx status, which `raise_for_status` turns into an exception.
- Reading the GeoJSON file and building shapely geometries are left out. The model takes the features as already read, each with an optional name.
- A feature's `Name` whose value is `null` is not modelled. The script stores it under the key `None`; in the model a missing name always becomes "Área desconocida".
- A feature without `properties` is not modelled. The script raises `KeyError` there and stops.
- Writing `incendios.json` and the log and warning messages are left out. They are output only.
- `float()`, `datetime.strptime` and shapely's `contains` are abstract functions: floating-point parsing, calendar arithmetic and polygon geometry are not modelled.
- `convertir_a_gtm`, the script's pyproj transverse-Mercator projection, is an abstract function. It returns "No disponible" both when pyproj is missing and when the conversion fails, and that text is part of the function.
- The age in hours is exact real arithmetic over the clock and parse functions. Floating-point rounding of `total_seconds() / 3600` is not modelled.
- Reading the clock is a parameter indexed by satellite and line, because the script reads `datetime.utcnow()` afresh for every line.
- Text.Lower: lowers ASCII letters only. Python's `str.lower()` also lowers non-ASCII letters, and none of them lowers to a letter of "true", so the `FORCE_REPORT` verdict is the same.
- Ingest.NormalizeHour: a time whose length is neither 3 nor 4 becomes "0000", as the code does. That covers the empty time, 1- and 2-character times, and times of 5 or more characters. It drops whatever hour and minutes such a value may have meant.
