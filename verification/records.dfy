/** The records the engine works on: an observation row as the frontend components receive
    it, the dataset row the backend filters, and the loosely-typed field dictionary the
    backend's recommendation rule reads. Field names follow the dataset columns. */
module Records {
  import opened Wrappers

  /** The `eDNA_detected_species` field on the frontend: already a list, a comma-separated
      string, or absent (`undefined` / `null`). */
  datatype SpeciesField = Absent | Listed(names: seq<string>) | Joined(text: string)

  /** A point on the map, in degrees: `[lat, lon]`. */
  datatype Point = Point(lat: real, lon: real)

  /** One monitoring record as a frontend component receives it. `fishStock` is `None` when
      the `fish_stock_index` key is absent (`undefined`); a `null` index is not modelled.
      `invasiveFlag` is `None` when the flag is missing. */
  datatype Observation = Observation(
    date: string,
    position: Point,
    region: string,
    seaTemperature: real,
    salinity: real,
    fishStock: Option<real>,
    biodiversity: real,
    species: SpeciesField,
    invasiveFlag: Option<string>)

  /** A dataset row holding every required column, as the backend reads it from the CSV file. */
  datatype Record = Record(
    date: string,
    lat: real,
    lon: real,
    region: string,
    seaTemperature: real,
    salinity: real,
    fishStock: real,
    biodiversity: real,
    species: string,
    invasiveFlag: string)

  /** The fields of a Python `dict` that `ai_recommendation` reads; `None` is a missing key. */
  datatype FieldDict = FieldDict(
    fishStockIndex: Option<real>,
    fishStockPrediction: Option<real>,
    biodiversity: Option<real>,
    invasiveFlag: Option<string>)

  /** `df.to_dict(orient="records")` of a dataset row: every column present. */
  function RecordDict(r: Record): FieldDict
  {
    FieldDict(Some(r.fishStock), None, Some(r.biodiversity), Some(r.invasiveFlag))
  }

  /** A dataset row as the frontend receives it from the `/data` endpoint: species still a
      comma-separated string, every index present. */
  function RecordObservation(r: Record): Observation
  {
    Observation(r.date, Point(r.lat, r.lon), r.region, r.seaTemperature, r.salinity,
                Some(r.fishStock), r.biodiversity, Joined(r.species), Some(r.invasiveFlag))
  }

  /** The rows' regions, in table order. */
  function Regions(rows: seq<Record>): (rs: seq<string>)
    ensures |rs| == |rows| && forall i :: 0 <= i < |rows| ==> rs[i] == rows[i].region
  {
    seq(|rows|, i requires 0 <= i < |rows| => rows[i].region)
  }
}
