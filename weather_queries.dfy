/**
 * The sensor tables and the two read-only queries over them: the row with
 * the greatest id of one table (`get_last_data`) and that row for each
 * sensor table (`get_last_data_for_sensors`).
 */
module WeatherQueries {
  import opened Wrappers

  /**
   * A row of one of the sensor tables. `id` is the primary key of each.
   * `NUMERIC(p, 1)` columns are held in tenths, timestamps in seconds.
   */
  datatype Row =
    | CentralRow(id: int, createdAt: int, temperature: int, humidity: int, pressure: int, co2: int, tvoc: int)
    | OutdoorRow(id: int, createdAt: int, temperature: int, humidity: int, pressure: int)
    | ExternalWeatherRow(id: int, createdAt: int, weatherDescription: string,
                         temperatureFeelsLike: int, precipitation: int, uvIndex: int, windSpeed: int)

  /** The primary-key constraint: no two rows of a table share an id. */
  ghost predicate UniqueIds(rows: seq<Row>)
  {
    forall i, j :: 0 <= i < j < |rows| ==> rows[i].id != rows[j].id
  }

  /** `r` is a row of the table with the greatest id. */
  ghost predicate IsLatest(rows: seq<Row>, r: Row)
  {
    r in rows && forall x :: x in rows ==> x.id <= r.id
  }

  /**
   * `get_last_data`: `ORDER BY id DESC LIMIT 1`, then the first row or
   * `None`.
   */
  function GetLastData(rows: seq<Row>): (r: Option<Row>)
    ensures r.None? <==> rows == []
    ensures r.Some? ==> IsLatest(rows, r.value)
  {
    if rows == [] then None
    else
      var rest := GetLastData(rows[1..]);
      if rest.None? || rest.value.id <= rows[0].id then Some(rows[0]) else rest
  }

  /** Since ids are unique, the latest row is determined by the table. */
  lemma LatestIsUnique(rows: seq<Row>, r: Row)
    requires UniqueIds(rows)
    requires IsLatest(rows, r)
    ensures GetLastData(rows) == Some(r)
  {
    var l := GetLastData(rows).value;
    var i :| 0 <= i < |rows| && rows[i] == l;
    var j :| 0 <= j < |rows| && rows[j] == r;
    assert rows[i].id == rows[j].id;
    assert i == j;
  }

  /** The query does not depend on the order in which the table stores its rows. */
  lemma GetLastDataOrderIndependent(rows: seq<Row>, other: seq<Row>)
    requires UniqueIds(rows)
    requires multiset(rows) == multiset(other)
    ensures GetLastData(rows) == GetLastData(other)
  {
    assert forall x :: x in rows <==> x in other by {
      forall x ensures x in rows <==> x in other {
        assert x in rows <==> x in multiset(rows);
        assert x in other <==> x in multiset(other);
      }
    }
    if rows != [] {
      assert rows[0] in other;
      LatestIsUnique(rows, GetLastData(other).value);
    } else {
      assert |other| == |multiset(other)| == 0;
    }
  }

  /** A row inserted with an id above every existing one (autoincrement) becomes the latest. */
  lemma GetLastDataAfterInsert(rows: seq<Row>, x: Row)
    requires forall y :: y in rows ==> y.id < x.id
    ensures GetLastData(rows + [x]) == Some(x)
  {
  }

  /** The three sensor tables. */
  datatype Database = Database(central: seq<Row>, outdoor: seq<Row>, externalWeather: seq<Row>)

  /** Each table holds rows of its own model only, under unique ids. */
  ghost predicate ValidDatabase(db: Database)
  {
    && (forall x :: x in db.central ==> x.CentralRow?)
    && (forall x :: x in db.outdoor ==> x.OutdoorRow?)
    && (forall x :: x in db.externalWeather ==> x.ExternalWeatherRow?)
    && UniqueIds(db.central) && UniqueIds(db.outdoor) && UniqueIds(db.externalWeather)
  }

  /** The `__tablename__` of each model, in the order the query visits them. */
  const SensorTables: seq<string> := ["central", "outdoor", "external_weather"]

  /** The rows of the table with the given name. */
  function TableRows(db: Database, name: string): seq<Row>
    requires name in SensorTables
  {
    if name == "central" then db.central
    else if name == "outdoor" then db.outdoor
    else db.externalWeather
  }

  /**
   * `get_last_data_for_sensors`: one entry per sensor table, keyed by its
   * name, holding that table's latest row or `None` when it is empty.
   */
  method GetLastDataForSensors(db: Database) returns (result: map<string, Option<Row>>)
    ensures result.Keys == {"central", "outdoor", "external_weather"}
    ensures result["central"] == GetLastData(db.central)
    ensures result["outdoor"] == GetLastData(db.outdoor)
    ensures result["external_weather"] == GetLastData(db.externalWeather)
  {
    result := map[];
    for i := 0 to |SensorTables|
      invariant result.Keys == set j | 0 <= j < i :: SensorTables[j]
      invariant forall j :: 0 <= j < i ==> result[SensorTables[j]] == GetLastData(TableRows(db, SensorTables[j]))
    {
      var name := SensorTables[i];
      result := result[name := GetLastData(TableRows(db, name))];
    }
    assert SensorTables[0] == "central" && SensorTables[1] == "outdoor" && SensorTables[2] == "external_weather";
  }

  /**
   * Each entry of a well-formed database holds a row of that table's own
   * model, which is what the current-weather endpoint validates it as.
   */
  lemma LatestRowKinds(db: Database)
    requires ValidDatabase(db)
    ensures GetLastData(db.central).Some? ==> GetLastData(db.central).value.CentralRow?
    ensures GetLastData(db.outdoor).Some? ==> GetLastData(db.outdoor).value.OutdoorRow?
    ensures GetLastData(db.externalWeather).Some? ==> GetLastData(db.externalWeather).value.ExternalWeatherRow?
  {
  }
}
