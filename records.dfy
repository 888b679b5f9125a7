/** `save_json_to_csv`: a read-modify-write of the manufacturing table. The
    rows read from the CSV file are dicts; the incoming record is merged into
    the first row with the same `hw_id`, or appended; the whole table is then
    written back under a header made of the record's own keys. */
module Records {
  import opened Base
  import opened Json

  /** One table row (a `csv.DictReader` row, or a decoded record). */
  type Row = map<string, Json>

  const IdKey: string := "hw_id"

  /** `dict(pairs)`: a decoded object as a row. */
  function RowOf(fields: seq<(string, Json)>): (r: Row)
    ensures r.Keys == set i | 0 <= i < |fields| :: fields[i].0
  {
    if fields == [] then map[]
    else
      var init := fields[..|fields| - 1];
      var last := fields[|fields| - 1];
      var r := RowOf(init)[last.0 := last.1];
      assert r.Keys == set i | 0 <= i < |fields| :: fields[i].0 by {
        assert forall i :: 0 <= i < |init| ==> init[i] == fields[i];
      }
      r
  }

  /** Each key of the row holds the value of its last pair, as `dict(pairs)`
      keeps the last of repeated keys. */
  lemma {:induction false} RowOfValues(fields: seq<(string, Json)>, i: int)
    requires 0 <= i < |fields| && LastOfKey(fields, i)
    ensures fields[i].0 in RowOf(fields) && RowOf(fields)[fields[i].0] == fields[i].1
  {
    var n := |fields| - 1;
    var init := fields[..n];
    if i < n {
      assert init[i] == fields[i];
      assert LastOfKey(init, i);
      RowOfValues(init, i);
      assert fields[n].0 != fields[i].0;
    }
  }

  /** No later pair has the same key: the pair whose value `dict` keeps. */
  predicate LastOfKey(fields: seq<(string, Json)>, i: int)
    requires 0 <= i < |fields|
  {
    forall k :: i < k < |fields| ==> fields[k].0 != fields[i].0
  }

  /** `row.get("hw_id")`: a missing key reads as `None`. */
  function HwId(row: Row): Json {
    if IdKey in row then row[IdKey] else Null
  }

  /** The first row whose `hw_id` equals `id`. */
  function FirstMatch(rows: seq<Row>, id: Json): (r: Option<nat>)
    ensures r.None? <==> forall j :: 0 <= j < |rows| ==> HwId(rows[j]) != id
    ensures r.Some? ==> r.value < |rows| && HwId(rows[r.value]) == id
                        && forall j :: 0 <= j < r.value ==> HwId(rows[j]) != id
  {
    if rows == [] then None
    else if HwId(rows[0]) == id then Some(0)
    else
      var r := FirstMatch(rows[1..], id);
      assert forall j :: 0 < j < |rows| ==> rows[j] == rows[1..][j - 1];
      if r.None? then None else Some(r.value + 1)
  }

  /** The table after the upsert: the first row with the record's `hw_id`
      updated with the record (`row.update(record)`), or the record appended. */
  function Upsert(rows: seq<Row>, rec: Row): seq<Row> {
    match FirstMatch(rows, HwId(rec))
    case Some(i) => rows[i := rows[i] + rec]
    case None => rows + [rec]
  }

  /** The loop over `existing_data` that stops at the first match. */
  method UpsertRows(rows: seq<Row>, rec: Row) returns (r: seq<Row>)
    ensures r == Upsert(rows, rec)
  {
    var id := HwId(rec);
    r := rows;
    var updated := false;
    var i := 0;
    while i < |r|
      invariant 0 <= i <= |r| && r == rows
      invariant forall j :: 0 <= j < i ==> HwId(rows[j]) != id
    {
      if HwId(r[i]) == id {
        r := r[i := r[i] + rec];
        updated := true;
        break;
      }
      i := i + 1;
    }
    if !updated {
      r := r + [rec];
    }
  }

  predicate UniqueIds(rows: seq<Row>) {
    forall i, j :: 0 <= i < j < |rows| ==> HwId(rows[i]) != HwId(rows[j])
  }

  /** A matching row is merged, not replaced, and the row count stays; a new
      `hw_id` adds exactly one row, the record itself, at the end. */
  lemma UpsertShape(rows: seq<Row>, rec: Row)
    ensures var r := Upsert(rows, rec);
      match FirstMatch(rows, HwId(rec))
      case Some(i) =>
        && |r| == |rows|
        && r[i].Keys == rows[i].Keys + rec.Keys
        && (forall k :: k in rec ==> r[i][k] == rec[k])
        && (forall k :: k in rows[i] && k !in rec ==> r[i][k] == rows[i][k])
        && (forall j :: 0 <= j < |rows| && j != i ==> r[j] == rows[j])
      case None =>
        |r| == |rows| + 1 && r[..|rows|] == rows && r[|rows|] == rec
  {
  }

  /** At most one row per `hw_id` stays so. */
  lemma UpsertKeepsIdsUnique(rows: seq<Row>, rec: Row)
    requires UniqueIds(rows)
    ensures UniqueIds(Upsert(rows, rec))
  {
    var r := Upsert(rows, rec);
    match FirstMatch(rows, HwId(rec))
    case Some(i) =>
      assert HwId(r[i]) == HwId(rows[i]);
      forall a, b | 0 <= a < b < |r| ensures HwId(r[a]) != HwId(r[b]) {
        assert HwId(r[a]) == HwId(rows[a]) && HwId(r[b]) == HwId(rows[b]);
      }
    case None =>
      forall a, b | 0 <= a < b < |r| ensures HwId(r[a]) != HwId(r[b]) {
        if b == |rows| {
          assert HwId(r[a]) == HwId(rows[a]);
        } else {
          assert r[a] == rows[a] && r[b] == rows[b];
        }
      }
  }

  /** Storing the same record twice leaves the table as storing it once. */
  lemma UpsertIdempotent(rows: seq<Row>, rec: Row)
    ensures Upsert(Upsert(rows, rec), rec) == Upsert(rows, rec)
  {
    var id := HwId(rec);
    var r := Upsert(rows, rec);
    match FirstMatch(rows, id)
    case Some(i) =>
      assert HwId(r[i]) == id;
      assert forall j :: 0 <= j < i ==> r[j] == rows[j];
      assert FirstMatch(r, id) == Some(i);
      assert r[i] + rec == r[i];
    case None =>
      assert forall j :: 0 <= j < |rows| ==> r[j] == rows[j];
      assert HwId(r[|rows|]) == id;
      assert FirstMatch(r, id) == Some(|rows|);
      assert rec + rec == rec;
  }

  // ---------------------------------------------------------------------
  // Writing the table back

  /** What the file holds: the header line's field names and the rows. */
  datatype Table = Table(header: seq<string>, rows: seq<Row>)

  predicate FitsHeader(header: seq<string>, row: Row) {
    forall k :: k in row ==> k in header
  }

  /** The first row with a key outside the header: `csv.DictWriter` raises on
      it, after the header and the rows before it were written. */
  function FirstStray(header: seq<string>, rows: seq<Row>): (r: Option<nat>)
    ensures r.None? <==> forall j :: 0 <= j < |rows| ==> FitsHeader(header, rows[j])
    ensures r.Some? ==> r.value < |rows| && !FitsHeader(header, rows[r.value])
                        && forall j :: 0 <= j < r.value ==> FitsHeader(header, rows[j])
  {
    if rows == [] then None
    else if !FitsHeader(header, rows[0]) then Some(0)
    else
      var r := FirstStray(header, rows[1..]);
      assert forall j :: 0 < j < |rows| ==> rows[j] == rows[1..][j - 1];
      if r.None? then None else Some(r.value + 1)
  }

  datatype WriteResult = Complete(table: Table) | Truncated(table: Table)

  /** `writeheader()` then `writerows(rows)` on a file opened for writing. */
  function WriteTable(header: seq<string>, rows: seq<Row>): WriteResult {
    match FirstStray(header, rows)
    case None => Complete(Table(header, rows))
    case Some(i) => Truncated(Table(header, rows[..i]))
  }

  /** The CSV file as `save_json_to_csv` finds it. */
  datatype CsvFile = Absent | Present(rows: seq<Row>) | Unreadable

  datatype SaveOutcome =
    | NoData                          // "No JSON data to save."
    | NoPath                          // "No CSV file path selected."
    | SaveFailed(left: Option<Table>) // "Failed to save CSV file"; what the file was left holding, if it was rewritten
    | Saved(table: Table)

  /** The outcome of `save_json_to_csv` for the pending record, the chosen
      path, the file's current contents and whether it can be opened for
      writing. */
  function Save(jsonData: Option<Json>, csvPath: Option<string>, file: CsvFile, writable: bool): SaveOutcome {
    if jsonData.None? || !Truthy(jsonData.value) then NoData
    else if csvPath.None? || csvPath.value == "" then NoPath
    else
      match jsonData.value
      case Obj(fields) =>
        if file.Unreadable? then SaveFailed(None)
        else
          var existing := if file.Present? then file.rows else [];
          var rows := Upsert(existing, RowOf(fields));
          if !writable then SaveFailed(None)
          else
            (match WriteTable(FieldNames(fields), rows)
             case Complete(t) => Saved(t)
             case Truncated(t) => SaveFailed(Some(t)))
      case _ => SaveFailed(None)
  }

  /** When every stored row's columns are among the record's keys, the table
      is written in full: the upserted rows under the record's keys. */
  lemma SaveWritesAll(fields: seq<(string, Json)>, csvPath: string, existing: seq<Row>)
    requires fields != [] && csvPath != ""
    requires forall j :: 0 <= j < |existing| ==> FitsHeader(FieldNames(fields), existing[j])
    ensures Save(Some(Obj(fields)), Some(csvPath), Present(existing), true)
              == Saved(Table(FieldNames(fields), Upsert(existing, RowOf(fields))))
  {
    var rec := RowOf(fields);
    var header := FieldNames(fields);
    assert FitsHeader(header, rec) by {
      forall k | k in rec ensures k in header {
        var i :| 0 <= i < |fields| && fields[i].0 == k;
        assert header[i] == k;
      }
    }
    var r := Upsert(existing, rec);
    forall j | 0 <= j < |r| ensures FitsHeader(header, r[j]) {
      UpsertShape(existing, rec);
    }
  }

  /** A stored row with a column the record lacks makes the rewrite fail
      part-way, whether or not it is the row the record is merged into (the
      merge keeps its columns): the file, already truncated, keeps only the
      rows before it. */
  lemma StrayColumnLosesRows(fields: seq<(string, Json)>, csvPath: string, existing: seq<Row>)
    requires fields != [] && csvPath != ""
    requires exists j :: 0 <= j < |existing| && !FitsHeader(FieldNames(fields), existing[j])
    ensures var out := Save(Some(Obj(fields)), Some(csvPath), Present(existing), true);
      out.SaveFailed? && out.left.Some?
      && |out.left.value.rows| < |Upsert(existing, RowOf(fields))|
  {
    var rec := RowOf(fields);
    var r := Upsert(existing, rec);
    var j :| 0 <= j < |existing| && !FitsHeader(FieldNames(fields), existing[j]);
    var header := FieldNames(fields);
    assert r[j].Keys >= existing[j].Keys by {
      UpsertShape(existing, rec);
    }
    assert !FitsHeader(header, r[j]);
    var stray := FirstStray(header, r);
    assert stray.Some? && stray.value <= j;
    SaveRecord(fields, csvPath, existing);
  }

  /** What the save does with a non-empty record, a chosen path and a
      writable file: it writes the upserted rows under the record's keys;
      a proof step for the save lemmas, not a separate promise. */
  lemma SaveRecord(fields: seq<(string, Json)>, csvPath: string, existing: seq<Row>)
    requires fields != [] && csvPath != ""
    ensures Save(Some(Obj(fields)), Some(csvPath), Present(existing), true)
              == match WriteTable(FieldNames(fields), Upsert(existing, RowOf(fields)))
                 case Complete(t) => Saved(t)
                 case Truncated(t) => SaveFailed(Some(t))
  {
    assert Truthy(Obj(fields));
  }

  /** The smallest instance: a stored device with an extra `mac` column and a
      new device without one leave the file with a header and no rows. */
  lemma NewDeviceWithFewerFieldsEmptiesTable()
    ensures Save(Some(Obj([("hw_id", Str("B"))])), Some("mfg.csv"),
                 Present([map["hw_id" := Str("A"), "mac" := Str("x")]]), true)
            == SaveFailed(Some(Table(["hw_id"], [])))
  {
    var fields := [("hw_id", Str("B"))];
    var stored := map["hw_id" := Str("A"), "mac" := Str("x")];
    var rec := RowOf(fields);
    assert rec == map["hw_id" := Str("B")];
    assert HwId(stored) != HwId(rec);
    assert Upsert([stored], rec) == [stored, rec];
    assert FieldNames(fields) == ["hw_id"];
    assert !FitsHeader(["hw_id"], stored) by { assert "mac" in stored; }
    assert FirstStray(["hw_id"], [stored, rec]) == Some(0);
  }

  /** The stored table is read back by `csv.DictReader`, so every stored
      `hw_id` is a string, or `None` for a row too short to hold one. A record
      whose `hw_id` is a number, a boolean, a list or an object never equals
      any of them, and saving it appends one more row, even for a device
      already in the table. */
  lemma NonTextIdNotMatchedOnReadBack(rows: seq<Row>, rec: Row)
    requires forall j :: 0 <= j < |rows| ==> HwId(rows[j]).Str? || HwId(rows[j]).Null?
    requires !HwId(rec).Str? && !HwId(rec).Null?
    ensures Upsert(rows, rec) == rows + [rec]
  {
    NewDeviceAppends(rows, rec);
  }

  /** The smallest instance: the device stored as `"5"` is added again. */
  lemma NumericIdNotMatchedOnReadBack()
    ensures Upsert([map[IdKey := Str("5")]], map[IdKey := Num(5)])
         == [map[IdKey := Str("5")], map[IdKey := Num(5)]]
  {
    NonTextIdNotMatchedOnReadBack([map[IdKey := Str("5")]], map[IdKey := Num(5)]);
  }

  /** A record for a device not yet in the table appends one row. */
  lemma NewDeviceAppends(existing: seq<Row>, rec: Row)
    requires forall j :: 0 <= j < |existing| ==> HwId(existing[j]) != HwId(rec)
    ensures Upsert(existing, rec) == existing + [rec]
  {
  }
}
