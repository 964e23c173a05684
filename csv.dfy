/**
 * `save_to_csv` (scraper.py:230-246): appends one row per record to the
 * output file, after a header row when the file did not exist yet. The file
 * is its existence flag and the rows it holds; cells stay as the values the
 * record holds (their text rendering by the CSV writer is not modelled).
 */
module Csv {
  import opened Business

  type Row = seq<Value>

  /** The record keys behind the 15 columns, in header order. */
  const Columns: seq<Key> := [
    Name, Category, Claimed, Closed, Hours, Photos, ServicesOffered,
    Description, Street, Unit, CityStatePostalCode, Country,
    Website, PhoneNumber, Reviews]

  /** The header row. */
  const Header: Row := [
    Str("Name"), Str("Category"), Str("Claimed"), Str("Closed"), Str("Hours"), Str("Photos"),
    Str("Services Offered"), Str("Description"), Str("Street"), Str("Unit"),
    Str("City/State/Postal Code"), Str("Country"), Str("Website"), Str("Phone Number"),
    Str("Reviews")]

  /** The row written for one record: `info.get(key)` per column. */
  function RowOf(info: Record): (row: Row)
    ensures |row| == |Columns|
    ensures forall i | 0 <= i < |Columns| :: row[i] == Get(info, Columns[i])
  {
    seq(|Columns|, i requires 0 <= i < |Columns| => Get(info, Columns[i]))
  }

  function RowsOf(data: seq<Record>): (rows: seq<Row>)
    ensures |rows| == |data|
    ensures forall i | 0 <= i < |data| :: rows[i] == RowOf(data[i])
  {
    seq(|data|, i requires 0 <= i < |data| => RowOf(data[i]))
  }

  /** The output file `business_info.csv`. */
  class CsvFile {
    var onDisk: bool
    var rows: seq<Row>

    /** Rows are only ever written into a file that exists on disk. */
    ghost predicate Valid()
      reads this
    {
      onDisk || rows == []
    }

    constructor (onDisk: bool, rows: seq<Row>)
      requires onDisk || rows == []
      ensures this.onDisk == onDisk && this.rows == rows
      ensures Valid()
    {
      this.onDisk := onDisk;
      this.rows := rows;
    }

    /** Opens the file for appending (creating it), writes the header if it was new, then one row per record. */
    method SaveToCsv(data: seq<Record>)
      requires Valid()
      modifies this
      ensures Valid() && onDisk
      ensures rows == old(rows) + (if old(onDisk) then [] else [Header]) + RowsOf(data)
    {
      var fileExists := onDisk;
      onDisk := true;
      if !fileExists {
        rows := rows + [Header];
      }
      ghost var start := rows;
      var k := 0;
      while k < |data|
        invariant 0 <= k <= |data|
        invariant onDisk
        invariant rows == start + RowsOf(data[..k])
      {
        assert RowsOf(data[..k + 1]) == RowsOf(data[..k]) + [RowOf(data[k])];
        rows := rows + [RowOf(data[k])];
        k := k + 1;
      }
      assert data[..k] == data;
    }
  }

  /** Each column holds the value stored under its key; `Country` is always empty. */
  lemma RowOfRecord(f: Fields)
    ensures RowOf(ToRecord(f))[11] == Null
    ensures forall i | 0 <= i < |Columns| && Columns[i] != Country :: RowOf(ToRecord(f))[i] == ToRecord(f)[Columns[i]]
  {
    RecordKeys(f);
    forall i | 0 <= i < |Columns| && Columns[i] != Country
      ensures Columns[i] in StoredKeys
    {
    }
  }

  /** The header names the columns in the order of `Columns`, and no column is repeated. */
  lemma ColumnsDistinct()
    ensures |Header| == |Columns| == 15
    ensures forall i, j | 0 <= i < j < |Columns| :: Columns[i] != Columns[j]
    ensures Url !in Columns
  {
  }
}
