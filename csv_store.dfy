/**
 * CSV-backed tables (load_csv in DEVISOFT/app.py, and the read / append /
 * write-back that the registration and notice buttons perform).
 *
 * A table is a header of column names and rows of cells, every row as wide
 * as the header. The file system, as the app sees it, maps a file name to
 * the table pandas parses from it; a name that is absent is a missing file,
 * and a name mapped to None is a file pandas cannot parse.
 */
module CsvStore {
  import opened Wrappers

  datatype Frame = Frame(columns: seq<string>, rows: seq<seq<string>>)

  predicate Rectangular(f: Frame) {
    forall i :: 0 <= i < |f.rows| ==> |f.rows[i]| == |f.columns|
  }

  /** What pd.read_csv returns: every row has one cell per column. */
  type Table = f: Frame | Rectangular(f) witness Frame([], [])

  /** pd.DataFrame(columns=columns): the header and no rows. */
  function EmptyTable(columns: seq<string>): Table {
    Frame(columns, [])
  }

  /** DataFrame.empty: no rows or no columns, that is, the table holds no cell at all. */
  predicate IsEmpty(t: Table)
    ensures IsEmpty(t) <==> forall i :: 0 <= i < |t.rows| ==> t.rows[i] == []
  {
    assert |t.rows| > 0 ==> |t.rows[0]| == |t.columns|;
    |t.rows| == 0 || |t.columns| == 0
  }

  type Files = map<string, Option<Table>>

  /** pd.read_csv(name): the parsed table, or None where it raises. */
  function ReadCsv(files: Files, name: string): Option<Table> {
    if name in files then files[name] else None
  }

  /**
   * load_csv(name, columns): the table and the file system afterwards. A read
   * that raises is replaced by a header-only table, which is written over the file.
   */
  function Load(files: Files, name: string, columns: seq<string>): (r: (Table, Files))
    ensures ReadCsv(files, name).Some? ==> r == (ReadCsv(files, name).value, files)
    ensures ReadCsv(files, name).None? ==>
      r.0.columns == columns && r.0.rows == [] && r.1 == files[name := Some(r.0)]
    ensures ReadCsv(r.1, name) == Some(r.0)
  {
    match ReadCsv(files, name)
    case Some(t) => (t, files)
    case None =>
      var t := EmptyTable(columns);
      (t, files[name := Some(t)])
  }

  /** Loading a second time finds what the first load left and changes nothing more. */
  lemma LoadIsIdempotent(files: Files, name: string, columns: seq<string>)
    ensures var (t1, files1) := Load(files, name, columns);
      Load(files1, name, columns) == (t1, files1)
  {
  }

  /** Files other than the one loaded are never touched. */
  lemma LoadTouchesOneFile(files: Files, name: string, columns: seq<string>, other: string)
    requires other != name
    ensures ReadCsv(Load(files, name, columns).1, other) == ReadCsv(files, other)
  {
  }

  /** The position of the first column called `name`. */
  function ColumnIndex(columns: seq<string>, name: string): (r: Option<nat>)
    ensures r.Some? <==> name in columns
    ensures r.Some? ==> r.value < |columns| && columns[r.value] == name
    ensures r.Some? ==> forall j :: 0 <= j < r.value ==> columns[j] != name
  {
    if columns == [] then None
    else if columns[0] == name then Some(0)
    else match ColumnIndex(columns[1..], name)
      case None => None
      case Some(k) => Some(k + 1)
  }

  /** No column name appears twice. */
  predicate Distinct(columns: seq<string>) {
    forall i, j :: 0 <= i < j < |columns| ==> columns[i] != columns[j]
  }

  /** In a header without repeated names, each name is found at its own position. */
  lemma DistinctColumnIndex(columns: seq<string>, k: nat)
    requires Distinct(columns) && k < |columns|
    ensures ColumnIndex(columns, columns[k]) == Some(k)
  {
  }

  /** The values in the column called `name` (df[name].values, as a set); None where df[name] raises. */
  function ColumnValues(t: Table, name: string): (r: Option<set<string>>)
    ensures r.Some? <==> name in t.columns
    ensures r.Some? ==> forall v :: v in r.value <==>
      exists i :: 0 <= i < |t.rows| && t.rows[i][ColumnIndex(t.columns, name).value] == v
  {
    match ColumnIndex(t.columns, name)
    case None => None
    case Some(k) => Some(set i | 0 <= i < |t.rows| :: t.rows[i][k])
  }

  /** The files on disk; reads and writes go through pandas. */
  class FileSystem {
    var files: Files

    constructor (files: Files)
      ensures this.files == files
    {
      this.files := files;
    }

    /** pd.read_csv(name). */
    method Read(name: string) returns (r: Option<Table>)
      ensures r == ReadCsv(files, name)
    {
      r := ReadCsv(files, name);
    }

    /** df.to_csv(name, index=False): the whole file is rewritten with `t`. */
    method Write(name: string, t: Table)
      modifies this
      ensures files == old(files)[name := Some(t)]
    {
      files := files[name := Some(t)];
    }
  }

  /** load_csv: read the file, or write and return a header-only table if the read raises. */
  method LoadCsv(fs: FileSystem, name: string, columns: seq<string>) returns (t: Table)
    modifies fs
    ensures (t, fs.files) == Load(old(fs.files), name, columns)
  {
    var read := fs.Read(name);
    if read.Some? {
      t := read.value;
    } else {
      t := EmptyTable(columns);
      fs.Write(name, t);
    }
  }

  /** A pandas DataFrame in memory, grown one row at a time. */
  class DataFrame {
    const columns: seq<string>
    var rows: seq<seq<string>>

    predicate Valid()
      reads this
    {
      Rectangular(Frame(columns, rows))
    }

    function Contents(): Table
      reads this
      requires Valid()
    {
      Frame(columns, rows)
    }

    constructor (t: Table)
      ensures Valid() && Contents() == t
    {
      columns := t.columns;
      rows := t.rows;
    }

    /** df.loc[len(df)] = row; pandas raises when the row is not as wide as the header. */
    method AppendRow(row: seq<string>) returns (ok: bool)
      requires Valid()
      modifies this
      ensures Valid()
      ensures ok <==> |row| == |columns|
      ensures rows == if ok then old(rows) + [row] else old(rows)
    {
      ok := |row| == |columns|;
      if ok {
        rows := rows + [row];
      }
    }
  }
}
