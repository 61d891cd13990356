/**
 * The catalogue's store of `FileDescription` records and `read_file`, which
 * empties the store and then loads a CSV file into it: every row or none.
 */
module Store {
  import opened Wrappers
  import opened Strings
  import opened Units
  import opened FileRecords
  import opened DataFrame
  import opened Search

  /**
   * What looking for and reading the CSV file at a path gives: no such
   * file, a file the CSV reader (or the column lookups) cannot make sense
   * of, or the rows it holds.
   */
  datatype CsvSource = NoSuchFile | Malformed | Parsed(rows: seq<RawRow>)

  /** The records a CSV source leaves in the store: all of its rows, or none. */
  function Loaded(source: CsvSource): (r: seq<FileRecord>)
    ensures r == [] || (source.Parsed? && |r| == |source.rows|)
    ensures !source.Parsed? ==> r == []
  {
    if source.Parsed? && RestructureRows(source.rows).Success? then
      RestructureRows(source.rows).value
    else
      []
  }

  /** The message `read_file` leaves for the page. */
  function ReadWarning(path: string, source: CsvSource): (w: string)
    ensures w == "Data loaded from '" + path + "'." <==> source.Parsed? && RestructureRows(source.rows).Success?
  {
    match source
    case NoSuchFile =>
      "Error - The csv file '" + path + "' does not exist. No data loaded."
    case Malformed =>
      "Error - The csv file '" + path + "' has structure issues. No data loaded."
    case Parsed(rows) =>
      if RestructureRows(rows).Success? then
        "Data loaded from '" + path + "'."
      else
        "Error - The csv file '" + path + "' has structure issues. No data loaded."
  }

  /**
   * A file with a header and no data rows loads: neither loop runs, no
   * column is looked up, the store stays empty and success is reported.
   */
  lemma ReadWarningEmptyFile(path: string)
    ensures Loaded(Parsed([])) == []
    ensures ReadWarning(path, Parsed([])) == "Data loaded from '" + path + "'."
  {
    assert RestructureRows([]) == Success([]);
  }

  /** `initialize_html_dict`: the message shown before any request is handled. */
  function StatusWarning(records: seq<FileRecord>): (w: string)
    ensures w == "Empty database. Please load data." <==> records == []
    ensures w != "Empty database. Please load data." ==> w == "Data loaded."
  {
    if |records| == 0 then "Empty database. Please load data." else "Data loaded."
  }

  /** The database table of `FileDescription` records. */
  class FileStore {
    var records: seq<FileRecord>

    /** A store with nothing in it. */
    constructor ()
      ensures records == []
    {
      records := [];
    }

    /** The loop of `read_file` that saves the table's entries one by one, in row order. */
    method Save(frame: Frame)
      requires frame.Valid() && frame.Restructured()
      modifies this
      ensures records == old(records) + frame.Entries()
    {
      var i := 0;
      while i < frame.filePath.Length
        invariant 0 <= i <= frame.filePath.Length
        invariant records == old(records) + frame.Entries()[..i]
      {
        var entry := FileRecord(frame.fileName[i], frame.filePath[i], frame.size[i],
                                frame.fileExtension[i], frame.uniformSize[i]);
        records := records + [entry];
        i := i + 1;
      }
    }

    /**
     * `read_file`. Whatever the store held is discarded; it then holds the
     * records of every row of the file, or none at all when the file is
     * missing, malformed, or has a size that cannot be read.
     */
    method ReadFile(path: string, source: CsvSource) returns (warning: string)
      modifies this
      ensures records == Loaded(source)
      ensures warning == ReadWarning(path, source)
    {
      records := [];
      match source {
        case NoSuchFile =>
          warning := "Error - The csv file '" + path + "' does not exist. No data loaded.";
        case Malformed =>
          warning := "Error - The csv file '" + path + "' has structure issues. No data loaded.";
        case Parsed(rows) =>
          var frame := new Frame(rows);
          var failure := frame.Restructure();
          if failure.Some? {
            warning := "Error - The csv file '" + path + "' has structure issues. No data loaded.";
            return;
          }
          Save(frame);
          warning := "Data loaded from '" + path + "'.";
      }
    }
  }

  /** One row whose size cannot be read leaves the store empty. */
  lemma LoadedBadSize(rows: seq<RawRow>, k: int)
    requires 0 <= k < |rows| && ParseSize(rows[k].size).Failure?
    ensures Loaded(Parsed(rows)) == []
  {
    RestructureRowsSucceeds(rows);
  }

  /**
   * Every record in the store after a load comes from the row at the same
   * position: its name and size are the row's, its path is the row's path
   * with the name deleted, and its extension and byte size are derived
   * from its name and size.
   */
  lemma LoadedRecords(source: CsvSource)
    ensures Loaded(source) != [] ==> source.Parsed? && |Loaded(source)| == |source.rows|
    ensures source.Parsed? && (forall k :: 0 <= k < |source.rows| ==> ParseSize(source.rows[k].size).Success?)
      ==> |Loaded(source)| == |source.rows|
    ensures forall i :: 0 <= i < |Loaded(source)| ==>
      var (row, r) := (source.rows[i], Loaded(source)[i]);
      Consistent(r) && r.fileName == row.fileName && r.size == row.size
      && r.filePath == RemoveAll(row.filePath, row.fileName)
  {
    if source.Parsed? {
      RestructureRowsSucceeds(source.rows);
      if RestructureRows(source.rows).Success? {
        RestructureRowsEntries(source.rows);
      }
    }
  }

  /**
   * The load is reported as a success exactly when the file exists, can be
   * read, and the size of every row can be read; a file that exists but
   * fails to load is reported as having structure issues.
   */
  lemma ReadWarningReportsLoad(path: string, source: CsvSource)
    ensures ReadWarning(path, source) == "Data loaded from '" + path + "'." <==>
      source.Parsed? && forall k :: 0 <= k < |source.rows| ==> ParseSize(source.rows[k].size).Success?
    ensures ReadWarning(path, source) != "Data loaded from '" + path + "'." ==> Loaded(source) == []
    ensures source.Parsed? && ReadWarning(path, source) != "Data loaded from '" + path + "'." ==>
      ReadWarning(path, source) == "Error - The csv file '" + path + "' has structure issues. No data loaded."
  {
    if source.Parsed? {
      RestructureRowsSucceeds(source.rows);
    }
    var w := ReadWarning(path, source);
    if w != "Data loaded from '" + path + "'." {
      assert w[0] == 'E';
    }
  }

  /** After a file with a bad size, every search reports an empty database. */
  lemma SearchAfterFailedLoad(rows: seq<RawRow>, k: int, searched: string)
    requires 0 <= k < |rows| && ParseSize(rows[k].size).Failure?
    ensures SearchName(Loaded(Parsed(rows)), searched) == Outcome([], "Empty database.")
    ensures SearchPath(Loaded(Parsed(rows)), searched) == Outcome([], "Empty database.")
    ensures SearchExtension(Loaded(Parsed(rows)), searched) == Outcome([], "Empty database.")
    ensures SearchSize(Loaded(Parsed(rows)), searched) == Outcome([], "Empty database.")
  {
    LoadedBadSize(rows, k);
  }

  /**
   * After a file loads, searching for an extension without a dot finds the
   * records of the rows whose file name is that extension or ends with a
   * dot and that extension.
   */
  lemma SearchExtensionAfterLoad(source: CsvSource, e: string)
    requires e != "" && '.' !in e
    ensures forall x :: x in SearchExtension(Loaded(source), e).entries <==>
      x in Loaded(source) && (x.fileName == e || EndsWith(x.fileName, "." + e))
  {
    LoadedRecords(source);
    SearchExtensionByName(Loaded(source), e);
  }
}
