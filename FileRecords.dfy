/**
 * One row of the imported CSV file, the catalogue entry derived from it,
 * and the per-row normalisation: the extension is what follows the last
 * "." of the file name, the file name is deleted from the path, and the
 * size becomes a byte count.
 */
module FileRecords {
  import opened Wrappers
  import opened Strings
  import opened Units

  /** A row as read from the CSV file (columns FileName, FilePath, Size). */
  datatype RawRow = RawRow(fileName: string, filePath: string, size: string)

  /** A stored catalogue entry (the fields of FileDescription). */
  datatype FileRecord = FileRecord(
    fileName: string,
    filePath: string,
    size: string,
    fileExtension: string,
    uniformSize: nat)

  /** `name.split(".")[-1]`. */
  function Extension(name: string): (e: string)
    ensures |e| <= |name|
  {
    LastPiece(name, ".")
  }

  /**
   * The extension is the text after the last ".", or the whole name when
   * it has none: it never contains a "." and, when shorter than the name,
   * is preceded by one.
   */
  lemma ExtensionShape(name: string)
    ensures '.' !in Extension(name)
    ensures EndsWith(name, Extension(name))
    ensures '.' !in name ==> Extension(name) == name
    ensures |Extension(name)| < |name| ==> name[|name| - |Extension(name)| - 1] == '.'
  {
    LastPieceShape(name, ".");
    ContainsChar(Extension(name), '.');
    ContainsChar(name, '.');
  }

  /**
   * The extension is `e` exactly when `e` has no "." and the name either
   * is `e` or ends in "." followed by `e`.
   */
  lemma ExtensionIff(name: string, e: string)
    ensures Extension(name) == e <==> '.' !in e && (name == e || EndsWith(name, "." + e))
  {
    var x := Extension(name);
    var n := |name|;
    ExtensionShape(name);
    if x == e && |e| < n {
      assert name[n - |e| - 1..] == "." + e;
    }
    if '.' !in e && EndsWith(name, "." + e) {
      assert name[n - |e| - 1] == '.';
      assert name[n - |e|..] == e;
      assert x == name[n - |x|..];
    }
  }

  /** An entry's derived fields agree with its name and its size string. */
  predicate Consistent(r: FileRecord) {
    r.fileExtension == Extension(r.fileName) && ParseSize(r.size) == Success(r.uniformSize)
  }

  /** One row of `restructure_data`: fails only when its size cannot be read. */
  function NormalizeRow(row: RawRow): (r: Result<FileRecord, SizeError>)
    ensures r.Success? <==> ParseSize(row.size).Success?
    ensures r.Failure? ==> ParseSize(row.size) == Failure(r.error)
    ensures r.Success? ==> Consistent(r.value)
    ensures r.Success? ==> r.value.fileName == row.fileName && r.value.size == row.size
    ensures r.Success? ==> r.value.filePath == RemoveAll(row.filePath, row.fileName)
  {
    match ParseSize(row.size)
    case Failure(e) => Failure(e)
    case Success(bytes) =>
      Success(FileRecord(row.fileName, RemoveAll(row.filePath, row.fileName), row.size,
                         Extension(row.fileName), bytes))
  }

  /**
   * `restructure_data` over a whole table: one entry per row, in row order,
   * or the error of the first row whose size cannot be read.
   */
  function RestructureRows(rows: seq<RawRow>): (r: Result<seq<FileRecord>, SizeError>)
    ensures r.Success? ==> |r.value| == |rows|
  {
    if rows == [] then Success([])
    else
      var first := NormalizeRow(rows[0]);
      if first.Failure? then Failure(first.error)
      else
        var rest := RestructureRows(rows[1..]);
        if rest.Failure? then rest
        else Success([first.value] + rest.value)
  }

  /** A table that loads is its first row's entry followed by the rest of the table's. */
  lemma RestructureRowsHead(rows: seq<RawRow>)
    requires rows != [] && RestructureRows(rows).Success?
    ensures NormalizeRow(rows[0]).Success? && RestructureRows(rows[1..]).Success?
    ensures RestructureRows(rows).value == [NormalizeRow(rows[0]).value] + RestructureRows(rows[1..]).value
  {
  }

  /** A table that loads has, at each position, the entry of the row there. */
  lemma {:induction false} RestructureRowsEntries(rows: seq<RawRow>)
    requires RestructureRows(rows).Success?
    ensures forall i :: 0 <= i < |rows| ==> NormalizeRow(rows[i]) == Success(RestructureRows(rows).value[i])
  {
    if rows != [] {
      var tail := rows[1..];
      RestructureRowsHead(rows);
      RestructureRowsEntries(tail);
      var v, w := RestructureRows(rows).value, RestructureRows(tail).value;
      forall i | 0 < i < |rows| ensures NormalizeRow(rows[i]) == Success(v[i]) {
        assert rows[i] == tail[i - 1];
        assert v[i] == w[i - 1];
      }
    }
  }

  /** Row `k` is the first row whose size cannot be read. */
  predicate FirstFailure(rows: seq<RawRow>, k: int) {
    0 <= k < |rows| && ParseSize(rows[k].size).Failure?
    && forall j :: 0 <= j < k ==> ParseSize(rows[j].size).Success?
  }

  /** A table loads exactly when the size of every one of its rows can be read. */
  lemma {:induction false} RestructureRowsSucceeds(rows: seq<RawRow>)
    ensures RestructureRows(rows).Success? <==> forall i :: 0 <= i < |rows| ==> ParseSize(rows[i].size).Success?
  {
    if rows != [] {
      var tail := rows[1..];
      RestructureRowsSucceeds(tail);
      assert RestructureRows(rows).Success? <==>
        NormalizeRow(rows[0]).Success? && RestructureRows(tail).Success?;
    }
  }

  /** A table that fails to load reports the error of its first bad row. */
  lemma RestructureRowsFailure(rows: seq<RawRow>, k: int)
    requires FirstFailure(rows, k)
    ensures RestructureRows(rows) == Failure(ParseSize(rows[k].size).error)
  {
    RestructureRowsFailureFrom(rows, 0, k);
    assert rows[0..] == rows;
  }

  /** The same, for the rows from `start` on. */
  lemma {:induction false} RestructureRowsFailureFrom(rows: seq<RawRow>, start: nat, k: int)
    requires start <= k < |rows| && ParseSize(rows[k].size).Failure?
    requires forall j :: start <= j < k ==> ParseSize(rows[j].size).Success?
    ensures RestructureRows(rows[start..]) == Failure(ParseSize(rows[k].size).error)
    decreases k - start
  {
    var r := rows[start..];
    assert r[0] == rows[start];
    if start < k {
      RestructureRowsFailureFrom(rows, start + 1, k);
      assert r[1..] == rows[start + 1..];
      assert NormalizeRow(r[0]).Success?;
    } else {
      assert NormalizeRow(r[0]) == Failure(ParseSize(rows[k].size).error);
    }
  }

  /** Rows assembled from three columns of equal length. */
  function Table(names: seq<string>, paths: seq<string>, sizes: seq<string>): (rows: seq<RawRow>)
    requires |names| == |paths| == |sizes|
    ensures |rows| == |names|
    ensures forall k :: 0 <= k < |rows| ==> rows[k] == RawRow(names[k], paths[k], sizes[k])
  {
    seq(|names|, k requires 0 <= k < |names| => RawRow(names[k], paths[k], sizes[k]))
  }

  /** Entries assembled from five columns of equal length. */
  function Records(names: seq<string>, paths: seq<string>, sizes: seq<string>,
                   extensions: seq<string>, bytes: seq<nat>): (rs: seq<FileRecord>)
    requires |names| == |paths| == |sizes| == |extensions| == |bytes|
    ensures |rs| == |names|
    ensures forall k :: 0 <= k < |rs| ==>
      rs[k] == FileRecord(names[k], paths[k], sizes[k], extensions[k], bytes[k])
  {
    seq(|names|, k requires 0 <= k < |names| =>
      FileRecord(names[k], paths[k], sizes[k], extensions[k], bytes[k]))
  }

  /**
   * A table whose every size can be read restructures into the entries
   * built column by column: the extension of each name, each path without
   * its name, and each size in bytes.
   */
  lemma {:induction false} RestructureRowsOfColumns(
    names: seq<string>, paths: seq<string>, sizes: seq<string>,
    newPaths: seq<string>, extensions: seq<string>, bytes: seq<nat>)
    requires |names| == |paths| == |sizes| == |newPaths| == |extensions| == |bytes|
    requires forall k :: 0 <= k < |names| ==> extensions[k] == Extension(names[k])
    requires forall k :: 0 <= k < |names| ==> ParseSize(sizes[k]) == Success(bytes[k])
    requires forall k :: 0 <= k < |names| ==> newPaths[k] == RemoveAll(paths[k], names[k])
    ensures RestructureRows(Table(names, paths, sizes)) == Success(Records(names, newPaths, sizes, extensions, bytes))
  {
    var rows := Table(names, paths, sizes);
    RestructureRowsSucceeds(rows);
    RestructureRowsEntries(rows);
    var got := RestructureRows(rows).value;
    var want := Records(names, newPaths, sizes, extensions, bytes);
    forall k | 0 <= k < |names| ensures got[k] == want[k] {
      assert rows[k] == RawRow(names[k], paths[k], sizes[k]);
      assert NormalizeRow(rows[k]) == Success(got[k]);
    }
    assert got == want;
  }

  /** A table whose first unreadable size is in row `bad` fails with that row's error. */
  lemma RestructureRowsFailsAt(names: seq<string>, paths: seq<string>, sizes: seq<string>, bad: int)
    requires |names| == |paths| == |sizes|
    requires 0 <= bad < |sizes| && ParseSize(sizes[bad]).Failure?
    requires forall k :: 0 <= k < bad ==> ParseSize(sizes[k]).Success?
    ensures RestructureRows(Table(names, paths, sizes)) == Failure(ParseSize(sizes[bad]).error)
  {
    var rows := Table(names, paths, sizes);
    assert FirstFailure(rows, bad);
    RestructureRowsFailure(rows, bad);
  }
}
