/**
 * The table read from the CSV file, and `restructure_data`, which walks it
 * row by row: it collects each row's extension and byte size, and rewrites
 * the row's path in place with the file name deleted. The two collected
 * columns are attached to the table only once every row has been read.
 */
module DataFrame {
  import opened Wrappers
  import opened Strings
  import opened Units
  import opened FileRecords

  class Frame {
    const fileName: seq<string>
    const size: seq<string>
    const filePath: array<string>
    var fileExtension: seq<string>
    var uniformSize: seq<nat>

    /** The three CSV columns have one cell per row. */
    ghost predicate Valid()
      reads this
    {
      |fileName| == filePath.Length && |size| == filePath.Length
    }

    /** The two derived columns have been attached, one cell per row. */
    ghost predicate Restructured()
      reads this
    {
      |fileExtension| == filePath.Length && |uniformSize| == filePath.Length
    }

    /** The table's rows as they stand now. */
    ghost function Rows(): (rows: seq<RawRow>)
      requires Valid()
      reads this, filePath
      ensures |rows| == filePath.Length
    {
      Table(fileName, filePath[..], size)
    }

    /** The entries of all rows, in row order, once the table is restructured. */
    ghost function Entries(): (rs: seq<FileRecord>)
      requires Valid() && Restructured()
      reads this, filePath
      ensures |rs| == filePath.Length
    {
      Records(fileName, filePath[..], size, fileExtension, uniformSize)
    }

    /** A table holding the given rows, not yet restructured. */
    constructor (rows: seq<RawRow>)
      ensures Valid() && Rows() == rows && fresh(filePath)
      ensures fileExtension == [] && uniformSize == []
    {
      fileName := seq(|rows|, k requires 0 <= k < |rows| => rows[k].fileName);
      size := seq(|rows|, k requires 0 <= k < |rows| => rows[k].size);
      filePath := new string[|rows|](k requires 0 <= k < |rows| => rows[k].filePath);
      fileExtension := [];
      uniformSize := [];
    }

    /**
     * One pass of the loop of `restructure_data`: row `i`'s extension, its
     * path rewritten in place with the file name deleted, and its size read
     * as a number of bytes.
     */
    method RewriteRow(i: nat) returns (extension: string, bytes: Result<nat, SizeError>)
      requires Valid() && i < filePath.Length
      modifies filePath
      ensures extension == Extension(fileName[i])
      ensures filePath[i] == RemoveAll(old(filePath[i]), fileName[i])
      ensures forall k :: 0 <= k < filePath.Length && k != i ==> filePath[k] == old(filePath[k])
      ensures bytes == ParseSize(size[i])
    {
      extension := Extension(fileName[i]);
      filePath[i] := RemoveAll(filePath[i], fileName[i]);
      bytes := ParseSize(size[i]);
    }

    /** The first `n` rows' extensions and byte sizes, in row order. */
    predicate Collected(extensions: seq<string>, sizes: seq<nat>, n: nat)
      requires n <= |extensions| && n <= |sizes| && n <= |fileName| && n <= |size|
    {
      forall k :: 0 <= k < n ==>
        extensions[k] == Extension(fileName[k]) && ParseSize(size[k]) == Success(sizes[k])
    }

    /**
     * The loop of `restructure_data`: row by row, the extension and the byte
     * size are collected and the path is rewritten with the file name
     * deleted. It stops at the first row whose size cannot be read, returning
     * that error and, as `bad`, that row; the paths up to and including it
     * have been rewritten and the rest are untouched.
     */
    method RewriteRows() returns (extensions: seq<string>, sizes: seq<nat>,
                                  failure: Option<SizeError>, ghost bad: nat)
      requires Valid()
      modifies filePath
      ensures failure.None? ==> |extensions| == filePath.Length && |sizes| == filePath.Length
      ensures failure.None? ==> Collected(extensions, sizes, filePath.Length)
      ensures failure.None? ==> forall k :: 0 <= k < filePath.Length ==>
        filePath[k] == RemoveAll(old(filePath[k]), fileName[k])
      ensures failure.Some? ==> bad < filePath.Length && ParseSize(size[bad]) == Failure(failure.value)
      ensures failure.Some? ==> forall k :: 0 <= k < bad ==> ParseSize(size[k]).Success?
      ensures failure.Some? ==> forall k :: 0 <= k <= bad ==>
        filePath[k] == RemoveAll(old(filePath[k]), fileName[k])
      ensures failure.Some? ==> forall k :: bad < k < filePath.Length ==> filePath[k] == old(filePath[k])
    {
      extensions, sizes, failure, bad := [], [], None, 0;
      var i := 0;
      while i < filePath.Length
        invariant 0 <= i <= filePath.Length
        invariant |extensions| == i && |sizes| == i
        invariant Collected(extensions, sizes, i)
        invariant forall k :: 0 <= k < filePath.Length ==>
          filePath[k] == if k < i then RemoveAll(old(filePath[k]), fileName[k]) else old(filePath[k])
      {
        var extension, bytes := RewriteRow(i);
        extensions := extensions + [extension];
        if bytes.Failure? {
          return extensions, sizes, Some(bytes.error), i;
        }
        sizes := sizes + [bytes.value];
        i := i + 1;
      }
    }

    /**
     * `restructure_data`. When every size can be read, the table's entries
     * are those `RestructureRows` gives for the rows it held before, and
     * `None` is returned. Otherwise the error of the first bad row is
     * returned; the paths up to and including that row have already been
     * rewritten, the rest are untouched, and no column is attached.
     */
    method Restructure() returns (failure: Option<SizeError>)
      requires Valid()
      modifies this, filePath
      ensures Valid()
      ensures failure.None? <==> RestructureRows(old(Rows())).Success?
      ensures failure.None? ==> Restructured() && Entries() == RestructureRows(old(Rows())).value
      ensures failure.Some? ==> RestructureRows(old(Rows())) == Failure(failure.value)
      ensures failure.Some? ==> fileExtension == old(fileExtension) && uniformSize == old(uniformSize)
      ensures failure.Some? ==>
        exists bad :: 0 <= bad < filePath.Length && ParseSize(size[bad]) == Failure(failure.value)
          && (forall k :: 0 <= k < bad ==> ParseSize(size[k]).Success?)
          && (forall k :: 0 <= k <= bad ==> filePath[k] == RemoveAll(old(filePath[k]), fileName[k]))
          && (forall k :: bad < k < filePath.Length ==> filePath[k] == old(filePath[k]))
    {
      ghost var paths := filePath[..];
      assert Rows() == Table(fileName, paths, size);
      var extensions, sizes, err, bad := RewriteRows();
      if err.Some? {
        RestructureRowsFailsAt(fileName, paths, size, bad);
        return err;
      }
      fileExtension := extensions;
      uniformSize := sizes;
      RestructureRowsOfColumns(fileName, paths, size, filePath[..], extensions, sizes);
      failure := None;
    }
  }
}
