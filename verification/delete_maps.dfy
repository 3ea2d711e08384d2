/** Construction of the two delete indices, both keyed by the path of the
    data file a delete applies to: the deleted positions (position deletes)
    and the deleting rows (equality deletes). */
module DeleteIndex {
  import opened Wrappers
  import opened IcebergTypes
  import opened Sources
  import opened DataFileCollector

  datatype DeleteMaps = DeleteMaps(
    positionDeletes: map<string, set<int>>,
    equalityDeletes: map<string, seq<Row>>)

  const NoDeletes: DeleteMaps := DeleteMaps(map[], map[])

  /** A delete file's `content` code together with its decoded rows. */
  datatype LoadedDeleteFile = LoadedDeleteFile(content: Option<int>, rows: seq<Row>)

  /** The data file a delete row applies to: its `file_path`, unless that is
      absent or empty. */
  function Target(row: Row): Option<string> {
    if row.filePath.Some? && row.filePath.value != "" then row.filePath else None
  }

  /** Positions recorded for `path` (none when the key is absent). */
  function PositionsAt(m: map<string, set<int>>, path: string): set<int> {
    if path in m then m[path] else {}
  }

  /** Equality-delete rows recorded for `path` (none when the key is absent). */
  function EqualityRowsAt(m: map<string, seq<Row>>, path: string): seq<Row> {
    if path in m then m[path] else []
  }

  /** Keys are created on first insertion only: no key maps to an empty set
      or an empty list. */
  predicate NoEmptyEntries(maps: DeleteMaps) {
    && (forall path :: path in maps.positionDeletes ==> maps.positionDeletes[path] != {})
    && (forall path :: path in maps.equalityDeletes ==> maps.equalityDeletes[path] != [])
  }

  /** Folds one row of a delete file with code `content` into the indices. */
  function AddRow(maps: DeleteMaps, content: Option<int>, row: Row): (r: DeleteMaps)
    ensures Target(row).None? ==> r == maps
    ensures content == Some(PositionDeleteContent) && row.pos.None? ==> r == maps
    ensures content != Some(PositionDeleteContent) && content != Some(EqualityDeleteContent) ==> r == maps
    ensures NoEmptyEntries(maps) ==> NoEmptyEntries(r)
  {
    match Target(row)
    case None => maps
    case Some(target) =>
      if content == Some(PositionDeleteContent) then
        match row.pos
        case None => maps
        case Some(pos) =>
          var positions := PositionsAt(maps.positionDeletes, target);
          maps.(positionDeletes := maps.positionDeletes[target := positions + {pos}])
      else if content == Some(EqualityDeleteContent) then
        var rows := EqualityRowsAt(maps.equalityDeletes, target);
        maps.(equalityDeletes := maps.equalityDeletes[target := rows + [row]])
      else
        maps
  }

  /** The effect of one row on the entry of `path`: a position delete adds its
      `pos` to its target's set, an equality delete appends the whole row to
      its target's list, and no other entry changes. */
  lemma AddRowAt(maps: DeleteMaps, content: Option<int>, row: Row, path: string)
    ensures PositionsAt(AddRow(maps, content, row).positionDeletes, path)
         == PositionsAt(maps.positionDeletes, path)
            + (if content == Some(PositionDeleteContent) && Target(row) == Some(path) && row.pos.Some?
               then {row.pos.value} else {})
    ensures EqualityRowsAt(AddRow(maps, content, row).equalityDeletes, path)
         == EqualityRowsAt(maps.equalityDeletes, path)
            + (if content == Some(EqualityDeleteContent) && Target(row) == Some(path) then [row] else [])
  {
    assert EqualityRowsAt(maps.equalityDeletes, path) + [] == EqualityRowsAt(maps.equalityDeletes, path);
  }

  /** Folds the rows of one delete file into the indices, first row first. */
  function AddRows(maps: DeleteMaps, content: Option<int>, rows: seq<Row>): (r: DeleteMaps)
    ensures NoEmptyEntries(maps) ==> NoEmptyEntries(r)
    decreases |rows|
  {
    if |rows| == 0 then maps
    else AddRows(AddRow(maps, content, rows[0]), content, rows[1..])
  }

  /** Folds every delete file into the indices, one file after the other. */
  function AddFiles(maps: DeleteMaps, files: seq<LoadedDeleteFile>): (r: DeleteMaps)
    ensures NoEmptyEntries(maps) ==> NoEmptyEntries(r)
    decreases |files|
  {
    if |files| == 0 then maps
    else AddFiles(AddRows(maps, files[0].content, files[0].rows), files[1..])
  }

  /** The indices built from the delete files, processed in the given order. */
  function BuildDeleteMaps(files: seq<LoadedDeleteFile>): (r: DeleteMaps)
    ensures NoEmptyEntries(r)
  {
    AddFiles(NoDeletes, files)
  }

  // Reference definitions: what the indices should hold, independent of the fold.

  /** Positions deleted from `path` by position-delete rows among `rows`. */
  ghost function RowPositions(rows: seq<Row>, path: string): set<int> {
    set row | row in rows && Target(row) == Some(path) && row.pos.Some? :: row.pos.value
  }

  /** Positions deleted from `path` by any position-delete file. */
  ghost function Positions(files: seq<LoadedDeleteFile>, path: string): set<int> {
    set file, row | file in files && file.content == Some(PositionDeleteContent) && row in file.rows
      && Target(row) == Some(path) && row.pos.Some? :: row.pos.value
  }

  /** The rows among `rows` that target `path`, in order. */
  function RowsTargeting(rows: seq<Row>, path: string): seq<Row> {
    if |rows| == 0 then []
    else (if Target(rows[0]) == Some(path) then [rows[0]] else []) + RowsTargeting(rows[1..], path)
  }

  /** Equality-delete rows targeting `path`, file by file in the given order. */
  function EqualityRows(files: seq<LoadedDeleteFile>, path: string): seq<Row> {
    if |files| == 0 then []
    else
      (if files[0].content == Some(EqualityDeleteContent) then RowsTargeting(files[0].rows, path) else [])
      + EqualityRows(files[1..], path)
  }

  lemma RowPositionsCons(rows: seq<Row>, path: string)
    requires |rows| > 0
    ensures RowPositions(rows, path)
         == (if Target(rows[0]) == Some(path) && rows[0].pos.Some? then {rows[0].pos.value} else {})
            + RowPositions(rows[1..], path)
  {
    assert rows == [rows[0]] + rows[1..];
  }

  /** Folding a file's rows adds to each path the positions those rows delete from it. */
  lemma {:induction false} AddRowsPositions(maps: DeleteMaps, content: Option<int>, rows: seq<Row>, path: string)
    ensures PositionsAt(AddRows(maps, content, rows).positionDeletes, path)
         == PositionsAt(maps.positionDeletes, path)
            + (if content == Some(PositionDeleteContent) then RowPositions(rows, path) else {})
    decreases |rows|
  {
    if |rows| > 0 {
      AddRowAt(maps, content, rows[0], path);
      AddRowsPositions(AddRow(maps, content, rows[0]), content, rows[1..], path);
      if content == Some(PositionDeleteContent) {
        RowPositionsCons(rows, path);
      }
    }
  }

  /** Folding a file's rows appends to each path the rows that target it, in order. */
  lemma {:induction false} AddRowsEqualityRows(maps: DeleteMaps, content: Option<int>, rows: seq<Row>, path: string)
    ensures EqualityRowsAt(AddRows(maps, content, rows).equalityDeletes, path)
         == EqualityRowsAt(maps.equalityDeletes, path)
            + (if content == Some(EqualityDeleteContent) then RowsTargeting(rows, path) else [])
    decreases |rows|
  {
    var before := EqualityRowsAt(maps.equalityDeletes, path);
    if |rows| == 0 {
      assert before + [] == before;
    } else {
      var next := AddRow(maps, content, rows[0]);
      AddRowAt(maps, content, rows[0], path);
      AddRowsEqualityRows(next, content, rows[1..], path);
      if content == Some(EqualityDeleteContent) {
        var head := if Target(rows[0]) == Some(path) then [rows[0]] else [];
        assert EqualityRowsAt(next.equalityDeletes, path) == before + head;
        AppendAssociative(before, head, RowsTargeting(rows[1..], path));
      } else {
        assert EqualityRowsAt(next.equalityDeletes, path) == before;
      }
    }
  }

  lemma PositionsCons(files: seq<LoadedDeleteFile>, path: string)
    requires |files| > 0
    ensures Positions(files, path)
         == (if files[0].content == Some(PositionDeleteContent) then RowPositions(files[0].rows, path) else {})
            + Positions(files[1..], path)
  {
    assert files == [files[0]] + files[1..];
  }

  /** Folding the files adds to each path its reference positions. */
  lemma {:induction false} AddFilesPositions(maps: DeleteMaps, files: seq<LoadedDeleteFile>, path: string)
    ensures PositionsAt(AddFiles(maps, files).positionDeletes, path)
         == PositionsAt(maps.positionDeletes, path) + Positions(files, path)
    decreases |files|
  {
    if |files| > 0 {
      var next := AddRows(maps, files[0].content, files[0].rows);
      AddRowsPositions(maps, files[0].content, files[0].rows, path);
      AddFilesPositions(next, files[1..], path);
      PositionsCons(files, path);
    }
  }

  /** Folding the files appends to each path its reference equality rows. */
  lemma {:induction false} AddFilesEqualityRows(maps: DeleteMaps, files: seq<LoadedDeleteFile>, path: string)
    ensures EqualityRowsAt(AddFiles(maps, files).equalityDeletes, path)
         == EqualityRowsAt(maps.equalityDeletes, path) + EqualityRows(files, path)
    decreases |files|
  {
    var before := EqualityRowsAt(maps.equalityDeletes, path);
    if |files| == 0 {
      assert before + [] == before;
    } else {
      var next := AddRows(maps, files[0].content, files[0].rows);
      var head := if files[0].content == Some(EqualityDeleteContent) then RowsTargeting(files[0].rows, path) else [];
      var rest := EqualityRows(files[1..], path);
      AddRowsEqualityRows(maps, files[0].content, files[0].rows, path);
      AddFilesEqualityRows(next, files[1..], path);
      assert AddFiles(maps, files) == AddFiles(next, files[1..]);
      assert EqualityRows(files, path) == head + rest;
      AppendAssociative(before, head, rest);
    }
  }

  lemma AppendAssociative(a: seq<Row>, b: seq<Row>, c: seq<Row>)
    ensures (a + b) + c == a + (b + c)
  {
  }

  /** The indices hold exactly the reference contents: `path` is a key of the
      position index iff some position-delete row deletes a position from it,
      and then maps to all such positions; `path` is a key of the equality
      index iff some equality-delete row targets it, and then maps to all such
      rows, file by file in processing order and row order within a file. */
  lemma BuildDeleteMapsContents(files: seq<LoadedDeleteFile>, path: string)
    ensures path in BuildDeleteMaps(files).positionDeletes <==> Positions(files, path) != {}
    ensures path in BuildDeleteMaps(files).positionDeletes ==>
      BuildDeleteMaps(files).positionDeletes[path] == Positions(files, path)
    ensures path in BuildDeleteMaps(files).equalityDeletes <==> EqualityRows(files, path) != []
    ensures path in BuildDeleteMaps(files).equalityDeletes ==>
      BuildDeleteMaps(files).equalityDeletes[path] == EqualityRows(files, path)
  {
    AddFilesPositions(NoDeletes, files, path);
    AddFilesEqualityRows(NoDeletes, files, path);
    assert [] + EqualityRows(files, path) == EqualityRows(files, path);
  }

  /** The position index does not depend on the order in which delete files
      are processed. */
  lemma PositionDeletesOrderIndependent(a: seq<LoadedDeleteFile>, b: seq<LoadedDeleteFile>)
    requires multiset(a) == multiset(b)
    ensures BuildDeleteMaps(a).positionDeletes == BuildDeleteMaps(b).positionDeletes
  {
    var ma, mb := BuildDeleteMaps(a).positionDeletes, BuildDeleteMaps(b).positionDeletes;
    forall path ensures Positions(a, path) == Positions(b, path) {
      forall file ensures file in a <==> file in b {
        assert file in a <==> file in multiset(a);
        assert file in b <==> file in multiset(b);
      }
    }
    forall path ensures (path in ma <==> path in mb) && (path in ma ==> ma[path] == mb[path]) {
      BuildDeleteMapsContents(a, path);
      BuildDeleteMapsContents(b, path);
    }
    assert ma.Keys == mb.Keys;
  }

  lemma {:induction false} EqualityRowsAppend(a: seq<LoadedDeleteFile>, b: seq<LoadedDeleteFile>, path: string)
    ensures EqualityRows(a + b, path) == EqualityRows(a, path) + EqualityRows(b, path)
    decreases |a|
  {
    if |a| == 0 {
      assert a + b == b;
    } else {
      assert (a + b)[0] == a[0];
      assert (a + b)[1..] == a[1..] + b;
      EqualityRowsAppend(a[1..], b, path);
    }
  }

  /** Taking the same file out of two arrangements of the same files leaves
      two arrangements of the same files. */
  lemma RemoveMatchingFile(a: seq<LoadedDeleteFile>, b: seq<LoadedDeleteFile>, i: nat)
    requires multiset(a) == multiset(b) && |a| > 0 && i < |b| && b[i] == a[0]
    ensures multiset(a[1..]) == multiset(b[..i] + b[i + 1..])
  {
    var rest := b[..i] + b[i + 1..];
    assert b == b[..i] + [b[i]] + b[i + 1..];
    assert multiset(b) == multiset(b[..i]) + multiset([b[i]]) + multiset(b[i + 1..]);
    assert a == [a[0]] + a[1..];
    assert multiset(a) == multiset([a[0]]) + multiset(a[1..]);
    assert multiset(rest) == multiset(b[..i]) + multiset(b[i + 1..]);
    forall y ensures multiset(a[1..])[y] == multiset(rest)[y] {
      assert multiset(a)[y] == multiset(b)[y];
    }
    assert multiset(a[1..]) == multiset(rest);
  }

  /** The rows of a file taken out of the middle of an arrangement. */
  lemma EqualityRowsSplit(b: seq<LoadedDeleteFile>, i: nat, path: string)
    requires i < |b|
    ensures multiset(EqualityRows(b, path))
         == multiset(EqualityRows([b[i]], path)) + multiset(EqualityRows(b[..i] + b[i + 1..], path))
  {
    assert b == b[..i] + ([b[i]] + b[i + 1..]);
    EqualityRowsAppend(b[..i], [b[i]] + b[i + 1..], path);
    EqualityRowsAppend([b[i]], b[i + 1..], path);
    EqualityRowsAppend(b[..i], b[i + 1..], path);
  }

  /** Reordering the delete files permutes the equality-delete rows of each
      target but neither adds nor loses any. */
  lemma {:induction false} EqualityRowsPermutation(a: seq<LoadedDeleteFile>, b: seq<LoadedDeleteFile>, path: string)
    requires multiset(a) == multiset(b)
    ensures multiset(EqualityRows(a, path)) == multiset(EqualityRows(b, path))
    decreases |a|
  {
    if |a| == 0 {
      assert |b| == |multiset(b)| == 0;
    } else {
      assert a[0] in multiset(b);
      var i :| 0 <= i < |b| && b[i] == a[0];
      RemoveMatchingFile(a, b, i);
      EqualityRowsPermutation(a[1..], b[..i] + b[i + 1..], path);
      EqualityRowsSplit(b, i, path);
      EqualityRowsSplit(a, 0, path);
      assert a[..0] + a[1..] == a[1..];
    }
  }

  /** The equality index has the same keys whatever the processing order, and
      the same rows for each key up to their order. */
  lemma EqualityDeletesOrderIndependent(a: seq<LoadedDeleteFile>, b: seq<LoadedDeleteFile>)
    requires multiset(a) == multiset(b)
    ensures BuildDeleteMaps(a).equalityDeletes.Keys == BuildDeleteMaps(b).equalityDeletes.Keys
    ensures forall path :: path in BuildDeleteMaps(a).equalityDeletes ==>
      multiset(BuildDeleteMaps(a).equalityDeletes[path]) == multiset(BuildDeleteMaps(b).equalityDeletes[path])
  {
    var ma, mb := BuildDeleteMaps(a).equalityDeletes, BuildDeleteMaps(b).equalityDeletes;
    forall path ensures (path in ma <==> path in mb) && (path in ma ==> multiset(ma[path]) == multiset(mb[path])) {
      BuildDeleteMapsContents(a, path);
      BuildDeleteMapsContents(b, path);
      EqualityRowsPermutation(a, b, path);
      assert |EqualityRows(a, path)| == |multiset(EqualityRows(a, path))|;
      assert |EqualityRows(b, path)| == |multiset(EqualityRows(b, path))|;
    }
    assert ma.Keys == mb.Keys;
  }

  /** Reads every delete file, in order, as Parquet rows; the first file that
      cannot be read rejects the call. */
  function LoadDeleteFiles(files: seq<DataFile>, parquet: ParquetDecoder): (r: Result<seq<LoadedDeleteFile>, Error>)
    ensures r.Ok? <==> forall i :: 0 <= i < |files| ==> ReadParquetRows(files[i].filePath, parquet).Ok?
    ensures r.Err? ==> IsReadError(r.error)
    ensures r.Ok? ==> |r.value| == |files|
    ensures r.Ok? ==> forall i :: 0 <= i < |files| ==>
      r.value[i] == LoadedDeleteFile(files[i].content, ReadParquetRows(files[i].filePath, parquet).value)
  {
    if |files| == 0 then Ok([])
    else
      var rows :- ReadParquetRows(files[0].filePath, parquet);
      var rest :- LoadDeleteFiles(files[1..], parquet);
      Ok([LoadedDeleteFile(files[0].content, rows)] + rest)
  }

  /** The delete indices of the files referenced by `deleteManifestUrls`. With
      no delete manifests nothing is read and both indices are empty. */
  function FetchDeleteMaps(deleteManifestUrls: seq<string>, avro: AvroDecoder, parquet: ParquetDecoder): (r: Result<DeleteMaps, Error>)
    ensures |deleteManifestUrls| == 0 ==> r == Ok(NoDeletes)
    ensures r.Ok? ==> NoEmptyEntries(r.value)
    ensures r.Err? ==> IsReadError(r.error)
  {
    var deleteFiles :- if |deleteManifestUrls| > 0
      then FetchDataFilesFromManifests(deleteManifestUrls, avro)
      else Ok([]);
    var loaded :- LoadDeleteFiles(deleteFiles, parquet);
    Ok(BuildDeleteMaps(loaded))
  }

  /** With delete manifests, the call succeeds exactly when they and every
      delete file they list can be read, and then indexes the rows of those
      files in list order. */
  lemma FetchDeleteMapsReads(deleteManifestUrls: seq<string>, avro: AvroDecoder, parquet: ParquetDecoder)
    requires |deleteManifestUrls| > 0
    ensures var files := FetchDataFilesFromManifests(deleteManifestUrls, avro);
      FetchDeleteMaps(deleteManifestUrls, avro, parquet).Ok?
      <==> files.Ok? && LoadDeleteFiles(files.value, parquet).Ok?
    ensures var files := FetchDataFilesFromManifests(deleteManifestUrls, avro);
      FetchDeleteMaps(deleteManifestUrls, avro, parquet).Ok? ==>
      FetchDeleteMaps(deleteManifestUrls, avro, parquet).value
        == BuildDeleteMaps(LoadDeleteFiles(files.value, parquet).value)
    ensures var files := FetchDataFilesFromManifests(deleteManifestUrls, avro);
      files.Err? ==> FetchDeleteMaps(deleteManifestUrls, avro, parquet) == Err(files.error)
    ensures var files := FetchDataFilesFromManifests(deleteManifestUrls, avro);
      files.Ok? && LoadDeleteFiles(files.value, parquet).Err? ==>
      FetchDeleteMaps(deleteManifestUrls, avro, parquet) == Err(LoadDeleteFiles(files.value, parquet).error)
  {
  }

  /** A rejected load reports the error of one of the delete files that
      cannot be read; this holds whichever file is read first. */
  lemma {:induction false} LoadDeleteFilesErrorFrom(files: seq<DataFile>, parquet: ParquetDecoder)
    requires LoadDeleteFiles(files, parquet).Err?
    ensures exists i :: 0 <= i < |files| && ReadParquetRows(files[i].filePath, parquet) == Err(LoadDeleteFiles(files, parquet).error)
    decreases |files|
  {
    if ReadParquetRows(files[0].filePath, parquet).Err? {
      assert ReadParquetRows(files[0].filePath, parquet) == Err(LoadDeleteFiles(files, parquet).error);
    } else {
      LoadDeleteFilesErrorFrom(files[1..], parquet);
      var i :| 0 <= i < |files[1..]| && ReadParquetRows(files[1..][i].filePath, parquet) == Err(LoadDeleteFiles(files[1..], parquet).error);
      assert files[1..][i] == files[i + 1];
    }
  }

  /** Two rows deleting the same position of the same file leave one
      position in the index. */
  lemma DuplicatePositionsCollapse()
    ensures var row := Row(Some("a.parquet"), Some(5), map[]);
      BuildDeleteMaps([LoadedDeleteFile(Some(PositionDeleteContent), [row, row])]).positionDeletes
        == map["a.parquet" := {5}]
  {
    var row := Row(Some("a.parquet"), Some(5), map[]);
    var none: set<int> := {};
    assert Target(row) == Some("a.parquet");
    assert none + {5} == {5} + {5} == {5};
    var once := AddRow(NoDeletes, Some(PositionDeleteContent), row);
    assert once.positionDeletes == map["a.parquet" := {5}];
    var twice := AddRow(once, Some(PositionDeleteContent), row);
    assert twice.positionDeletes == map["a.parquet" := {5}];
    assert [row, row][1..] == [row];
    assert [row][1..] == [];
    assert AddRows(once, Some(PositionDeleteContent), [row]) == twice;
    var file := LoadedDeleteFile(Some(PositionDeleteContent), [row, row]);
    assert AddRows(NoDeletes, file.content, file.rows) == twice;
    assert [file][0] == file && [file][1..] == [];
    assert AddFiles(NoDeletes, [file]) == AddFiles(twice, []) == twice;
  }

  /** A position-delete row without `pos` contributes nothing. */
  lemma MissingPositionDropped()
    ensures var row := Row(Some("a.parquet"), None, map[]);
      BuildDeleteMaps([LoadedDeleteFile(Some(PositionDeleteContent), [row])]) == NoDeletes
  {
    var row := Row(Some("a.parquet"), None, map[]);
    assert AddRow(NoDeletes, Some(PositionDeleteContent), row) == NoDeletes;
    assert [row][1..] == [];
    var file := LoadedDeleteFile(Some(PositionDeleteContent), [row]);
    assert AddRows(NoDeletes, file.content, file.rows) == NoDeletes;
    assert [file][0] == file && [file][1..] == [];
    assert AddFiles(NoDeletes, [file]) == AddFiles(NoDeletes, []) == NoDeletes;
  }

  /** Two equality-delete rows for the same file are both kept, whole. */
  lemma EqualityRowsKept()
    ensures var r1 := Row(Some("b.parquet"), None, map["id" := "1"]);
      var r2 := Row(Some("b.parquet"), None, map["id" := "2"]);
      BuildDeleteMaps([LoadedDeleteFile(Some(EqualityDeleteContent), [r1, r2])]).equalityDeletes
        == map["b.parquet" := [r1, r2]]
  {
    var r1 := Row(Some("b.parquet"), None, map["id" := "1"]);
    var r2 := Row(Some("b.parquet"), None, map["id" := "2"]);
    var none: seq<Row> := [];
    assert Target(r1) == Some("b.parquet") && Target(r2) == Some("b.parquet");
    assert none + [r1] == [r1];
    assert [r1] + [r2] == [r1, r2];
    var once := AddRow(NoDeletes, Some(EqualityDeleteContent), r1);
    assert once.equalityDeletes == map["b.parquet" := [r1]];
    var twice := AddRow(once, Some(EqualityDeleteContent), r2);
    assert twice.equalityDeletes == map["b.parquet" := [r1, r2]];
    assert [r1, r2][1..] == [r2];
    assert [r2][1..] == [];
    assert AddRows(once, Some(EqualityDeleteContent), [r2]) == twice;
    var file := LoadedDeleteFile(Some(EqualityDeleteContent), [r1, r2]);
    assert AddRows(NoDeletes, file.content, file.rows) == twice;
    assert [file][0] == file && [file][1..] == [];
    assert AddFiles(NoDeletes, [file]) == AddFiles(twice, []) == twice;
  }
}
