/** Flattening of manifests into the ordered list of `data_file` descriptors
    they reference. */
module DataFileCollector {
  import opened Wrappers
  import opened IcebergTypes
  import opened Sources

  /** The `data_file` of each entry, in entry order. */
  function DataFilesOf(records: seq<AvroRecord>): (files: seq<DataFile>)
    ensures |files| == |records|
    ensures forall i :: 0 <= i < |records| ==> files[i] == records[i].dataFile
  {
    seq(|records|, i requires 0 <= i < |records| => records[i].dataFile)
  }

  /** Total number of entries over all manifests in `urls`. */
  function EntryCount(urls: seq<string>, avro: AvroDecoder): nat
    requires AllFetched(urls, avro)
  {
    if |urls| == 0 then 0
    else |FetchAvroRecords(urls[0], avro).value| + EntryCount(urls[1..], avro)
  }

  /** Manifests are read one after the other; the first one that cannot be
      read rejects the whole call. On success the result holds one descriptor
      per entry, nothing removed and nothing merged. */
  function FetchDataFilesFromManifests(urls: seq<string>, avro: AvroDecoder): (r: Result<seq<DataFile>, Error>)
    ensures r.Ok? <==> AllFetched(urls, avro)
    ensures r.Err? ==> IsReadError(r.error)
    ensures r.Ok? ==> |r.value| == EntryCount(urls, avro)
  {
    if |urls| == 0 then Ok([])
    else
      var records :- FetchAvroRecords(urls[0], avro);
      var rest :- FetchDataFilesFromManifests(urls[1..], avro);
      Ok(DataFilesOf(records) + rest)
  }

  /** A rejected call reports the error of the first manifest that cannot be
      read, after every earlier one was read. */
  lemma {:induction false} FetchDataFilesFirstError(urls: seq<string>, avro: AvroDecoder)
    requires FetchDataFilesFromManifests(urls, avro).Err?
    ensures FirstFetchError(urls, avro, FetchDataFilesFromManifests(urls, avro).error)
    decreases |urls|
  {
    if FetchAvroRecords(urls[0], avro).Err? {
      FirstFetchErrorAtHead(urls, avro);
    } else {
      FetchDataFilesFirstError(urls[1..], avro);
      FirstFetchErrorInTail(urls, avro, FetchDataFilesFromManifests(urls, avro).error);
    }
  }

  /** Result of reading `a` and then `b`: the first error, else both lists
      in order. */
  function Then(ra: Result<seq<DataFile>, Error>, rb: Result<seq<DataFile>, Error>): Result<seq<DataFile>, Error> {
    match ra
    case Err(e) => Err(e)
    case Ok(fa) =>
      match rb
      case Err(e) => Err(e)
      case Ok(fb) => Ok(fa + fb)
  }

  /** Reading a concatenation of manifest lists is reading each part in turn:
      the output keeps manifest order. */
  lemma {:induction false} FetchDataFilesAppend(a: seq<string>, b: seq<string>, avro: AvroDecoder)
    ensures FetchDataFilesFromManifests(a + b, avro)
         == Then(FetchDataFilesFromManifests(a, avro), FetchDataFilesFromManifests(b, avro))
    decreases |a|
  {
    if |a| == 0 {
      assert a + b == b;
      var rb := FetchDataFilesFromManifests(b, avro);
      if rb.Ok? {
        assert [] + rb.value == rb.value;
      }
    } else {
      assert (a + b)[0] == a[0];
      assert (a + b)[1..] == a[1..] + b;
      FetchDataFilesAppend(a[1..], b, avro);
      var ra := FetchAvroRecords(a[0], avro);
      if ra.Ok? {
        var r1 := FetchDataFilesFromManifests(a[1..], avro);
        var rb := FetchDataFilesFromManifests(b, avro);
        if r1.Ok? && rb.Ok? {
          assert DataFilesOf(ra.value) + (r1.value + rb.value)
              == (DataFilesOf(ra.value) + r1.value) + rb.value;
        }
      }
    }
  }

  /** A single manifest yields the `data_file` of each of its entries in order. */
  lemma FetchDataFilesSingle(url: string, avro: AvroDecoder)
    requires FetchAvroRecords(url, avro).Ok?
    ensures FetchDataFilesFromManifests([url], avro)
         == Ok(DataFilesOf(FetchAvroRecords(url, avro).value))
  {
    assert [url][1..] == [];
    assert DataFilesOf(FetchAvroRecords(url, avro).value) + [] == DataFilesOf(FetchAvroRecords(url, avro).value);
  }

  /** A descriptor is in the output exactly when some entry of some manifest
      carries it. */
  lemma {:induction false} FetchDataFilesMembers(urls: seq<string>, avro: AvroDecoder, d: DataFile)
    requires AllFetched(urls, avro)
    ensures d in FetchDataFilesFromManifests(urls, avro).value
        <==> exists i, j :: 0 <= i < |urls| && 0 <= j < |FetchAvroRecords(urls[i], avro).value|
               && FetchAvroRecords(urls[i], avro).value[j].dataFile == d
    decreases |urls|
  {
    if |urls| > 0 {
      var head := FetchAvroRecords(urls[0], avro).value;
      assert AllFetched(urls[1..], avro) by {
        forall i | 0 <= i < |urls[1..]| ensures FetchAvroRecords(urls[1..][i], avro).Ok? {
          assert urls[1..][i] == urls[i + 1];
        }
      }
      FetchDataFilesMembers(urls[1..], avro, d);
      var out := FetchDataFilesFromManifests(urls, avro).value;
      assert out == DataFilesOf(head) + FetchDataFilesFromManifests(urls[1..], avro).value;
      if d in out {
        if d in DataFilesOf(head) {
          var j :| 0 <= j < |head| && DataFilesOf(head)[j] == d;
          assert FetchAvroRecords(urls[0], avro).value[j].dataFile == d;
        } else {
          var i, j :| 0 <= i < |urls[1..]| && 0 <= j < |FetchAvroRecords(urls[1..][i], avro).value|
               && FetchAvroRecords(urls[1..][i], avro).value[j].dataFile == d;
          assert urls[1..][i] == urls[i + 1];
        }
      }
      if exists i, j :: 0 <= i < |urls| && 0 <= j < |FetchAvroRecords(urls[i], avro).value|
               && FetchAvroRecords(urls[i], avro).value[j].dataFile == d {
        var i, j :| 0 <= i < |urls| && 0 <= j < |FetchAvroRecords(urls[i], avro).value|
               && FetchAvroRecords(urls[i], avro).value[j].dataFile == d;
        if i == 0 {
          assert DataFilesOf(head)[j] == d;
        } else {
          assert urls[1..][i - 1] == urls[i];
        }
      }
    }
  }
}
