/** Resolution of the current snapshot's manifests and their split into data
    manifests and delete manifests. */
module ManifestResolver {
  import opened Wrappers
  import opened IcebergTypes
  import opened Sources

  datatype ManifestUrls = ManifestUrls(dataManifestUrls: seq<string>, deleteManifestUrls: seq<string>)

  /** How a manifest is classified from its entries. */
  datatype ManifestKind =
    | EmptyManifest               // no entries: listed nowhere
    | DataManifest                // first entry's content absent or 0
    | DeleteManifest              // first entry's content 1 or 2
    | UnknownContent(content: int) // any other content: listed nowhere

  /** A manifest's kind is read off its first entry; an absent `content`
      counts as data. */
  function KindOf(records: seq<AvroRecord>): (k: ManifestKind)
    ensures k == EmptyManifest <==> |records| == 0
    ensures k == DataManifest <==>
      |records| > 0 && (records[0].dataFile.content == None || records[0].dataFile.content == Some(0))
    ensures k == DeleteManifest <==>
      |records| > 0 && (records[0].dataFile.content == Some(1) || records[0].dataFile.content == Some(2))
    ensures k.UnknownContent? <==>
      |records| > 0 && records[0].dataFile.content.Some? && records[0].dataFile.content.value !in {0, 1, 2}
  {
    if |records| == 0 then EmptyManifest
    else
      var content := records[0].dataFile.content.GetOr(DataContent);
      if content == DataContent then DataManifest
      else if content == PositionDeleteContent || content == EqualityDeleteContent then DeleteManifest
      else UnknownContent(content)
  }

  /** The kind of the manifest at `url`, when it can be read. */
  function KindAt(url: string, avro: AvroDecoder): Option<ManifestKind> {
    match FetchAvroRecords(url, avro)
    case Ok(records) => Some(KindOf(records))
    case Err(_) => None
  }

  /** `a` is `b` with some elements left out, the rest kept in order. */
  predicate IsSubsequence<T(==)>(a: seq<T>, b: seq<T>)
    decreases |b|
  {
    |a| == 0 ||
    (|b| > 0 && ((a[0] == b[0] && IsSubsequence(a[1..], b[1..])) || IsSubsequence(a, b[1..])))
  }

  /** Each manifest is read in order and filed by its kind. The first
      manifest that cannot be read rejects the call. On success both lists
      keep input order, and every occurrence of a URL goes to the list its
      kind selects, or to neither. */
  function ClassifyManifests(urls: seq<string>, avro: AvroDecoder): (r: Result<ManifestUrls, Error>)
    ensures r.Ok? <==> AllFetched(urls, avro)
    ensures r.Err? ==> IsReadError(r.error)
  {
    if |urls| == 0 then Ok(ManifestUrls([], []))
    else
      var records :- FetchAvroRecords(urls[0], avro);
      var rest :- ClassifyManifests(urls[1..], avro);
      match KindOf(records)
      case DataManifest =>
        Ok(rest.(dataManifestUrls := [urls[0]] + rest.dataManifestUrls))
      case DeleteManifest =>
        Ok(rest.(deleteManifestUrls := [urls[0]] + rest.deleteManifestUrls))
      case _ =>
        Ok(rest)
  }

  /** Both lists keep input order: each is a subsequence of the input. */
  lemma {:induction false} ClassifiedInOrder(urls: seq<string>, avro: AvroDecoder)
    requires ClassifyManifests(urls, avro).Ok?
    ensures IsSubsequence(ClassifyManifests(urls, avro).value.dataManifestUrls, urls)
    ensures IsSubsequence(ClassifyManifests(urls, avro).value.deleteManifestUrls, urls)
    decreases |urls|
  {
    if |urls| > 0 {
      ClassifiedInOrder(urls[1..], avro);
      var rest := ClassifyManifests(urls[1..], avro).value;
      var r := ClassifyManifests(urls, avro).value;
      if r.dataManifestUrls != rest.dataManifestUrls {
        assert r.dataManifestUrls == [urls[0]] + rest.dataManifestUrls;
        assert r.dataManifestUrls[1..] == rest.dataManifestUrls;
      }
      if r.deleteManifestUrls != rest.deleteManifestUrls {
        assert r.deleteManifestUrls == [urls[0]] + rest.deleteManifestUrls;
        assert r.deleteManifestUrls[1..] == rest.deleteManifestUrls;
      }
    }
  }

  /** Every occurrence of a data manifest goes to the data list, and nothing
      else does. */
  lemma {:induction false} ClassifiedDataByKind(urls: seq<string>, avro: AvroDecoder, u: string)
    requires ClassifyManifests(urls, avro).Ok?
    ensures multiset(ClassifyManifests(urls, avro).value.dataManifestUrls)[u]
         == if KindAt(u, avro) == Some(DataManifest) then multiset(urls)[u] else 0
    decreases |urls|
  {
    if |urls| > 0 {
      ClassifiedDataByKind(urls[1..], avro, u);
      var head := FetchAvroRecords(urls[0], avro).value;
      var rest := ClassifyManifests(urls[1..], avro).value.dataManifestUrls;
      var listed := ClassifyManifests(urls, avro).value.dataManifestUrls;
      assert KindAt(urls[0], avro) == Some(KindOf(head));
      if KindOf(head) == DataManifest {
        assert listed == [urls[0]] + rest;
      } else {
        assert listed == rest;
      }
      assert urls == [urls[0]] + urls[1..];
      assert multiset(urls)[u] == multiset([urls[0]])[u] + multiset(urls[1..])[u];
    }
  }

  /** Every occurrence of a delete manifest goes to the delete list, and
      nothing else does. */
  lemma {:induction false} ClassifiedDeleteByKind(urls: seq<string>, avro: AvroDecoder, u: string)
    requires ClassifyManifests(urls, avro).Ok?
    ensures multiset(ClassifyManifests(urls, avro).value.deleteManifestUrls)[u]
         == if KindAt(u, avro) == Some(DeleteManifest) then multiset(urls)[u] else 0
    decreases |urls|
  {
    if |urls| > 0 {
      ClassifiedDeleteByKind(urls[1..], avro, u);
      var head := FetchAvroRecords(urls[0], avro).value;
      var rest := ClassifyManifests(urls[1..], avro).value.deleteManifestUrls;
      var listed := ClassifyManifests(urls, avro).value.deleteManifestUrls;
      assert KindAt(urls[0], avro) == Some(KindOf(head));
      if KindOf(head) == DeleteManifest {
        assert listed == [urls[0]] + rest;
      } else {
        assert listed == rest;
      }
      assert urls == [urls[0]] + urls[1..];
      assert multiset(urls)[u] == multiset([urls[0]])[u] + multiset(urls[1..])[u];
    }
  }

  /** A rejected classification reports the error of the first manifest that
      cannot be read, after every earlier one was read. */
  lemma {:induction false} ClassifyFirstError(urls: seq<string>, avro: AvroDecoder)
    requires ClassifyManifests(urls, avro).Err?
    ensures FirstFetchError(urls, avro, ClassifyManifests(urls, avro).error)
    decreases |urls|
  {
    if FetchAvroRecords(urls[0], avro).Err? {
      FirstFetchErrorAtHead(urls, avro);
    } else {
      ClassifyFirstError(urls[1..], avro);
      FirstFetchErrorInTail(urls, avro, ClassifyManifests(urls, avro).error);
    }
  }

  /** No occurrence of a manifest lands in both lists. */
  lemma ClassifiedAtMostOnce(urls: seq<string>, avro: AvroDecoder)
    requires ClassifyManifests(urls, avro).Ok?
    ensures multiset(ClassifyManifests(urls, avro).value.dataManifestUrls)
          + multiset(ClassifyManifests(urls, avro).value.deleteManifestUrls) <= multiset(urls)
    ensures multiset(ClassifyManifests(urls, avro).value.dataManifestUrls)
          !! multiset(ClassifyManifests(urls, avro).value.deleteManifestUrls)
  {
    var r := ClassifyManifests(urls, avro).value;
    forall u ensures (multiset(r.dataManifestUrls) + multiset(r.deleteManifestUrls))[u] <= multiset(urls)[u] {
      ClassifiedDataByKind(urls, avro, u);
      ClassifiedDeleteByKind(urls, avro, u);
    }
    forall u ensures multiset(r.dataManifestUrls)[u] == 0 || multiset(r.deleteManifestUrls)[u] == 0 {
      ClassifiedDataByKind(urls, avro, u);
      ClassifiedDeleteByKind(urls, avro, u);
    }
  }

  /** `current-snapshot-id` is usable only when present and positive: the
      source rejects it when it is falsy (absent or 0) or negative. */
  predicate HasCurrentSnapshotId(metadata: TableMetadata) {
    metadata.currentSnapshotId.Some? && metadata.currentSnapshotId.value > 0
  }

  /** Index of the first snapshot whose id is `id`, or -1. */
  function FindSnapshot(snapshots: seq<Snapshot>, id: int): (i: int)
    ensures -1 <= i < |snapshots|
    ensures i == -1 <==> forall j :: 0 <= j < |snapshots| ==> snapshots[j].snapshotId != id
    ensures 0 <= i ==> snapshots[i].snapshotId == id
    ensures 0 <= i ==> forall j :: 0 <= j < i ==> snapshots[j].snapshotId != id
  {
    if |snapshots| == 0 then -1
    else if snapshots[0].snapshotId == id then 0
    else
      var j := FindSnapshot(snapshots[1..], id);
      if j == -1 then -1 else j + 1
  }

  /** A `manifest-list` location counts only when it is a non-empty string. */
  predicate HasManifestList(snapshot: Snapshot) {
    snapshot.manifestList.Some? && snapshot.manifestList.value != ""
  }

  /** The manifest locations of a snapshot: the `manifest_path` of every
      manifest-list record when there is a manifest list, otherwise those of
      the inline manifests, otherwise an error. */
  function ManifestPaths(snapshot: Snapshot, avro: AvroDecoder): (r: Result<seq<string>, Error>)
    ensures r == Err(NoManifestInformation) <==> !HasManifestList(snapshot) && snapshot.manifests.None?
    ensures r.Err? ==> r.error == NoManifestInformation || IsReadError(r.error)
    ensures HasManifestList(snapshot) ==>
      var listed := FetchAvroRecords(snapshot.manifestList.value, avro);
      && (r.Ok? <==> listed.Ok?)
      && (r.Ok? ==> |r.value| == |listed.value|)
      && (r.Ok? ==> forall i :: 0 <= i < |r.value| ==> r.value[i] == listed.value[i].manifestPath)
      && (listed.Err? ==> r == Err(listed.error))
    ensures !HasManifestList(snapshot) && snapshot.manifests.Some? ==>
      r.Ok? && |r.value| == |snapshot.manifests.value|
      && forall i :: 0 <= i < |r.value| ==> r.value[i] == snapshot.manifests.value[i].manifestPath
  {
    if HasManifestList(snapshot) then
      var records :- FetchAvroRecords(snapshot.manifestList.value, avro);
      Ok(seq(|records|, i requires 0 <= i < |records| => records[i].manifestPath))
    else if snapshot.manifests.Some? then
      var inline := snapshot.manifests.value;
      Ok(seq(|inline|, i requires 0 <= i < |inline| => inline[i].manifestPath))
    else
      Err(NoManifestInformation)
  }

  /** With a manifest list present, the inline manifests are never consulted. */
  lemma ManifestListTakesPrecedence(snapshot: Snapshot, inline: Option<seq<ManifestRef>>, avro: AvroDecoder)
    requires HasManifestList(snapshot)
    ensures ManifestPaths(snapshot.(manifests := inline), avro) == ManifestPaths(snapshot, avro)
  {
  }

  /** Without a manifest list, nothing is fetched: any two decoders give the
      same manifest locations. */
  lemma InlineManifestsFetchNothing(snapshot: Snapshot, avro1: AvroDecoder, avro2: AvroDecoder)
    requires !HasManifestList(snapshot)
    ensures ManifestPaths(snapshot, avro1) == ManifestPaths(snapshot, avro2)
  {
  }

  /** The first snapshot carrying the current id (an arbitrary placeholder
      when there is none). */
  function CurrentSnapshot(metadata: TableMetadata): Snapshot {
    var i := if metadata.currentSnapshotId.Some?
      then FindSnapshot(metadata.snapshots, metadata.currentSnapshotId.value) else -1;
    if i == -1 then Snapshot(0, None, None) else metadata.snapshots[i]
  }

  /** Manifest locations of the current snapshot, split into data and delete
      manifests. Rejects a missing, zero or negative current id, an id no
      snapshot carries, and a snapshot without manifest information. */
  function FetchManifestUrls(metadata: TableMetadata, avro: AvroDecoder): (r: Result<ManifestUrls, Error>)
    ensures r == Err(MissingSnapshotId) <==> !HasCurrentSnapshotId(metadata)
    ensures r.Err? && r.error.SnapshotNotFound? <==>
      HasCurrentSnapshotId(metadata)
      && forall s :: s in metadata.snapshots ==> s.snapshotId != metadata.currentSnapshotId.value
    ensures r.Err? && r.error.SnapshotNotFound? ==> r.error.id == metadata.currentSnapshotId.value
    ensures r == Err(NoManifestInformation) <==> (
      && HasCurrentSnapshotId(metadata)
      && (exists s :: s in metadata.snapshots && s.snapshotId == metadata.currentSnapshotId.value)
      && !HasManifestList(CurrentSnapshot(metadata))
      && CurrentSnapshot(metadata).manifests.None?)
    ensures r.Ok? ==> HasCurrentSnapshotId(metadata)
    ensures r.Ok? ==> exists s :: s in metadata.snapshots && s.snapshotId == metadata.currentSnapshotId.value
    ensures (HasCurrentSnapshotId(metadata)
             && exists s :: s in metadata.snapshots && s.snapshotId == metadata.currentSnapshotId.value) ==>
      r == (match ManifestPaths(CurrentSnapshot(metadata), avro)
            case Ok(urls) => ClassifyManifests(urls, avro)
            case Err(e) => Err(e))
  {
    var currentSnapshotId := metadata.currentSnapshotId;
    if currentSnapshotId.None? || currentSnapshotId.value == 0 || currentSnapshotId.value < 0 then
      Err(MissingSnapshotId)
    else
      var id := currentSnapshotId.value;
      var i := FindSnapshot(metadata.snapshots, id);
      if i == -1 then
        Err(SnapshotNotFound(id))
      else
        var urls :- ManifestPaths(metadata.snapshots[i], avro);
        ClassifyManifests(urls, avro)
  }
}
