/** The table-format structures that the resolution code reads, reduced to the
    fields it actually inspects, and the two decoders it delegates to. */
module IcebergTypes {
  import opened Wrappers

  /** Every way a resolution call can be rejected. */
  datatype Error =
    | MissingSnapshotId             // `current-snapshot-id` absent, zero or negative
    | SnapshotNotFound(id: int)     // no snapshot carries the current id
    | NoManifestInformation         // the snapshot has neither a manifest list nor inline manifests
    | InvalidS3Url(url: string)     // an `s3a://` URL with no `/` after the bucket
    | FetchFailed(url: string)      // transport or decoding of the file at `url` failed

  /** `data_file.content` codes of the Iceberg table format. */
  const DataContent: int := 0
  const PositionDeleteContent: int := 1
  const EqualityDeleteContent: int := 2

  /** A `data_file` descriptor: where the file lives and what it holds.
      `content` is absent in format-version-1 manifests. */
  datatype DataFile = DataFile(filePath: string, content: Option<int>)

  /** A decoded Avro record. Manifest-list records are read for their
      `manifest_path`, manifest entries for their `data_file`. */
  datatype AvroRecord = AvroRecord(manifestPath: string, dataFile: DataFile)

  /** An inline manifest reference held directly in a snapshot. */
  datatype ManifestRef = ManifestRef(manifestPath: string)

  /** A snapshot: its id, and the two alternative sources of its manifests. */
  datatype Snapshot = Snapshot(
    snapshotId: int,
    manifestList: Option<string>,
    manifests: Option<seq<ManifestRef>>)

  /** Table metadata: the current snapshot id and the known snapshots. */
  datatype TableMetadata = TableMetadata(
    currentSnapshotId: Option<int>,
    snapshots: seq<Snapshot>)

  /** A decoded delete-file row: the target data file, the deleted position
      (position deletes), and the remaining column values (equality deletes). */
  datatype Row = Row(
    filePath: Option<string>,
    pos: Option<int>,
    columns: map<string, string>)

  /** Fetch-and-decode of an Avro container at a URL (after `s3a://` translation); `None` when the
      transport or the decoder fails. */
  type AvroDecoder = string -> Option<seq<AvroRecord>>

  /** Fetch-and-decode of a Parquet file at a URL (after `s3a://` translation) into row objects;
      `None` when the transport or the decoder fails. */
  type ParquetDecoder = string -> Option<seq<Row>>
}
