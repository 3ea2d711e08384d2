# Iceberg snapshot resolution and delete indices

A Dafny model of the table-resolution logic of `hyparquet-iceberg`. The code reads an Apache Iceberg table from its metadata in four steps:

- It finds the current snapshot and collects that snapshot's manifest files. They come from the manifest list when the snapshot has one, otherwise from the snapshot's inline `manifests`.
- It files each manifest as a data manifest or a delete manifest. The `data_file.content` of the manifest's first entry decides: 0 = data, 1 = position deletes, 2 = equality deletes.
- It flattens manifests into the ordered list of their `data_file` descriptors.
- It reads every delete file and builds two indices, both keyed by the path of the data file a delete applies to:
  - a map from path to the set of deleted row positions;
  - a map from path to the list of equality-delete rows.

Object locations of the form `s3a://bucket/key` are rewritten to `https://bucket.s3.amazonaws.com/key` before each fetch.

Fetching and binary decoding are abstract. A decoder is a total function from a URL, as it stands after translation, to `Option<seq<...>>`, where `None` means the fetch or the decode failed:
- `AvroDecoder` yields decoded Avro records;
- `ParquetDecoder` yields decoded Parquet rows.

Every operation is a pure function over immutable datatypes that takes these decoders as parameters.

Modules, by file:
- `wrappers.dfy` (`Wrappers`): `Option` and `Result`.
- `types.dfy` (`IcebergTypes`): metadata, snapshots, records, rows, the `content` codes and the error type.
- `s3_url.dfy` (`S3Url`): the URL rewrite.
- `sources.dfy` (`Sources`): fetch-and-decode through the decoders.
- `manifest_resolver.dfy` (`ManifestResolver`): snapshot lookup and manifest classification.
- `data_files.dfy` (`DataFileCollector`): flattening of manifests into data files.
- `delete_maps.dfy` (`DeleteIndex`): the two delete indices. Their contents are also given by reference definitions (`Positions`, `EqualityRows`) that do not depend on the fold.

The code settles these edge cases as follows, and so does the model:
- A `current-snapshot-id` of 0 is rejected too. The code tests the id for truthiness, not only for absence or a negative value.
- A snapshot that has both a manifest list and inline manifests is accepted. The manifest list wins.
- An empty-string `manifest-list` counts as absent.
- An empty inline `manifests` array counts as present and yields no manifests.

## Model

| member | source | states |
|---|---|---|
| S3Url.TranslateS3Url | src/iceberg.fetch.js:12-24 | A URL not starting with `s3a://` is returned unchanged. An `s3a://` URL is rejected exactly when no `/` follows the bucket. An accepted `s3a://` URL becomes an `https://` URL. |
| S3Url.TranslateBucketKey | src/iceberg.fetch.js:13-21 | For a bucket free of `/` and any key, `s3a://B/K` becomes `https://B.s3.amazonaws.com/K`. |
| S3Url.AcceptedS3UrlSplits | src/iceberg.fetch.js:14-20 | An accepted `s3a://` URL is the scheme, a bucket free of `/`, a `/`, and a key. |
| S3Url.TranslateAcceptedShape | src/iceberg.fetch.js:13-21 | Every accepted `s3a://` URL splits into a `/`-free bucket, a `/` and a key, and is translated to that bucket's virtual host with that key. |
| S3Url.TranslateIdempotent | src/iceberg.fetch.js:12-24 | Translating an already translated URL gives the same URL. |
| Sources.FetchAvroRecords | src/iceberg.fetch.js:151-157 | A failure is either a malformed `s3a://` location or a failed fetch or decode. |
| Sources.FetchAvroRecordsReads | src/iceberg.fetch.js:151-157 | A malformed `s3a://` location is rejected before any fetch. Otherwise the Avro decoder sees only the translated URL: the call fails exactly when the decoder fails, and returns exactly its records. A non-`s3a` URL is fetched as is. |
| Sources.ReadParquetRows | src/iceberg.fetch.js:113-115 | A failure is either a malformed `s3a://` location or a failed fetch or decode. |
| Sources.ReadParquetRowsReads | src/iceberg.fetch.js:113-115 | The same as for Avro records, for a delete file read through the Parquet decoder. |
| DataFileCollector.FetchDataFilesFromManifests | src/iceberg.fetch.js:80-90 | The call succeeds exactly when every manifest can be read, and otherwise fails with a read error. On success it returns one descriptor per entry: the output length is the total number of entries over all manifests. |
| DataFileCollector.FetchDataFilesFirstError | src/iceberg.fetch.js:83-84 | A failed call reports the error of the first manifest that cannot be read. Every manifest before that one was read. |
| DataFileCollector.FetchDataFilesAppend | src/iceberg.fetch.js:80-90 | Reading `a + b` is reading `a`, then `b`. The result is the first error, or both lists concatenated in manifest order. |
| DataFileCollector.FetchDataFilesSingle | src/iceberg.fetch.js:84-87 | One manifest yields the `data_file` of each of its entries, in entry order. |
| DataFileCollector.FetchDataFilesMembers | src/iceberg.fetch.js:83-88 | A descriptor is in the output exactly when some entry of some listed manifest carries it. |
| ManifestResolver.KindOf | src/iceberg.fetch.js:61-67 | A manifest's kind is read from its first entry. No entries gives empty. An absent content or content 0 gives data. Content 1 or 2 gives delete. Any other content gives unknown. |
| ManifestResolver.ClassifyManifests | src/iceberg.fetch.js:57-70 | The call succeeds exactly when every manifest can be read, and otherwise fails with a read error. |
| ManifestResolver.ClassifyFirstError | src/iceberg.fetch.js:59-60 | A failed classification reports the error of the first manifest that cannot be read. Every manifest before that one was read. |
| ManifestResolver.ClassifiedInOrder | src/iceberg.fetch.js:59-68 | Both output lists are subsequences of the input URL list, in input order. |
| ManifestResolver.ClassifiedDataByKind | src/iceberg.fetch.js:59-68 | A URL occurs in the data list as often as in the input when its kind is data, and otherwise never. |
| ManifestResolver.ClassifiedDeleteByKind | src/iceberg.fetch.js:59-68 | A URL occurs in the delete list as often as in the input when its kind is delete, and otherwise never. |
| ManifestResolver.ClassifiedAtMostOnce | src/iceberg.fetch.js:59-68 | The two lists together hold no more occurrences of a URL than the input, and no URL appears in both. |
| ManifestResolver.FindSnapshot | src/iceberg.fetch.js:38 | Returns -1 exactly when no snapshot has the id. Otherwise returns the index of the first snapshot that has it. |
| ManifestResolver.ManifestPaths | src/iceberg.fetch.js:43-54 | With a non-empty manifest list, the call yields the `manifest_path` of each of its records, and fails exactly when that list cannot be read, with that read's error. Otherwise it yields the inline manifests' paths. It fails with "no manifest information" exactly when neither is present. |
| ManifestResolver.ManifestListTakesPrecedence | src/iceberg.fetch.js:45-51 | When a manifest list is present, the inline manifests do not affect the result. |
| ManifestResolver.InlineManifestsFetchNothing | src/iceberg.fetch.js:50-51 | Without a manifest list nothing is fetched: any two decoders give the same result. |
| ManifestResolver.FetchManifestUrls | src/iceberg.fetch.js:33-71 | The call fails with a missing-id error exactly when `current-snapshot-id` is absent, 0 or negative. It fails with not-found, naming the id, exactly when no snapshot has that id. It fails with no-manifest-information exactly when the current snapshot has neither a manifest list nor inline manifests. Whenever the id is valid and some snapshot has it, the result is the classification of that snapshot's manifest paths, or the error from reading them. |
| DeleteIndex.AddRow | src/iceberg.fetch.js:116-138 | These rows leave both indices unchanged: a row whose target path is missing or empty; a position-delete row without `pos`; any row of a file whose content is neither 1 nor 2. No key ends up mapped to an empty set or list. |
| DeleteIndex.AddRowAt | src/iceberg.fetch.js:119-137 | A position delete adds its `pos` to its target's set. An equality delete appends the whole row to its target's list. No other path's entry changes. |
| DeleteIndex.AddRows | src/iceberg.fetch.js:116-139 | Folding a file's rows never leaves a key mapped to an empty set or list. |
| DeleteIndex.AddFiles | src/iceberg.fetch.js:112-140 | Folding the files never leaves a key mapped to an empty set or list. |
| DeleteIndex.BuildDeleteMaps | src/iceberg.fetch.js:105-140 | In the built indices no key maps to an empty set or list. |
| DeleteIndex.AddRowsPositions | src/iceberg.fetch.js:119-129 | After one file's rows are folded in, each path's positions are the earlier ones plus the positions the file's rows delete from it. This applies only when the file holds position deletes. |
| DeleteIndex.AddRowsEqualityRows | src/iceberg.fetch.js:130-138 | After one file's rows are folded in, each path's equality rows are the earlier ones followed by the file's rows that target it, in row order. This applies only when the file holds equality deletes. |
| DeleteIndex.AddFilesPositions | src/iceberg.fetch.js:112-129 | After all files are folded in, each path's positions are the earlier ones plus its reference positions. |
| DeleteIndex.AddFilesEqualityRows | src/iceberg.fetch.js:112-138 | After all files are folded in, each path's equality rows are the earlier ones followed by its reference rows. |
| DeleteIndex.BuildDeleteMapsContents | src/iceberg.fetch.js:116-138 | A path is a key of the position index exactly when some position-delete row deletes a position from it, and it maps to all such positions. A path is a key of the equality index exactly when some equality-delete row targets it, and it maps to all such rows: file by file, in row order within each file. |
| DeleteIndex.PositionDeletesOrderIndependent | src/iceberg.fetch.js:112-128 | Any processing order of the same delete files gives the same position index. |
| DeleteIndex.EqualityRowsPermutation | src/iceberg.fetch.js:112-137 | Any processing order of the same delete files gives the same multiset of equality rows for each path. |
| DeleteIndex.EqualityDeletesOrderIndependent | src/iceberg.fetch.js:112-137 | Any processing order gives the same equality-index keys, and for each key the same rows up to order. |
| DeleteIndex.LoadDeleteFiles | src/iceberg.fetch.js:112-115 | The call succeeds exactly when every delete file can be read. On success the i-th result pairs the i-th file's `content` with the rows read from its translated path. |
| DeleteIndex.FetchDeleteMaps | src/iceberg.fetch.js:99-143 | With no delete manifests, both indices are empty whatever the decoders: nothing is read. Failures are read errors. No key of the result maps to an empty set or list. |
| DeleteIndex.FetchDeleteMapsReads | src/iceberg.fetch.js:101-142 | With delete manifests, the call succeeds exactly when the manifests and every delete file they list can be read. The indices are then built from those files' rows. Otherwise the error is the one from reading the delete manifests, or else the one from loading the delete files. |
| DeleteIndex.LoadDeleteFilesErrorFrom | src/iceberg.fetch.js:112-115 | A failed load reports the error of some delete file that cannot be read. This holds whichever order the reads finish in. |
| DeleteIndex.DuplicatePositionsCollapse | src/iceberg.fetch.js:123-128 | Two rows deleting position 5 of `a.parquet` leave the position index `{a.parquet: {5}}`. |
| DeleteIndex.MissingPositionDropped | src/iceberg.fetch.js:120-121 | A position-delete row without `pos` leaves both indices empty. |
| DeleteIndex.EqualityRowsKept | src/iceberg.fetch.js:130-137 | Two distinct equality-delete rows for `b.parquet` are both kept, whole and in order. |

## Left out

- Network transport, Avro container parsing and Parquet decoding are decoder parameters. A decoder failure is only "may fail": transport errors, decode errors and their messages are not told apart.
- Record fields other than the ones read are left out. These are `manifest_path`, `data_file.file_path`, `data_file.content`, and a delete row's `file_path` and `pos`; the remaining columns of a row are carried opaquely.
- A record lacking `manifest_path` or `data_file` is left out: the model's records always carry these fields. In the source, a missing field is read as `undefined`. A first manifest entry without `data_file` makes classification fail. A later entry without one is returned as `undefined` by the data-file collector without error. The metadata's `snapshots` array is always present in the model; in the source, a valid current id with no `snapshots` array makes the snapshot lookup fail with a type error. A delete-file descriptor always carries a `file_path` in the model; in the source, one without it makes the URL translation fail with a type error.
- Errors are tagged values. `InvalidS3Url` and `FetchFailed` carry the offending URL, which the source's constant error messages do not.
- The concurrent `Promise.all` over delete files is a sequential fold in list order. In the source, equality rows land in file-completion order. The model proves results for every processing order: the same position index, the same equality keys, and the same rows per key up to order.
- DeleteIndex.FetchDeleteMaps: when several delete files fail, the source reports whichever rejection settles first. The model reports the first in list order.
- `pos` values are unbounded integers. The distinction between JavaScript `bigint` and `number`, and its effect on set equality, is not modelled.
- The Parquet compressor registry is not modelled. It is a fixed argument to the decoder.
- `test/package.test.js` only checks package metadata strings and is not modelled.
