/** The two fetch-and-decode steps the resolution code relies on. Both
    translate the location first and then hand the URL after translation to a decoder. */
module Sources {
  import opened Wrappers
  import opened IcebergTypes
  import opened S3Url

  /** Errors raised while reading one file. */
  predicate IsReadError(e: Error) {
    e.InvalidS3Url? || e.FetchFailed?
  }

  /** Decoded Avro records of the file at `url`. */
  function FetchAvroRecords(url: string, avro: AvroDecoder): (r: Result<seq<AvroRecord>, Error>)
    ensures r.Err? ==> IsReadError(r.error)
  {
    var location :- TranslateS3Url(url);
    match avro(location)
    case None => Err(FetchFailed(location))
    case Some(records) => Ok(records)
  }

  /** A malformed `s3a://` location is rejected before any fetch; otherwise
      the decoder sees the translated URL and nothing else, and its verdict is
      the result. A URL outside the `s3a` scheme is fetched as it is. */
  lemma FetchAvroRecordsReads(url: string, avro: AvroDecoder)
    ensures TranslateS3Url(url).Err? ==> FetchAvroRecords(url, avro) == Err(InvalidS3Url(url))
    ensures TranslateS3Url(url).Ok? ==>
      (FetchAvroRecords(url, avro).Ok? <==> avro(TranslateS3Url(url).value).Some?)
    ensures TranslateS3Url(url).Ok? && FetchAvroRecords(url, avro).Ok? ==>
      avro(TranslateS3Url(url).value) == Some(FetchAvroRecords(url, avro).value)
    ensures !StartsWith(url, S3aScheme) ==>
      FetchAvroRecords(url, avro) == (if avro(url).Some? then Ok(avro(url).value) else Err(FetchFailed(url)))
  {
  }

  /** Decoded Parquet rows of the delete file at `url`, read the same way. */
  function ReadParquetRows(url: string, parquet: ParquetDecoder): (r: Result<seq<Row>, Error>)
    ensures r.Err? ==> IsReadError(r.error)
  {
    var location :- TranslateS3Url(url);
    match parquet(location)
    case None => Err(FetchFailed(location))
    case Some(rows) => Ok(rows)
  }

  /** The same for a delete file read through the Parquet decoder. */
  lemma ReadParquetRowsReads(url: string, parquet: ParquetDecoder)
    ensures TranslateS3Url(url).Err? ==> ReadParquetRows(url, parquet) == Err(InvalidS3Url(url))
    ensures TranslateS3Url(url).Ok? ==>
      (ReadParquetRows(url, parquet).Ok? <==> parquet(TranslateS3Url(url).value).Some?)
    ensures TranslateS3Url(url).Ok? && ReadParquetRows(url, parquet).Ok? ==>
      parquet(TranslateS3Url(url).value) == Some(ReadParquetRows(url, parquet).value)
    ensures !StartsWith(url, S3aScheme) ==>
      ReadParquetRows(url, parquet) == (if parquet(url).Some? then Ok(parquet(url).value) else Err(FetchFailed(url)))
  {
  }

  /** Every manifest in `urls` can be fetched and decoded. */
  predicate AllFetched(urls: seq<string>, avro: AvroDecoder) {
    forall i :: 0 <= i < |urls| ==> FetchAvroRecords(urls[i], avro).Ok?
  }

  /** `e` is the error of the first manifest in `urls` that cannot be read. */
  predicate FirstFetchError(urls: seq<string>, avro: AvroDecoder, e: Error) {
    exists i :: 0 <= i < |urls| && FetchAvroRecords(urls[i], avro) == Err(e)
      && AllFetched(urls[..i], avro)
  }

  lemma FirstFetchErrorAtHead(urls: seq<string>, avro: AvroDecoder)
    requires |urls| > 0 && FetchAvroRecords(urls[0], avro).Err?
    ensures FirstFetchError(urls, avro, FetchAvroRecords(urls[0], avro).error)
  {
    assert AllFetched(urls[..0], avro);
  }

  lemma FirstFetchErrorInTail(urls: seq<string>, avro: AvroDecoder, e: Error)
    requires |urls| > 0 && FetchAvroRecords(urls[0], avro).Ok?
    requires FirstFetchError(urls[1..], avro, e)
    ensures FirstFetchError(urls, avro, e)
  {
    var i :| 0 <= i < |urls[1..]| && FetchAvroRecords(urls[1..][i], avro) == Err(e)
      && AllFetched(urls[1..][..i], avro);
    assert urls[..i + 1] == [urls[0]] + urls[1..][..i];
    assert FetchAvroRecords(urls[i + 1], avro) == Err(e);
  }
}
