/** Rewriting of `s3a://bucket/key` locations into virtual-hosted HTTPS URLs. */
module S3Url {
  import opened Wrappers
  import opened IcebergTypes

  const S3aScheme: string := "s3a://"
  const HttpsScheme: string := "https://"
  const S3HostSuffix: string := ".s3.amazonaws.com"

  predicate StartsWith(s: string, prefix: string) {
    |prefix| <= |s| && s[..|prefix|] == prefix
  }

  /** Index of the first occurrence of `c` in `s`, or -1 when there is none. */
  function IndexOf(s: string, c: char): (i: int)
    ensures -1 <= i < |s|
    ensures i == -1 <==> c !in s
    ensures 0 <= i ==> s[i] == c && c !in s[..i]
  {
    if |s| == 0 then -1
    else if s[0] == c then 0
    else
      var j := IndexOf(s[1..], c);
      if j == -1 then -1
      else
        assert s[..j + 1] == [s[0]] + s[1..][..j];
        j + 1
  }

  /** The location of an object: `s3a://B/K...` becomes
      `https://B.s3.amazonaws.com/K...`; every other URL is left alone. */
  function TranslateS3Url(url: string): (r: Result<string, Error>)
    ensures !StartsWith(url, S3aScheme) ==> r == Ok(url)
    ensures r.Err? <==> StartsWith(url, S3aScheme) && '/' !in url[|S3aScheme|..]
    ensures r.Err? ==> r.error == InvalidS3Url(url)
    ensures r.Ok? && StartsWith(url, S3aScheme) ==> StartsWith(r.value, HttpsScheme)
  {
    if StartsWith(url, S3aScheme) then
      var rest := url[|S3aScheme|..];
      var slashIndex := IndexOf(rest, '/');
      if slashIndex == -1 then
        Err(InvalidS3Url(url))
      else
        var bucket := rest[..slashIndex];
        var key := rest[slashIndex..];
        assert (HttpsScheme + bucket + S3HostSuffix + key)[..|HttpsScheme|] == HttpsScheme;
        Ok(HttpsScheme + bucket + S3HostSuffix + key)
    else
      Ok(url)
  }

  /** A bucket free of `/` followed by any key is rewritten into the bucket's
      virtual host, keeping the key (and the separating `/`) as the path. */
  lemma TranslateBucketKey(bucket: string, key: string)
    requires '/' !in bucket
    ensures TranslateS3Url(S3aScheme + bucket + "/" + key)
         == Ok(HttpsScheme + bucket + S3HostSuffix + "/" + key)
  {
    var url := S3aScheme + bucket + "/" + key;
    assert url[..|S3aScheme|] == S3aScheme;
    var rest := url[|S3aScheme|..];
    assert rest == bucket + "/" + key;
    var i := IndexOf(rest, '/');
    assert rest[|bucket|] == '/';
    assert i == |bucket|;
    assert rest[..i] == bucket;
    assert rest[i..] == "/" + key;
    assert HttpsScheme + bucket + S3HostSuffix + rest[i..]
        == HttpsScheme + bucket + S3HostSuffix + "/" + key;
  }

  /** An accepted `s3a://` URL splits at its first `/` after the scheme. */
  lemma AcceptedS3UrlSplits(url: string) returns (bucket: string, key: string)
    requires StartsWith(url, S3aScheme) && TranslateS3Url(url).Ok?
    ensures '/' !in bucket
    ensures url == S3aScheme + bucket + "/" + key
  {
    var rest := url[|S3aScheme|..];
    assert '/' in rest;
    var i := IndexOf(rest, '/');
    assert 0 <= i && rest[i] == '/';
    bucket, key := rest[..i], rest[i + 1..];
    assert url == S3aScheme + rest;
    SplitAtSlash(S3aScheme, rest, i);
  }

  lemma SplitAtSlash(prefix: string, s: string, i: nat)
    requires i < |s| && s[i] == '/'
    ensures prefix + s == prefix + s[..i] + "/" + s[i + 1..]
  {
    assert s == s[..i] + "/" + s[i + 1..];
  }

  /** Conversely, every `s3a://` URL that is accepted has that shape: it
      splits into a bucket free of `/`, a `/`, and a key, and is rewritten
      into that bucket's virtual host with that key. */
  lemma TranslateAcceptedShape(url: string) returns (bucket: string, key: string)
    requires StartsWith(url, S3aScheme) && TranslateS3Url(url).Ok?
    ensures '/' !in bucket
    ensures url == S3aScheme + bucket + "/" + key
    ensures TranslateS3Url(url) == Ok(HttpsScheme + bucket + S3HostSuffix + "/" + key)
  {
    bucket, key := AcceptedS3UrlSplits(url);
    TranslateBucketKey(bucket, key);
  }

  /** A translated URL is a fixed point: translating it again changes nothing. */
  lemma TranslateIdempotent(url: string)
    requires TranslateS3Url(url).Ok?
    ensures TranslateS3Url(TranslateS3Url(url).value) == TranslateS3Url(url)
  {
    var v := TranslateS3Url(url).value;
    if StartsWith(url, S3aScheme) {
      assert v[0] == 'h';
      assert !StartsWith(v, S3aScheme);
    }
  }
}
