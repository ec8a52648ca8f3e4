/** The S3 helpers of db/s3.js: the object key an uploaded product image is
    stored under, and the pre-signed download url of a stored key. The S3
    client and the signer are represented by their requests and their
    answers. */
module S3 {
  import opened Results
  import opened Js

  const KeyPrefix := "products/"
  /** Lifetime of a pre-signed url, in seconds. */
  const ExpiresIn := 3600

  /** The parts of a multer file the upload uses. */
  datatype ImageFile = ImageFile(originalname: string, buffer: seq<bv8>, mimetype: string)

  datatype PutObject = PutObject(bucket: string, key: string, body: seq<bv8>, contentType: string)

  /** What uploadImage asks S3 to do, and what its promise settles to. */
  datatype UploadCall = UploadCall(put: PutObject, result: Result<string, string>)

  /** `products/${productId}-${Date.now()}.${originalname.split('.').pop()}`:
      the text before the key's last `.` is the product and the upload time,
      and the text after it is what `split('.').pop()` takes from the
      original name (the whole name when it has no `.`). */
  function ObjectKey(productId: string, now: nat, originalname: string): (key: string)
    ensures var ext := AfterLast(key, '.');
            ext == AfterLast(originalname, '.') &&
            |ext| < |key| &&
            key[..|key| - |ext| - 1] == KeyPrefix + productId + "-" + DecimalString(now)
  {
    DotJoin(KeyPrefix + productId + "-" + DecimalString(now), AfterLast(originalname, '.'))
  }

  /** `stem + "." + tail` for a tail without `.`: the tail is what follows
      the last `.`, and the stem what precedes it. */
  function DotJoin(stem: string, tail: string): (s: string)
    requires '.' !in tail
    ensures AfterLast(s, '.') == tail && |tail| < |s| && s[..|s| - |tail| - 1] == stem
  {
    AfterLastDotTail(stem, tail);
    stem + "." + tail
  }

  /** Two uploads of the same file for the same product get the same key
      only in the same millisecond. */
  lemma ObjectKeyDistinctTimes(productId: string, m: nat, n: nat, originalname: string)
    ensures ObjectKey(productId, m, originalname) == ObjectKey(productId, n, originalname) ==> m == n
  {
    var a, b := ObjectKey(productId, m, originalname), ObjectKey(productId, n, originalname);
    if a == b {
      var head, dm, dn := KeyPrefix + productId + "-", DecimalString(m), DecimalString(n);
      var ext := AfterLast(originalname, '.');
      DotJoinStem(head + dm, head + dn, ext);
      PrefixCancel(head, dm, dn);
      DecimalStringInjective(m, n);
    }
  }

  /** Joining two stems to the same tail gives the same text only for the
      same stem. */
  lemma DotJoinStem(s1: string, s2: string, tail: string)
    requires '.' !in tail && DotJoin(s1, tail) == DotJoin(s2, tail)
    ensures s1 == s2
  {
  }

  lemma PrefixCancel<T>(h: seq<T>, x: seq<T>, y: seq<T>)
    requires h + x == h + y
    ensures x == y
  {
    assert x == (h + x)[|h|..];
    assert y == (h + y)[|h|..];
  }

  /** uploadImage: puts the file's bytes and mimetype under the generated
      key in the configured bucket and resolves to that key; `sendError` is
      the client's failure, with which the promise rejects. */
  function UploadImage(file: ImageFile, productId: string, now: nat, bucket: string,
                       sendError: Option<string>): (call: UploadCall)
    ensures call.put.bucket == bucket
    ensures call.put.body == file.buffer && call.put.contentType == file.mimetype
    ensures call.put.key == ObjectKey(productId, now, file.originalname)
    ensures call.result.Success? <==> sendError == None
    ensures call.result.Success? ==> call.result.value == call.put.key
    ensures call.result.Failure? ==> call.result.error == sendError.value
  {
    var key := ObjectKey(productId, now, file.originalname);
    var put := PutObject(bucket, key, file.buffer, file.mimetype);
    match sendError
    case Some(e) => UploadCall(put, Failure(e))
    case None => UploadCall(put, Success(key))
  }

  /** A GetObject request to pre-sign, with its lifetime. */
  datatype PresignRequest = PresignRequest(bucket: string, key: Value, expiresIn: nat)

  datatype UrlCall = UrlCall(sign: Option<PresignRequest>, result: Result<string, string>)

  /** getImageUrl: a falsy key (missing, null or empty) resolves to the
      empty string without signing anything; any other key is signed for the
      bucket for an hour, and `signed` is what the signer answers. */
  function GetImageUrl(key: Value, bucket: string, signed: Result<string, string>): (call: UrlCall)
    ensures !Truthy(key) <==> call.sign == None
    ensures !Truthy(key) ==> call.result == Success("")
    ensures Truthy(key) ==> call.sign == Some(PresignRequest(bucket, key, ExpiresIn)) && call.result == signed
  {
    if !Truthy(key) then UrlCall(None, Success(""))
    else UrlCall(Some(PresignRequest(bucket, key, ExpiresIn)), signed)
  }

  /** The key uploadImage returns is signed as it is: keys are never empty. */
  lemma UploadedKeyIsSigned(file: ImageFile, productId: string, now: nat, bucket: string,
                            signed: Result<string, string>)
    ensures var key := UploadImage(file, productId, now, bucket, None).result.value;
            GetImageUrl(Str(key), bucket, signed).sign == Some(PresignRequest(bucket, Str(key), ExpiresIn))
  {
  }
}
