/** The access-key gate in front of the S3 routes, and the admin-key check
    of the login route.

    The request header `x-access-key` is `null` when absent and each
    configured key is `undefined` when unset; both become `None`.  The code
    compares them with `!==`, under which `null` and `undefined` differ, so
    an absent header matches nothing, not even an unset key. */
module Access {
  import opened Seqs
  import opened Text

  const S3Prefix: string := "/api/s3/"
  const UploadPrefix: string := "/api/s3/upload"

  datatype Decision = Pass | Unauthorized

  /** `accessKey === key`: both present and equal. */
  predicate Matches(header: Option<string>, key: Option<string>) {
    header.Some? && key.Some? && header.value == key.value
  }

  /** `middleware(request)`: the decision for a request to `path` carrying
      `header`, with the configured admin and read-only keys.  Paths outside
      `/api/s3/` are never stopped; upload paths pass exactly with the admin
      key; other S3 paths pass exactly with the admin or the read-only key;
      without the header no S3 path passes, whatever the keys. */
  function Middleware(path: string, header: Option<string>, adminKey: Option<string>, readOnlyKey: Option<string>): (d: Decision)
    ensures !StartsWith(path, S3Prefix) ==> d == Pass
    ensures StartsWith(path, UploadPrefix) ==> (d == Pass <==> Matches(header, adminKey))
    ensures StartsWith(path, S3Prefix) && !StartsWith(path, UploadPrefix) ==>
              (d == Pass <==> Matches(header, adminKey) || Matches(header, readOnlyKey))
    ensures StartsWith(path, S3Prefix) && header.None? ==> d == Unauthorized
  {
    UploadIsS3(path);
    if StartsWith(path, S3Prefix) then
      if StartsWith(path, UploadPrefix) then
        if Matches(header, adminKey) then Pass else Unauthorized
      else if Matches(header, adminKey) || Matches(header, readOnlyKey) then Pass
      else Unauthorized
    else Pass
  }

  /** Every upload path is an S3 path. */
  lemma UploadIsS3(path: string)
    ensures StartsWith(path, UploadPrefix) ==> StartsWith(path, S3Prefix)
  {
    if StartsWith(path, UploadPrefix) {
      assert UploadPrefix[..|S3Prefix|] == S3Prefix;
      assert path[..|S3Prefix|] == UploadPrefix[..|S3Prefix|];
    }
  }

  /** A header admitted to upload is admitted everywhere. */
  lemma UploadAccessIsStrongest(upload: string, path: string, header: Option<string>, adminKey: Option<string>, readOnlyKey: Option<string>)
    requires StartsWith(upload, UploadPrefix)
    requires Middleware(upload, header, adminKey, readOnlyKey) == Pass
    ensures Middleware(path, header, adminKey, readOnlyKey) == Pass
  {
    UploadIsS3(upload);
  }

  // ---------------------------------------------------------------------------
  // POST /api/auth/verify

  datatype Verdict = Success | Rejected

  /** `!accessKey || accessKey !== adminKey` gives 401; otherwise success. */
  function VerifyAdmin(header: Option<string>, adminKey: Option<string>): (v: Verdict)
    ensures header.None? ==> v == Rejected
    ensures header == Some("") ==> v == Rejected
    ensures v == Success <==> header.Some? && header.value != "" && Matches(header, adminKey)
  {
    if header.None? || header.value == "" || !Matches(header, adminKey) then Rejected else Success
  }

  /** A key the login route accepts opens every S3 route, upload included. */
  lemma VerifiedKeyPasses(path: string, header: Option<string>, adminKey: Option<string>, readOnlyKey: Option<string>)
    requires VerifyAdmin(header, adminKey) == Success
    ensures Middleware(path, header, adminKey, readOnlyKey) == Pass
  {
  }

  /** The gate is the weaker of the two: an empty admin key configured as ""
      lets an empty header through the gate, but not through the login. */
  lemma EmptyKeyDiffers(path: string)
    requires StartsWith(path, UploadPrefix)
    ensures Middleware(path, Some(""), Some(""), None) == Pass
    ensures VerifyAdmin(Some(""), Some("")) == Rejected
  {
    UploadIsS3(path);
  }
}
