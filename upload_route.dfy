/** The image upload route (`POST /api/upload-image`): checks the storage
    configuration and the uploaded file, names the object from a fresh
    identifier and the file's MIME type, stores it, and answers with the
    public URL chosen by configuration. The identifier and the storage call
    are parameters. */
module UploadRoute {
  import opened JsText

  type Bytes = seq<bv8>

  /** The environment variables the route reads; each may be unset. */
  datatype Env = Env(
    accessKeyId: Option<string>,
    secretAccessKey: Option<string>,
    bucketName: Option<string>,
    prefix: Option<string>,
    publicUrl: Option<string>,
    endpoint: Option<string>,
    forcePathStyle: Option<string>,
    region: Option<string>)

  datatype UploadFile = UploadFile(mimeType: string, bytes: Bytes)

  /** Reading the multipart body: a parse failure; a `file` entry that is a
      text value, not a file (the route only casts it); or the form's
      `file` entry as a file, which may be missing. */
  datatype Form = Unparsable(message: string) | TextEntry(text: string) | Parsed(file: Option<UploadFile>)

  /** The object-store write the route issues. */
  datatype PutObject = PutObject(bucket: string, key: string, body: Bytes, contentType: string)

  datatype Body = Message(message: string) | Uploaded(imageUrl: string)

  datatype Response = Response(status: int, body: Body)

  /** The answer, and the write issued on the way (if any). */
  datatype Outcome = Outcome(response: Response, put: Option<PutObject>)

  const DefaultRegion: string := "us-east-1"
  const DefaultExtension: string := "jpg"
  const ImageTypePrefix: string := "image/"
  /** The message Node's engine gives the `TypeError` of reading
      `startsWith` on the missing `type` of a text value. */
  const MissingTypeMessage: string := "Cannot read properties of undefined (reading 'startsWith')"

  /** Both credentials and the bucket name are set and non-empty. */
  predicate Configured(env: Env) {
    Truthy(env.accessKeyId) && Truthy(env.secretAccessKey) && Truthy(env.bucketName)
  }

  /** `type.split('/')[1] || 'jpg'`: the second `/`-separated segment of the
      MIME type, or `jpg` when it is missing or empty. */
  function Extension(mimeType: string): (r: string)
    ensures r != ""
  {
    var parts := Split(mimeType, "/");
    if |parts| > 1 && parts[1] != "" then parts[1] else DefaultExtension
  }

  /** The characters of `s` before its first `/` (all of `s` if it has none). */
  function UpToSlash(s: string): (r: string)
    ensures |r| <= |s| && r == s[..|r|]
    ensures forall i :: 0 <= i < |r| ==> r[i] != '/'
    ensures |r| == |s| || s[|r|] == '/'
    decreases |s|
  {
    if s == [] || s[0] == '/' then [] else [s[0]] + UpToSlash(s[1..])
  }

  /** The object key: `S3_PREFIX/` when a prefix is set, the identifier, a
      dot and the extension. */
  function ObjectKey(env: Env, uuid: string, mimeType: string): (r: string)
    ensures Truthy(env.prefix) ==> StartsWith(r, env.prefix.value + "/")
    ensures EndsWith(r, "." + Extension(mimeType))
    // the identifier sits right after the prefix
    ensures var p := if Truthy(env.prefix) then |env.prefix.value| + 1 else 0;
      p + |uuid| <= |r| && r[p..p + |uuid|] == uuid
    // and nothing but the dot and the extension follows it
    ensures var p := if Truthy(env.prefix) then |env.prefix.value| + 1 else 0;
      |r| == p + |uuid| + 1 + |Extension(mimeType)|
  {
    var pre := if Truthy(env.prefix) then env.prefix.value + "/" else "";
    var k := pre + uuid + "." + Extension(mimeType);
    assert k[|pre|..|pre| + |uuid|] == uuid;
    k
  }

  /** The part of the public URL before `/` and the key, by precedence: a
      public base URL; else, with an endpoint, path-style exactly when
      `S3_FORCE_PATH_STYLE` is the string `true` and virtual-hosted style
      otherwise; else the default AWS host, in `us-east-1` unless a region
      is set. */
  function UrlBase(env: Env): (r: string)
    requires Configured(env)
    ensures Truthy(env.publicUrl) ==> r == env.publicUrl.value
    ensures !Truthy(env.publicUrl) ==> StartsWith(r, "https://")
    // each scheme is fixed by its opening, its closing and its length
    ensures !Truthy(env.publicUrl) && Truthy(env.endpoint) && env.forcePathStyle == Some("true") ==>
      && StartsWith(r, "https://" + env.endpoint.value + "/") && EndsWith(r, "/" + env.bucketName.value)
      && |r| == 9 + |env.endpoint.value| + |env.bucketName.value|
    ensures !Truthy(env.publicUrl) && Truthy(env.endpoint) && env.forcePathStyle != Some("true") ==>
      && StartsWith(r, "https://" + env.bucketName.value + ".") && EndsWith(r, "." + env.endpoint.value)
      && |r| == 9 + |env.bucketName.value| + |env.endpoint.value|
    ensures !Truthy(env.publicUrl) && !Truthy(env.endpoint) ==>
      && StartsWith(r, "https://" + env.bucketName.value + ".s3.") && EndsWith(r, ".amazonaws.com")
      && |r| == 26 + |env.bucketName.value| + |OrElse(env.region, DefaultRegion)|
      // the host names the configured region, `us-east-1` by default
      && r[12 + |env.bucketName.value|..|r| - 14] == OrElse(env.region, DefaultRegion)
  {
    var bucket := env.bucketName.value;
    if Truthy(env.publicUrl) then env.publicUrl.value
    else if Truthy(env.endpoint) then
      if env.forcePathStyle == Some("true") then "https://" + env.endpoint.value + "/" + bucket
      else "https://" + bucket + "." + env.endpoint.value
    else "https://" + bucket + ".s3." + OrElse(env.region, DefaultRegion) + ".amazonaws.com"
  }

  function PublicUrl(env: Env, fileName: string): (r: string)
    requires Configured(env)
    ensures EndsWith(r, "/" + fileName)
  {
    UrlBase(env) + "/" + fileName
  }

  /** The route handler; `uuid` is the fresh identifier, `send` the storage
      write (an error message when it throws). */
  function HandleUpload(env: Env, form: Form, uuid: string, send: PutObject -> Option<string>): (r: Outcome)
    ensures r.response.status in {200, 400, 500}
    // configuration is checked before the form is looked at
    ensures !Configured(env) ==>
      r == Outcome(Response(500, Message("Server configuration error: Missing S3 credentials or bucket name")), None)
    // a form that cannot be read is answered from the handler's catch
    ensures Configured(env) && form.Unparsable? ==> r == Outcome(Response(500, Message(form.message)), None)
    ensures Configured(env) && form.Parsed? && form.file.None? ==>
      r == Outcome(Response(400, Message("No file provided")), None)
    // a text value is falsy only when empty; otherwise its missing type throws
    ensures Configured(env) && form.TextEntry? && form.text == "" ==>
      r == Outcome(Response(400, Message("No file provided")), None)
    ensures Configured(env) && form.TextEntry? && form.text != "" ==>
      r == Outcome(Response(500, Message(MissingTypeMessage)), None)
    ensures Configured(env) && form.Parsed? && form.file.Some? && !StartsWith(form.file.value.mimeType, ImageTypePrefix) ==>
      r == Outcome(Response(400, Message("File must be an image")), None)
    // a write happens only for a configured route and an image file, under
    // the key named from the identifier and the MIME type
    ensures r.put.Some? <==>
      Configured(env) && form.Parsed? && form.file.Some? && StartsWith(form.file.value.mimeType, ImageTypePrefix)
    ensures r.put.Some? ==>
      r.put.value == PutObject(env.bucketName.value, ObjectKey(env, uuid, form.file.value.mimeType),
                               form.file.value.bytes, form.file.value.mimeType)
    // success answers the public URL of the written key
    ensures r.response.status == 200 <==> r.put.Some? && send(r.put.value).None?
    // a write that throws is answered with its message
    ensures r.put.Some? && send(r.put.value).Some? ==>
      r.response == Response(500, Message(send(r.put.value).value))
    ensures r.response.status == 200 ==>
      Configured(env) && r.response.body == Uploaded(PublicUrl(env, r.put.value.key))
  {
    if !Configured(env) then
      Outcome(Response(500, Message("Server configuration error: Missing S3 credentials or bucket name")), None)
    else
      match form
      case Unparsable(m) => Outcome(Response(500, Message(m)), None)
      case TextEntry(t) =>
        if t == "" then Outcome(Response(400, Message("No file provided")), None)
        else Outcome(Response(500, Message(MissingTypeMessage)), None)
      case Parsed(file) =>
        if file.None? then Outcome(Response(400, Message("No file provided")), None)
        else if !StartsWith(file.value.mimeType, ImageTypePrefix) then
          Outcome(Response(400, Message("File must be an image")), None)
        else
          var key := ObjectKey(env, uuid, file.value.mimeType);
          var put := PutObject(env.bucketName.value, key, file.value.bytes, file.value.mimeType);
          match send(put)
          case Some(err) => Outcome(Response(500, Message(err)), Some(put))
          case None => Outcome(Response(200, Uploaded(PublicUrl(env, key))), Some(put))
  }

  // ---------------------------------------------------------------------
  // Lemmas

  /** The first piece of a split on `/` is the text before the first `/`. */
  lemma SplitHeadUpToSlash(s: string)
    ensures Split(s, "/")[0] == UpToSlash(s)
  {
    var u := UpToSlash(s);
    var k := |u|;
    forall j: nat | j < k
      ensures !OccursAt(s, "/", j)
    {
      assert s[j..j + 1] == [u[j]];
    }
    if k < |s| {
      assert s[k..k + 1] == "/";
      IndexOfLeast(s, "/", k);
      SplitStep(s, "/", k);
    } else {
      assert IndexOf(s, "/", 0).None?;
      assert u == s;
    }
  }

  /** For an image MIME type, the extension is the text after `image/` up to
      any further `/`, or `jpg` when that text is empty. */
  lemma ExtensionOfImageType(rest: string)
    ensures Extension(ImageTypePrefix + rest) ==
      (if UpToSlash(rest) != "" then UpToSlash(rest) else DefaultExtension)
  {
    var t := ImageTypePrefix + rest;
    assert t[5..6] == "/";
    forall j: nat | j < 5
      ensures !OccursAt(t, "/", j)
    {
      assert t[j..j + 1] == [t[j]];
    }
    IndexOfLeast(t, "/", 5);
    assert t[6..] == rest;
    assert Split(t, "/") == [t[..5]] + Split(rest, "/");
    SplitHeadUpToSlash(rest);
  }

  /** Two identifiers give two keys, whatever the prefix and MIME type. */
  lemma ObjectKeyInjective(env: Env, mimeType: string, u1: string, u2: string)
    requires ObjectKey(env, u1, mimeType) == ObjectKey(env, u2, mimeType)
    ensures u1 == u2
  {
    var pre := if Truthy(env.prefix) then env.prefix.value + "/" else "";
    var post := "." + Extension(mimeType);
    var k1, k2 := pre + u1 + post, pre + u2 + post;
    assert k1 == ObjectKey(env, u1, mimeType) && k2 == ObjectKey(env, u2, mimeType);
    assert |u1| == |u2|;
    assert k1[|pre|..|pre| + |u1|] == u1;
    assert k2[|pre|..|pre| + |u2|] == u2;
  }

  /** Two file names give two URLs under one configuration. */
  lemma PublicUrlInjective(env: Env, f1: string, f2: string)
    requires Configured(env)
    requires PublicUrl(env, f1) == PublicUrl(env, f2)
    ensures f1 == f2
  {
    var b := UrlBase(env) + "/";
    assert PublicUrl(env, f1) == b + f1 && PublicUrl(env, f2) == b + f2;
    assert (b + f1)[|b|..] == f1;
    assert (b + f2)[|b|..] == f2;
  }

  /** Uploading the same bytes twice with two fresh identifiers stores two
      objects under two keys and answers two URLs: nothing is derived from
      the content, so nothing is deduplicated. */
  lemma DistinctUploads(env: Env, file: UploadFile, u1: string, u2: string, send: PutObject -> Option<string>)
    requires u1 != u2
    ensures var r1 := HandleUpload(env, Parsed(Some(file)), u1, send);
      var r2 := HandleUpload(env, Parsed(Some(file)), u2, send);
      && (r1.put.Some? && r2.put.Some? ==> r1.put.value.key != r2.put.value.key)
      && (r1.response.status == 200 && r2.response.status == 200 ==>
            r1.response.body.imageUrl != r2.response.body.imageUrl)
  {
    var r1 := HandleUpload(env, Parsed(Some(file)), u1, send);
    var r2 := HandleUpload(env, Parsed(Some(file)), u2, send);
    if r1.put.Some? && r2.put.Some? {
      if r1.put.value.key == r2.put.value.key {
        ObjectKeyInjective(env, file.mimeType, u1, u2);
      }
    }
    if r1.response.status == 200 && r2.response.status == 200 {
      if r1.response.body.imageUrl == r2.response.body.imageUrl {
        PublicUrlInjective(env, r1.put.value.key, r2.put.value.key);
        ObjectKeyInjective(env, file.mimeType, u1, u2);
      }
    }
  }
}
