/**
 * FIH_Gemini::save_generated_image: finding the image in the response,
 * choosing the file extension from its MIME type, and storing it. Base64
 * decoding, the upload directory and the attachment table are collaborators
 * passed in as functions; every call made to them is recorded as an effect.
 */
module ImageSave {
  import opened Wrappers
  import opened Text
  import opened WordPress
  import opened GeminiApi

  type Bytes = seq<bv8>

  /** The fields of the attachment post passed to `wp_insert_attachment`. */
  datatype AttachmentData = AttachmentData(mimeType: string, title: string, content: string, status: string)

  /** Calls made to WordPress while generating an image, in order. */
  datatype Effect =
    | ImageRequested(args: GenerationArgs, attempts: nat, delays: seq<nat>)
    | ApiEventLogged(eventType: string, message: string, status: string)
    | UploadBits(filename: string)
    | InsertAttachment(data: AttachmentData, file: string, parent: nat)
    | AttachmentMetadataUpdated(attachmentId: nat, file: string)
    | GenerationLogged(postId: nat, prompt: string, status: string, message: string)
    | ThumbnailSet(postId: nat, attachmentId: nat)
    | PostMetaUpdated(objectId: nat, key: string, value: string)

  /** `base64_decode`, `wp_upload_bits` (the stored file's path, or its
      error), `wp_insert_attachment` (the new id, or its error) and
      `wp_json_encode` of a response. */
  datatype Storage = Storage(
    decode: string -> Option<Bytes>,
    upload: (string, Bytes) -> Result<string, string>,
    insertAttachment: (AttachmentData, string, nat) -> Result<nat, string>,
    encodeJson: Body -> string)

  // ---------------------------------------------------------------------
  // finding the image

  /** Base64 data found in a part, with its MIME type when one is given. */
  datatype Found = Found(data: string, mimeType: Option<string>)

  /** What one part offers: `inlineData.data` first, then `inline_data.data`. */
  function PartImage(p: Part): Option<Found> {
    if p.inlineData.Some? && p.inlineData.value.data.Some? then
      Some(Found(p.inlineData.value.data.value, p.inlineData.value.mimeType))
    else if p.inlineDataSnake.Some? && p.inlineDataSnake.value.data.Some? then
      Some(Found(p.inlineDataSnake.value.data.value, p.inlineDataSnake.value.mimeType))
    else None
  }

  /** The image of the first part that offers one. */
  function FirstImage(parts: seq<Part>): (r: Option<Found>)
    ensures r.None? <==> forall k :: 0 <= k < |parts| ==> PartImage(parts[k]).None?
    ensures r.Some? ==>
      exists k :: 0 <= k < |parts| && r == PartImage(parts[k]) && (forall j :: 0 <= j < k ==> PartImage(parts[j]).None?)
  {
    if parts == [] then None
    else if PartImage(parts[0]).Some? then
      PartImage(parts[0])
    else
      var r := FirstImage(parts[1..]);
      if r.Some? then
        var k :| 0 <= k < |parts[1..]| && r == PartImage(parts[1..][k])
          && forall j :: 0 <= j < k ==> PartImage(parts[1..][j]).None?;
        assert r == PartImage(parts[k + 1]);
        assert forall j :: 0 <= j < k + 1 ==> PartImage(parts[j]).None? by {
          forall j | 0 <= j < k + 1 ensures PartImage(parts[j]).None? {
            if j > 0 { assert parts[j] == parts[1..][j - 1]; }
          }
        }
        r
      else
        assert forall k :: 1 <= k < |parts| ==> parts[k] == parts[1..][k - 1];
        r
  }

  const DefaultMimeType := "image/png"

  /** The scan of `candidates[0].content.parts`: the loop stops at the first
      part with image data, and the MIME type stays `image/png` unless that
      part gives one. */
  method ExtractImage(response: Body) returns (imageBase64: Option<string>, mimeType: string)
    ensures var found := if response.parts.Some? then FirstImage(response.parts.value) else None;
      imageBase64 == (if found.Some? then Some(found.value.data) else None)
      && mimeType == (if found.Some? then found.value.mimeType.GetOr(DefaultMimeType) else DefaultMimeType)
  {
    imageBase64 := None;
    mimeType := DefaultMimeType;
    if response.parts.Some? {
      var parts := response.parts.value;
      var i := 0;
      while i < |parts|
        invariant 0 <= i <= |parts|
        invariant forall j :: 0 <= j < i ==> PartImage(parts[j]).None?
        invariant imageBase64 == None && mimeType == DefaultMimeType
      {
        var part := parts[i];
        if part.inlineData.Some? && part.inlineData.value.data.Some? {
          imageBase64 := Some(part.inlineData.value.data.value);
          if part.inlineData.value.mimeType.Some? {
            mimeType := part.inlineData.value.mimeType.value;
          }
          FirstImageAt(parts, i);
          return;
        }
        if part.inlineDataSnake.Some? && part.inlineDataSnake.value.data.Some? {
          imageBase64 := Some(part.inlineDataSnake.value.data.value);
          if part.inlineDataSnake.value.mimeType.Some? {
            mimeType := part.inlineDataSnake.value.mimeType.value;
          }
          FirstImageAt(parts, i);
          return;
        }
        i := i + 1;
      }
    }
  }

  /** The first part offering an image is the one FirstImage reports. */
  lemma FirstImageAt(parts: seq<Part>, i: nat)
    requires i < |parts| && PartImage(parts[i]).Some?
    requires forall j :: 0 <= j < i ==> PartImage(parts[j]).None?
    ensures FirstImage(parts) == PartImage(parts[i])
  {
    var r := FirstImage(parts);
    var k :| 0 <= k < |parts| && r == PartImage(parts[k])
      && forall j :: 0 <= j < k ==> PartImage(parts[j]).None?;
    assert !(k < i) && !(i < k);
  }

  /** Within one part the camelCase key wins over the snake_case one. */
  lemma CamelCaseFirst(p: Part, camel: string, snake: string)
    requires p.inlineData.Some? && p.inlineData.value.data == Some(camel)
    requires p.inlineDataSnake.Some? && p.inlineDataSnake.value.data == Some(snake)
    ensures FirstImage([p]) == Some(Found(camel, p.inlineData.value.mimeType))
  {
  }

  /** A later part's image is not reached when an earlier part has one, even
      one under the snake_case key. */
  lemma EarlierPartWins(p: Part, q: Part)
    requires PartImage(p).Some?
    ensures FirstImage([p, q]) == PartImage(p)
  {
  }

  // ---------------------------------------------------------------------
  // the file extension

  /** jpeg or jpg anywhere in the MIME type give "jpg", else webp gives
      "webp", else "png". */
  function ExtensionFor(mimeType: string): (ext: string)
    ensures ext == "jpg" <==> Contains(mimeType, "jpeg") || Contains(mimeType, "jpg")
    ensures ext == "webp" <==> !Contains(mimeType, "jpeg") && !Contains(mimeType, "jpg") && Contains(mimeType, "webp")
    ensures ext == "png" <==> !Contains(mimeType, "jpeg") && !Contains(mimeType, "jpg") && !Contains(mimeType, "webp")
  {
    if Contains(mimeType, "jpeg") || Contains(mimeType, "jpg") then "jpg"
    else if Contains(mimeType, "webp") then "webp"
    else "png"
  }

  /** The MIME type each extension stands for. */
  function MimeFor(ext: string): string {
    if ext == "jpg" then "image/jpeg" else if ext == "webp" then "image/webp" else DefaultMimeType
  }

  /** Each extension is recovered from its own MIME type. */
  lemma ExtensionOfMime(ext: string)
    requires ext == "jpg" || ext == "webp" || ext == "png"
    ensures ExtensionFor(MimeFor(ext)) == ext
  {
    if ext == "jpg" {
      JpegIsJpg();
    } else if ext == "webp" {
      WebpIsWebp();
    } else {
      PngIsPng();
    }
  }

  lemma JpegIsJpg()
    ensures ExtensionFor("image/jpeg") == "jpg"
  {
    ContainsInfix("image/", "jpeg", "");
    assert "image/" + "jpeg" + "" == "image/jpeg";
  }

  lemma WebpIsWebp()
    ensures ExtensionFor("image/webp") == "webp"
  {
    MissingFirstChar("image/webp", "jpeg");
    MissingFirstChar("image/webp", "jpg");
    ContainsInfix("image/", "webp", "");
    assert "image/" + "webp" + "" == "image/webp";
  }

  lemma PngIsPng()
    ensures ExtensionFor("image/png") == "png"
  {
    MissingFirstChar("image/png", "jpeg");
    MissingFirstChar("image/png", "jpg");
    MissingFirstChar("image/png", "webp");
    NoneGivesPng("image/png");
  }

  lemma NoneGivesPng(mimeType: string)
    requires !Contains(mimeType, "jpeg") && !Contains(mimeType, "jpg") && !Contains(mimeType, "webp")
    ensures ExtensionFor(mimeType) == "png"
  {
  }

  // ---------------------------------------------------------------------
  // save_generated_image

  /** `empty()` on decoded bytes: no bytes, or the single byte "0". */
  predicate IsEmptyBytes(b: Bytes) {
    b == [] || b == [0x30]
  }

  const InvalidStructureEvent := "image_generation"
  const InvalidStructurePrefix := "Invalid API response structure: "

  /** The file name: the sanitized post slug, the upload time, the extension. */
  function FileName(post: Post, fmt: Formatting, time: nat, ext: string): string {
    fmt.sanitizeFileName(post.name) + "-" + Decimal(time) + "." + ext
  }

  /** The image found in a response, when there is data that PHP does not
      consider empty. */
  function UsableImage(response: Body): Option<Found> {
    var found := if response.parts.Some? then FirstImage(response.parts.value) else None;
    if found.Some? && !IsPhpEmpty(found.value.data) then found else None
  }

  /** What save_generated_image does with a 200 response: its result and the
      calls it makes, in order. `debug` is the `fih_debug_logging_enabled`
      option and `time` the value of `time()`. */
  function SaveOutcome(response: Body, post: Post, storage: Storage, fmt: Formatting,
                       debug: bool, time: nat): (r: (Result<nat, Error>, seq<Effect>))
    ensures forall e :: e in r.1 ==> !e.GenerationLogged? && !e.ThumbnailSet? && !e.PostMetaUpdated?
    ensures !debug ==> forall e :: e in r.1 ==> !e.ApiEventLogged?
    ensures r.0 == Err(InvalidResponse) <==> UsableImage(response).None?
  {
    match UsableImage(response)
    case None =>
      (Err(InvalidResponse),
       if debug then [ApiEventLogged(InvalidStructureEvent, InvalidStructurePrefix + storage.encodeJson(response), "error")]
       else [])
    case Some(found) =>
      var bytes := storage.decode(found.data);
      var mime := found.mimeType.GetOr(DefaultMimeType);
      var name := FileName(post, fmt, time, ExtensionFor(mime));
      var data := AttachmentData(mime, post.title, "", "inherit");
      if bytes.None? || IsEmptyBytes(bytes.value) then (Err(EmptyImage), [])
      else
        match storage.upload(name, bytes.value)
        case Err(e) => (Err(UploadError(e)), [UploadBits(name)])
        case Ok(file) =>
          match storage.insertAttachment(data, file, post.id)
          case Err(e) => (Err(AttachmentError(e)), [UploadBits(name), InsertAttachment(data, file, post.id)])
          case Ok(id) => (Ok(id), [UploadBits(name), InsertAttachment(data, file, post.id),
                                   AttachmentMetadataUpdated(id, file)])
  }

  /** An attachment id is returned exactly when the response holds image data
      that decodes to something, the upload succeeds and the attachment is
      inserted under the post; the id is then the one `wp_insert_attachment`
      gave, and the bits were uploaded and the attachment inserted before its
      metadata was written. */
  lemma SaveSucceedsIff(response: Body, post: Post, storage: Storage, fmt: Formatting, debug: bool, time: nat)
    ensures var r := SaveOutcome(response, post, storage, fmt, debug, time);
      var found := UsableImage(response);
      r.0.Ok? <==>
        found.Some?
        && var bytes := storage.decode(found.value.data);
        var mime := found.value.mimeType.GetOr(DefaultMimeType);
        bytes.Some? && !IsEmptyBytes(bytes.value)
        && var upload := storage.upload(FileName(post, fmt, time, ExtensionFor(mime)), bytes.value);
        upload.Ok?
        && storage.insertAttachment(AttachmentData(mime, post.title, "", "inherit"), upload.value, post.id).Ok?
    ensures var r := SaveOutcome(response, post, storage, fmt, debug, time);
      r.0.Ok? ==>
        |r.1| == 3 && r.1[0].UploadBits? && r.1[1].InsertAttachment? && r.1[1].parent == post.id
        && r.1[2] == AttachmentMetadataUpdated(r.0.value, r.1[1].file)
        && storage.insertAttachment(r.1[1].data, r.1[1].file, post.id) == Ok(r.0.value)
  {
  }

  /** FIH_Gemini::save_generated_image for a 200 response: the scan of the
      parts and the early returns compute SaveOutcome. */
  method SaveGeneratedImage(response: Body, post: Post, storage: Storage, fmt: Formatting,
                            debug: bool, time: nat)
    returns (result: Result<nat, Error>, effects: seq<Effect>)
    ensures (result, effects) == SaveOutcome(response, post, storage, fmt, debug, time)
  {
    effects := [];
    var imageBase64, mimeType := ExtractImage(response);
    if imageBase64.None? || IsPhpEmpty(imageBase64.value) {
      if debug {
        effects := [ApiEventLogged(InvalidStructureEvent, InvalidStructurePrefix + storage.encodeJson(response), "error")];
      }
      return Err(InvalidResponse), effects;
    }
    var imageData := storage.decode(imageBase64.value);
    if imageData.None? || IsEmptyBytes(imageData.value) {
      return Err(EmptyImage), effects;
    }
    var extension := ExtensionFor(mimeType);
    var filename := FileName(post, fmt, time, extension);
    effects := effects + [UploadBits(filename)];
    assert effects == [UploadBits(filename)];
    var upload := storage.upload(filename, imageData.value);
    if upload.Err? {
      return Err(UploadError(upload.error)), effects;
    }
    var attachment := AttachmentData(mimeType, post.title, "", "inherit");
    effects := effects + [InsertAttachment(attachment, upload.value, post.id)];
    assert effects == [UploadBits(filename), InsertAttachment(attachment, upload.value, post.id)];
    var attachmentId := storage.insertAttachment(attachment, upload.value, post.id);
    if attachmentId.Err? {
      return Err(AttachmentError(attachmentId.error)), effects;
    }
    effects := effects + [AttachmentMetadataUpdated(attachmentId.value, upload.value)];
    assert effects == [UploadBits(filename), InsertAttachment(attachment, upload.value, post.id),
                       AttachmentMetadataUpdated(attachmentId.value, upload.value)];
    result := Ok(attachmentId.value);
  }
}
