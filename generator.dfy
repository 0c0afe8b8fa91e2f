/**
 * FIH_Gemini::generate_image: the whole pipeline from a post id to a
 * featured image, with get_api_key, log_generation and
 * generate_image_metadata. The site (posts, the two Gemini models, storage,
 * the clock) is a record of collaborators; the WordPress calls the pipeline
 * makes are returned as a trace of effects.
 */
module Generator {
  import opened Wrappers
  import opened Text
  import opened WordPress
  import opened GeminiApi
  import opened Prompt
  import opened ImageSave

  /** get_api_key: the GEMINI_API_KEY environment variable when it is not
      empty, otherwise the `fih_gemini_api_key` option. */
  function GetApiKey(envKey: string, optionKey: string): (key: string)
    ensures IsPhpEmpty(key) <==> IsPhpEmpty(envKey) && IsPhpEmpty(optionKey)
    ensures !IsPhpEmpty(envKey) ==> key == envKey
  {
    if !IsPhpEmpty(envKey) then envKey else optionKey
  }

  /** The options read by the pipeline: the environment key, the stored key,
      `fih_debug_logging_enabled`, `fih_default_image_size` and the prompt
      options. */
  datatype Options = Options(
    envKey: string,
    apiKeyOption: string,
    debug: bool,
    imageSize: string,
    prompt: PromptSettings)

  /** `get_post`, the text model, the image model (the reply to the k-th POST
      of a request), storage, formatting, `time()` and `current_time('mysql')`. */
  datatype Site = Site(
    getPost: nat -> Option<Post>,
    textModel: string -> HttpReply,
    imageModel: (GenerationArgs, nat) -> HttpReply,
    storage: Storage,
    fmt: Formatting,
    time: nat,
    mysqlNow: string)

  /** The replies the image model gives to one request. */
  function Respond(site: Site, args: GenerationArgs): nat -> HttpReply {
    (k: nat) => site.imageModel(args, k)
  }

  /** The message of each error, as `get_error_message` returns it. */
  function Message(e: Error): string {
    match e
    case NoApiKey => "Gemini API key is not configured."
    case InvalidPost => "Invalid post ID."
    case Transport(m) => m
    case ApiError(m) => m
    case InvalidResponse =>
      "Invalid image data returned from API. " + "Please check your API key and "
        + "ensure it has access to " + "Gemini 2.5 Flash."
    case EmptyImage => "Failed to decode image data " + "from API response."
    case UploadError(m) => m
    case AttachmentError(m) => m
  }

  /** log_generation: one log row, only when debug logging is enabled. */
  function LogGeneration(debug: bool, postId: nat, prompt: string, status: string, message: string): seq<Effect> {
    if debug then [GenerationLogged(postId, prompt, status, message)] else []
  }

  const AltTextPrefix := "Featured image for: "

  /** generate_image_metadata: the alt text and the three source metas
      (`true` is stored as "1"). */
  function ImageMetadata(attachmentId: nat, post: Post, fmt: Formatting, mysqlNow: string): seq<Effect> {
    [PostMetaUpdated(attachmentId, "_wp_attachment_image_alt", fmt.sanitizeTextField(AltTextPrefix + post.title)),
     PostMetaUpdated(attachmentId, "_fih_generated", "1"),
     PostMetaUpdated(attachmentId, "_fih_source", "gemini"),
     PostMetaUpdated(attachmentId, "_fih_generated_date", mysqlNow)]
  }

  /** set_post_thumbnail, then the metadata of the new attachment. */
  function Finish(postId: nat, attachmentId: nat, post: Post, fmt: Formatting, mysqlNow: string): seq<Effect> {
    [ThumbnailSet(postId, attachmentId)] + ImageMetadata(attachmentId, post, fmt, mysqlNow)
  }

  /** What generate_image does once the save has returned: its log row, then,
      on success only, the featured image and the metadata. */
  function Recorded(postId: nat, post: Post, prompt: string, saved: Result<nat, Error>, opts: Options, site: Site): seq<Effect> {
    LogGeneration(opts.debug, postId, prompt, if saved.Ok? then "success" else "error",
                  if saved.Ok? then "" else Message(saved.error))
    + (if saved.Ok? then Finish(postId, saved.value, post, site.fmt, site.mysqlNow) else [])
  }

  /** The generation log rows in a trace, in order. */
  function GenerationLogs(effects: seq<Effect>): (r: seq<Effect>)
    ensures forall e :: e in r ==> e.GenerationLogged? && e in effects
    ensures (forall e :: e in effects ==> !e.GenerationLogged?) ==> r == []
  {
    if effects == [] then []
    else if effects[0].GenerationLogged? then [effects[0]] + GenerationLogs(effects[1..])
    else GenerationLogs(effects[1..])
  }

  lemma {:induction false} GenerationLogsAppend(a: seq<Effect>, b: seq<Effect>)
    ensures GenerationLogs(a + b) == GenerationLogs(a) + GenerationLogs(b)
    decreases |a|
  {
    if a == [] {
      assert a + b == b;
    } else {
      assert (a + b)[1..] == a[1..] + b;
      GenerationLogsAppend(a[1..], b);
    }
  }

  /** Effects that mark a post as having a generated image. */
  predicate Marks(e: Effect) {
    e.ThumbnailSet? || e.PostMetaUpdated?
  }

  /** What a debug log call may write. */
  predicate IsLog(e: Effect) {
    e.GenerationLogged? || e.ApiEventLogged?
  }

  /** No effect of the trace sets a featured image or a meta value. */
  predicate NoMarks(effects: seq<Effect>) {
    forall e :: e in effects ==> !Marks(e)
  }

  /** No effect of the trace writes a log row. */
  predicate NoLogs(effects: seq<Effect>) {
    forall e :: e in effects ==> !IsLog(e)
  }

  /** The last five effects of the trace are `finish`. */
  predicate EndsWith(effects: seq<Effect>, finish: seq<Effect>) {
    |finish| <= |effects| && effects[|effects| - |finish|..] == finish
  }

  lemma Regroup(a: seq<Effect>, b: seq<Effect>, c: seq<Effect>)
    ensures a + (b + c) == a + b + c
  {
  }

  lemma EndsWithAppend(a: seq<Effect>, b: seq<Effect>)
    ensures EndsWith(a + b, b)
  {
    assert (a + b)[|a + b| - |b|..] == b;
  }

  lemma EndsWithPrepend(a: seq<Effect>, b: seq<Effect>, finish: seq<Effect>)
    requires EndsWith(b, finish)
    ensures EndsWith(a + b, finish)
  {
    assert (a + b)[|a + b| - |finish|..] == b[|b| - |finish|..];
  }

  /** The three trace properties of a concatenation, from those of its parts. */
  lemma TraceJoin(a: seq<Effect>, b: seq<Effect>)
    ensures GenerationLogs(a + b) == GenerationLogs(a) + GenerationLogs(b)
    ensures NoMarks(a + b) <==> NoMarks(a) && NoMarks(b)
    ensures NoLogs(a + b) <==> NoLogs(a) && NoLogs(b)
  {
    GenerationLogsAppend(a, b);
  }

  /** A log call writes only its own row, and nothing without debug logging. */
  lemma LogGenerationTrace(debug: bool, postId: nat, prompt: string, status: string, message: string)
    ensures var log := LogGeneration(debug, postId, prompt, status, message);
      GenerationLogs(log) == log && NoMarks(log) && (!debug ==> log == [])
  {
  }

  /** The featured image and the metadata write no log row. */
  lemma FinishTrace(postId: nat, attachmentId: nat, post: Post, fmt: Formatting, mysqlNow: string)
    ensures var finish := Finish(postId, attachmentId, post, fmt, mysqlNow);
      GenerationLogs(finish) == [] && NoLogs(finish)
  {
    var finish := Finish(postId, attachmentId, post, fmt, mysqlNow);
    assert forall e :: e in finish ==> !e.GenerationLogged? && !e.ApiEventLogged?;
  }

  /** What generate_image promises about its calls: exactly one generation
      log row, with the outcome's status and message, under debug logging;
      the featured image and the metadata written last on success; the post
      left unmarked on failure; and no log row at all without debug logging. */
  predicate Traced(effects: seq<Effect>, result: Result<nat, Error>, postId: nat, post: Post,
                   prompt: string, opts: Options, site: Site) {
    GenerationLogs(effects)
      == LogGeneration(opts.debug, postId, prompt, if result.Ok? then "success" else "error",
                       if result.Ok? then "" else Message(result.error))
    && (result.Ok? ==> EndsWith(effects, Finish(postId, result.value, post, site.fmt, site.mysqlNow)))
    && (result.Err? ==> NoMarks(effects))
    && (!opts.debug ==> NoLogs(effects))
  }

  /** The image request in front of a trace keeps its promises. */
  lemma RequestThenTrace(args: GenerationArgs, attempts: nat, delays: seq<nat>, rest: seq<Effect>,
                         result: Result<nat, Error>, postId: nat, post: Post, prompt: string, opts: Options, site: Site)
    requires Traced(rest, result, postId, post, prompt, opts, site)
    ensures Traced([ImageRequested(args, attempts, delays)] + rest, result, postId, post, prompt, opts, site)
  {
    var request := [ImageRequested(args, attempts, delays)];
    assert GenerationLogs(request) == [] && NoMarks(request) && NoLogs(request);
    TraceJoin(request, rest);
    assert [] + GenerationLogs(rest) == GenerationLogs(rest);
    if result.Ok? {
      EndsWithPrepend(request, rest, Finish(postId, result.value, post, site.fmt, site.mysqlNow));
    }
  }

  /** The part of generate_image after a 200 reply: the save, the log row,
      then the featured image and its metadata. */
  method SaveAndRecord(postId: nat, post: Post, prompt: string, body: Body, opts: Options, site: Site)
    returns (result: Result<nat, Error>, effects: seq<Effect>)
    ensures var save := SaveOutcome(body, post, site.storage, site.fmt, opts.debug, site.time);
      result == save.0 && effects == save.1 + Recorded(postId, post, prompt, save.0, opts, site)
    ensures Traced(effects, result, postId, post, prompt, opts, site)
  {
    var saved, saveEffects := SaveGeneratedImage(body, post, site.storage, site.fmt, opts.debug, site.time);
    if saved.Err? {
      effects := saveEffects + LogGeneration(opts.debug, postId, prompt, "error", Message(saved.error));
      result := Err(saved.error);
    } else {
      var log := LogGeneration(opts.debug, postId, prompt, "success", "");
      effects := saveEffects + log + Finish(postId, saved.value, post, site.fmt, site.mysqlNow);
      result := Ok(saved.value);
    }
    assert effects == saveEffects + Recorded(postId, post, prompt, saved, opts, site);
    assert GenerationLogs(saveEffects) == [] && NoMarks(saveEffects) && (!opts.debug ==> NoLogs(saveEffects));
    RecordedTrace(postId, post, prompt, saved, saveEffects, opts, site);
  }

  /** The trace properties of a save followed by its log row and, on
      success, the featured image and metadata. */
  lemma RecordedTrace(postId: nat, post: Post, prompt: string, saved: Result<nat, Error>,
                      saveEffects: seq<Effect>, opts: Options, site: Site)
    requires GenerationLogs(saveEffects) == [] && NoMarks(saveEffects)
    requires !opts.debug ==> NoLogs(saveEffects)
    ensures Traced(saveEffects + Recorded(postId, post, prompt, saved, opts, site), saved, postId, post, prompt, opts, site)
  {
    if saved.Err? {
      RecordedError(postId, post, prompt, saved.error, saveEffects, opts, site);
    } else {
      RecordedSuccess(postId, post, prompt, saved.value, saveEffects, opts, site);
    }
  }

  lemma RecordedError(postId: nat, post: Post, prompt: string, error: Error,
                      saveEffects: seq<Effect>, opts: Options, site: Site)
    requires GenerationLogs(saveEffects) == [] && NoMarks(saveEffects)
    requires !opts.debug ==> NoLogs(saveEffects)
    ensures var effects := saveEffects + Recorded(postId, post, prompt, Err(error), opts, site);
      GenerationLogs(effects) == LogGeneration(opts.debug, postId, prompt, "error", Message(error))
      && NoMarks(effects) && (!opts.debug ==> NoLogs(effects))
  {
    var log := LogGeneration(opts.debug, postId, prompt, "error", Message(error));
    assert Recorded(postId, post, prompt, Err(error), opts, site) == log;
    LogGenerationTrace(opts.debug, postId, prompt, "error", Message(error));
    TraceJoin(saveEffects, log);
    assert [] + log == log;
  }

  lemma RecordedSuccess(postId: nat, post: Post, prompt: string, id: nat,
                        saveEffects: seq<Effect>, opts: Options, site: Site)
    requires GenerationLogs(saveEffects) == [] && NoMarks(saveEffects)
    requires !opts.debug ==> NoLogs(saveEffects)
    ensures var effects := saveEffects + Recorded(postId, post, prompt, Ok(id), opts, site);
      GenerationLogs(effects) == LogGeneration(opts.debug, postId, prompt, "success", "")
      && EndsWith(effects, Finish(postId, id, post, site.fmt, site.mysqlNow))
      && (!opts.debug ==> NoLogs(effects))
  {
    var log := LogGeneration(opts.debug, postId, prompt, "success", "");
    var finish := Finish(postId, id, post, site.fmt, site.mysqlNow);
    assert Recorded(postId, post, prompt, Ok(id), opts, site) == log + finish;
    LogGenerationTrace(opts.debug, postId, prompt, "success", "");
    FinishTrace(postId, id, post, site.fmt, site.mysqlNow);
    TraceJoin(saveEffects, log);
    TraceJoin(saveEffects + log, finish);
    assert [] + log + [] == log;
    Regroup(saveEffects, log, finish);
    EndsWithAppend(saveEffects + log, finish);
  }

  /** The part of generate_image after the prompt is built: one image
      request, then SaveAndRecord on a 200 reply or a log row on an error. */
  method RequestAndSave(postId: nat, post: Post, prompt: string, args: GenerationArgs, opts: Options, site: Site)
    returns (result: Result<nat, Error>, effects: seq<Effect>)
    ensures var request := Expected(Respond(site, args));
      |effects| > 0 && effects[0] == ImageRequested(args, request.attempts, request.delays)
      && (request.result.Err? ==>
            result == Err(request.result.error)
            && effects == [effects[0]] + LogGeneration(opts.debug, postId, prompt, "error", Message(request.result.error)))
      && (request.result.Ok? ==>
            var save := SaveOutcome(request.result.value, post, site.storage, site.fmt, opts.debug, site.time);
            result == save.0 && effects == [effects[0]] + save.1 + Recorded(postId, post, prompt, save.0, opts, site))
    ensures Traced(effects, result, postId, post, prompt, opts, site)
  {
    var response, attempts, delays := MakeApiRequest(Respond(site, args));
    var request := [ImageRequested(args, attempts, delays)];
    var rest;
    if response.Err? {
      result := Err(response.error);
      rest := LogGeneration(opts.debug, postId, prompt, "error", Message(response.error));
      RecordedError(postId, post, prompt, response.error, [], opts, site);
      assert [] + rest == rest;
    } else {
      result, rest := SaveAndRecord(postId, post, prompt, response.value, opts, site);
      ghost var save := SaveOutcome(response.value, post, site.storage, site.fmt, opts.debug, site.time);
      Regroup(request, save.1, Recorded(postId, post, prompt, save.0, opts, site));
    }
    RequestThenTrace(args, attempts, delays, rest, result, postId, post, prompt, opts, site);
    effects := request + rest;
  }

  /** FIH_Gemini::generate_image. The key is checked before the post and
      nothing is requested or written when either is missing; otherwise the
      prompt of build_prompt is sent as described by RequestAndSave. */
  method GenerateImage(postId: nat, style: string, customPrompt: string, opts: Options, site: Site)
    returns (result: Result<nat, Error>, effects: seq<Effect>)
    ensures var key := GetApiKey(opts.envKey, opts.apiKeyOption);
      IsPhpEmpty(key) ==> result == Err(NoApiKey) && effects == []
    ensures var key := GetApiKey(opts.envKey, opts.apiKeyOption);
      !IsPhpEmpty(key) && site.getPost(postId).None? ==> result == Err(InvalidPost) && effects == []
    ensures var key := GetApiKey(opts.envKey, opts.apiKeyOption);
      !IsPhpEmpty(key) && site.getPost(postId).Some? ==>
        var prompt := BuildPrompt(site.getPost(postId).value, style, customPrompt, opts.prompt, key, site.textModel, site.fmt);
        var args := GetGenerationArgs(prompt, opts.imageSize);
        var request := Expected(Respond(site, args));
        |effects| > 0 && effects[0] == ImageRequested(args, request.attempts, request.delays)
        && (request.result.Err? ==>
              result == Err(request.result.error)
              && effects == [effects[0]] + LogGeneration(opts.debug, postId, prompt, "error", Message(request.result.error)))
        && (request.result.Ok? ==>
              var save := SaveOutcome(request.result.value, site.getPost(postId).value, site.storage, site.fmt,
                                      opts.debug, site.time);
              result == save.0
              && effects == [effects[0]] + save.1 + Recorded(postId, site.getPost(postId).value, prompt, save.0, opts, site))
        && GenerationLogs(effects)
           == LogGeneration(opts.debug, postId, prompt, if result.Ok? then "success" else "error",
                            if result.Ok? then "" else Message(result.error))
    ensures result.Ok? ==>
      site.getPost(postId).Some?
      && EndsWith(effects, [ThumbnailSet(postId, result.value)]
                           + ImageMetadata(result.value, site.getPost(postId).value, site.fmt, site.mysqlNow))
    ensures result.Err? ==> NoMarks(effects)
    ensures !opts.debug ==> NoLogs(effects)
  {
    var apiKey := GetApiKey(opts.envKey, opts.apiKeyOption);
    if IsPhpEmpty(apiKey) {
      return Err(NoApiKey), [];
    }
    var found := site.getPost(postId);
    if found.None? {
      return Err(InvalidPost), [];
    }
    var prompt := BuildPrompt(found.value, style, customPrompt, opts.prompt, apiKey, site.textModel, site.fmt);
    var args := GetGenerationArgs(prompt, opts.imageSize);
    result, effects := RequestAndSave(postId, found.value, prompt, args, opts, site);
  }
}
