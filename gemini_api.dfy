/**
 * The image-generation request of FIH_Gemini: the payload built by
 * get_generation_args and the bounded retry loop of make_api_request.
 *
 * HTTP itself is not modelled. A decoded response body is reduced to the
 * fields the plugin reads, and the reply to the k-th POST of one request
 * (k = 0, 1, 2, 3) is given by an oracle `respond`.
 */
module GeminiApi {
  import opened Wrappers
  import opened Text
  import AspectRatio

  // ---------------------------------------------------------------------
  // responses

  /** An `inlineData` (or `inline_data`) object: its `data` and its
      `mimeType` (or `mime_type`); `None` when the key is unset or null. */
  datatype Blob = Blob(data: Option<string>, mimeType: Option<string>)

  /** One element of `candidates[0].content.parts`. */
  datatype Part = Part(text: Option<string>, inlineData: Option<Blob>, inlineDataSnake: Option<Blob>)

  /** A decoded JSON body: `error.message`, and `candidates[0].content.parts`
      when that path is set. A body that is not JSON has neither. */
  datatype Body = Body(errorMessage: Option<string>, parts: Option<seq<Part>>)

  /** The outcome of one `wp_remote_post`: a transport `WP_Error`, or an HTTP
      status code with its body. */
  datatype HttpReply = TransportFailure(message: string) | Reply(code: nat, body: Body)

  /** The `WP_Error` codes the generation pipeline can return. */
  datatype Error =
    | NoApiKey                        // no_api_key
    | InvalidPost                     // invalid_post
    | Transport(message: string)      // the transport error itself
    | ApiError(message: string)       // api_error
    | InvalidResponse                 // invalid_response
    | EmptyImage                      // empty_image
    | UploadError(message: string)    // upload_error
    | AttachmentError(message: string) // the error of wp_insert_attachment

  const UnknownApiError := "Unknown API error"

  /** The message of a non-200 reply: `error.message`, or a fixed default. */
  function ErrorMessage(body: Body): string {
    body.errorMessage.GetOr(UnknownApiError)
  }

  // ---------------------------------------------------------------------
  // get_generation_args

  datatype TextPart = TextPart(text: string)
  datatype ContentBlock = ContentBlock(parts: seq<TextPart>)
  datatype ImageConfig = ImageConfig(aspectRatio: string)
  datatype GenerationConfig = GenerationConfig(responseModalities: seq<string>, imageConfig: Option<ImageConfig>)
  datatype GenerationArgs = GenerationArgs(contents: seq<ContentBlock>, generationConfig: GenerationConfig)

  /** The option default of `fih_default_image_size`. */
  const DefaultImageSize := "1200x630"

  /** FIH_Gemini::get_generation_args for a prompt, given the configured
      image size: one content block holding one text part with the prompt,
      image output only, and an aspect ratio exactly when the size converts. */
  function GetGenerationArgs(prompt: string, imageSize: string): (args: GenerationArgs)
    ensures |args.contents| == 1 && args.contents[0].parts == [TextPart(prompt)]
    ensures args.generationConfig.responseModalities == ["Image"]
    ensures args.generationConfig.imageConfig.Some?
        <==> AspectRatio.ConvertSizeToAspectRatio(imageSize).Some?
    ensures args.generationConfig.imageConfig.Some? ==>
      args.generationConfig.imageConfig.value.aspectRatio
        == AspectRatio.Token(AspectRatio.ConvertSizeToAspectRatio(imageSize).value)
  {
    var ratio := AspectRatio.ConvertSizeToAspectRatio(imageSize);
    GenerationArgs(
      [ContentBlock([TextPart(prompt)])],
      GenerationConfig(["Image"], if ratio.Some? then Some(ImageConfig(AspectRatio.Token(ratio.value))) else None))
  }

  /** With the default size the request asks for 16:9. */
  lemma DefaultSizeAsksForWide(prompt: string)
    ensures GetGenerationArgs(prompt, DefaultImageSize).generationConfig.imageConfig
         == Some(ImageConfig("16:9"))
  {
    assert AspectRatio.Token(AspectRatio.Landscape16x9) == "16:9";
    AspectRatio.SocialCardIsWide();
    ArgsForRatio(prompt, DefaultImageSize, AspectRatio.Landscape16x9);
  }

  lemma ArgsForRatio(prompt: string, imageSize: string, r: AspectRatio.Ratio)
    requires AspectRatio.ConvertSizeToAspectRatio(imageSize) == Some(r)
    ensures GetGenerationArgs(prompt, imageSize).generationConfig.imageConfig == Some(ImageConfig(AspectRatio.Token(r)))
  {
  }

  // ---------------------------------------------------------------------
  // make_api_request

  /** Retries after the first attempt. */
  const MaxRetries: nat := 3

  function Pow2(n: nat): nat {
    if n == 0 then 1 else 2 * Pow2(n - 1)
  }

  /** The sleeps before retries 1..n: 2^0, 2^1, ..., 2^(n-1) seconds. */
  function Backoff(n: nat): (d: seq<nat>)
    ensures |d| == n && forall i :: 0 <= i < n ==> d[i] == Pow2(i)
  {
    if n == 0 then [] else Backoff(n - 1) + [Pow2(n - 1)]
  }

  /** Transport errors and 5xx replies are retried (while retries remain). */
  predicate Retryable(reply: HttpReply) {
    reply.TransportFailure? || (reply.code != 200 && reply.code >= 500)
  }

  /** The retry count at which the request stops: the first attempt from `k`
      on whose reply is not retryable, or the last one allowed. */
  function StopAttempt(respond: nat -> HttpReply, k: nat): (s: nat)
    requires k <= MaxRetries
    ensures k <= s <= MaxRetries
    ensures forall j :: k <= j < s ==> Retryable(respond(j))
    ensures s < MaxRetries ==> !Retryable(respond(s))
    decreases MaxRetries - k
  {
    if k == MaxRetries || !Retryable(respond(k)) then k else StopAttempt(respond, k + 1)
  }

  /** What the reply of the final attempt makes of the request. */
  function Final(reply: HttpReply): Result<Body, Error> {
    match reply
    case TransportFailure(m) => Err(Transport(m))
    case Reply(code, body) => if code == 200 then Ok(body) else Err(ApiError(ErrorMessage(body)))
  }

  /** The observable behaviour of one make_api_request call, in closed form. */
  datatype RequestOutcome = RequestOutcome(result: Result<Body, Error>, attempts: nat, delays: seq<nat>)

  function Expected(respond: nat -> HttpReply): RequestOutcome {
    var s := StopAttempt(respond, 0);
    RequestOutcome(Final(respond(s)), s + 1, Backoff(s))
  }

  /** FIH_Gemini::make_api_request. The PHP method recurses with `$retry_count`;
      here the same state is a loop counter. Each iteration is one POST;
      `delays` records the `sleep` calls. */
  method MakeApiRequest(respond: nat -> HttpReply)
    returns (result: Result<Body, Error>, attempts: nat, delays: seq<nat>)
    ensures RequestOutcome(result, attempts, delays) == Expected(respond)
  {
    var retryCount: nat := 0;
    delays := [];
    while true
      invariant retryCount <= MaxRetries
      invariant forall j :: 0 <= j < retryCount ==> Retryable(respond(j))
      invariant delays == Backoff(retryCount)
      decreases MaxRetries - retryCount
    {
      var reply := respond(retryCount);
      match reply {
        case TransportFailure(m) =>
          if retryCount < MaxRetries {
            delays := delays + [Pow2(retryCount)];
            retryCount := retryCount + 1;
            continue;
          }
          result := Err(Transport(m));
        case Reply(code, body) =>
          if code != 200 {
            if code >= 500 && retryCount < MaxRetries {
              delays := delays + [Pow2(retryCount)];
              retryCount := retryCount + 1;
              continue;
            }
            result := Err(ApiError(ErrorMessage(body)));
          } else {
            result := Ok(body);
          }
      }
      StopAttemptIsFirstFinal(respond, retryCount);
      attempts := retryCount + 1;
      return;
    }
  }

  /** Once every attempt before `s` was retryable and `s` is not (or is the
      last), `s` is where the request stops. */
  lemma {:induction false} StopAttemptIsFirstFinal(respond: nat -> HttpReply, s: nat)
    requires s <= MaxRetries
    requires forall j :: 0 <= j < s ==> Retryable(respond(j))
    requires s < MaxRetries ==> !Retryable(respond(s))
    ensures StopAttempt(respond, 0) == s
  {
    var t := StopAttempt(respond, 0);
  }

  // ---------------------------------------------------------------------
  // properties of the retry policy

  /** At most four POSTs, and a backoff of 1, 2, 4 seconds between them. */
  lemma AttemptsBounded(respond: nat -> HttpReply)
    ensures var o := Expected(respond);
      1 <= o.attempts <= MaxRetries + 1 && o.delays == Backoff(o.attempts - 1)
  {
  }

  /** The request succeeds exactly when some attempt gets a 200 and every
      attempt before it failed in a retryable way; it returns that body. */
  lemma SucceedsIff(respond: nat -> HttpReply)
    ensures Expected(respond).result.Ok? <==>
      exists k :: 0 <= k <= MaxRetries && respond(k).Reply? && respond(k).code == 200
        && forall j :: 0 <= j < k ==> Retryable(respond(j))
    ensures forall k ::
        (0 <= k <= MaxRetries && respond(k).Reply? && respond(k).code == 200
         && forall j :: 0 <= j < k ==> Retryable(respond(j))) ==>
        Expected(respond) == RequestOutcome(Ok(respond(k).body), k + 1, Backoff(k))
  {
    var s := StopAttempt(respond, 0);
    forall k | 0 <= k <= MaxRetries && respond(k).Reply? && respond(k).code == 200
        && (forall j :: 0 <= j < k ==> Retryable(respond(j)))
      ensures s == k
    {
    }
    if Expected(respond).result.Ok? {
      assert respond(s).Reply? && respond(s).code == 200;
    }
  }

  /** A reply below 500 other than 200 is returned at once, with its message
      (or "Unknown API error"), without a retry. */
  lemma ClientErrorNotRetried(respond: nat -> HttpReply)
    requires respond(0).Reply? && respond(0).code != 200 && respond(0).code < 500
    ensures Expected(respond)
         == RequestOutcome(Err(ApiError(ErrorMessage(respond(0).body))), 1, [])
  {
  }

  /** Transport errors and 5xx replies draw on the same three retries: four
      retryable failures in any mix end the request with the fourth. */
  lemma SharedRetryBudget(respond: nat -> HttpReply)
    requires forall j :: 0 <= j <= MaxRetries ==> Retryable(respond(j))
    ensures Expected(respond).attempts == 4 && Expected(respond).delays == [1, 2, 4]
    ensures Expected(respond).result == Final(respond(3)) && Expected(respond).result.Err?
  {
    assert Retryable(respond(0)) && Retryable(respond(1)) && Retryable(respond(2)) && Retryable(respond(3));
  }

  /** Three 503 replies and then a 200: four POSTs, sleeps of 1, 2 and 4
      seconds, and the body of the 200. */
  lemma ThreeUnavailableThenOk(respond: nat -> HttpReply, body: Body)
    requires forall j :: 0 <= j < 3 ==> respond(j) == Reply(503, Body(None, None))
    requires respond(3) == Reply(200, body)
    ensures Expected(respond) == RequestOutcome(Ok(body), 4, [1, 2, 4])
  {
    assert respond(0) == Reply(503, Body(None, None));
    assert respond(1) == Reply(503, Body(None, None));
    assert respond(2) == Reply(503, Body(None, None));
  }
}
