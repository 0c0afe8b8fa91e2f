# Featured Image Helper, modelled in Dafny

This project models the core of the Featured Image Helper WordPress plugin.
The plugin generates a featured image for a post with Google's Gemini image
model. It works in four parts:

- **Generation** (`FIH_Gemini`) builds a prompt from the post and one of
  four style templates. By default it first asks a text model for a
  "visual concept" of the post. It sends the prompt to the image model
  with up to three retries and exponential backoff. It then finds the
  base64 image in the reply, stores it as an attachment and sets it as the
  post thumbnail.
- **The job queue** (`FIH_Queue`) holds one row per post to process.
  At most one row per post is pending or processing at a time. A batch
  takes the pending rows with the highest priority first, oldest first
  within a priority. It marks each row completed or failed and sends a
  completion email when the queue drains.
- **The rolling log** (`FIH_Logger`) records generation attempts when
  debug logging is on. After each generation log it keeps only the newest
  three rows, API events included. API events are always recorded and
  never trigger the cut. A daily job deletes rows older than the retention
  period.
- **Automatic enqueueing** in the admin enqueues a post on publish
  (priority 10) or on update (priority 5), as the trigger setting chooses.

Files and modules:

| file | module | what it holds |
|---|---|---|
| `wrappers.dfy` | `Wrappers` | `Option` and `Result` |
| `wordpress.dfy` | `WordPress` | the post record, the sanitizers as a record of functions, `absint` |
| `text.dfy` | `Text` | PHP's `empty()`, `strpos`, `str_replace`, `trim`, `strtolower`, `explode`, `intval` |
| `aspect_ratio.dfy` | `AspectRatio` | `gcd` and `convert_size_to_aspect_ratio` |
| `templates.dfy` | `Templates` | the four SPLICE prompt templates and the placeholder fill |
| `prompt.dfy` | `Prompt` | content selection, the visual concept and `build_prompt` |
| `gemini_api.dfy` | `GeminiApi` | request arguments, replies, errors and `make_api_request` |
| `image_save.dfy` | `ImageSave` | `save_generated_image` |
| `generator.dfy` | `Generator` | `generate_image`, returning its result and the calls it made |
| `queue.dfy` | `Queue` | the `fih_queue` table as the class `JobQueue` |
| `logger.dfy` | `Logging` | the `fih_logs` table as the class `Logger` |
| `auto_generate.dfy` | `AutoGenerate` | the auto-generation hook and its two handlers |

How the model stands in for the running system:

- Each database table is a class. Its rows are a sequence in insertion
  order, and `AUTO_INCREMENT` is a field.
- `TRUNCATE` empties the sequence and resets the counter to 1.
- `current_time('mysql')` is a clock field that only `Tick` advances, in
  seconds.
- HTTP calls are functions from the attempt number to a reply. The text
  model is a function from the content to a reply.
- Storage (`base64_decode`, `wp_upload_bits`, `wp_insert_attachment`) and
  the WordPress sanitizers are functions passed in as parameters.
- `generate_image` returns the list of calls it made to WordPress (log
  rows, the thumbnail, post metas, uploads) instead of making them.
- In `process_queue`, the outcome of each `generate_image` call is a
  function from the row's position in the batch to success or failure.

The code does not use two things its names suggest, the
`fih_queue_paused` option and the `fih_queue_completion_notified`
transient:

- `process_queue` never reads the pause flag. A paused queue is still
  processed when the cron event fires. `pause` and `resume` only set the
  flag (`JobQueue.ProcessQueue` does not consult `paused`).
- The completion email is not guarded by an "already notified" flag.
  It is sent after every batch that leaves nothing pending or processing.
  A second email does not follow because the next run finds no pending row
  and returns before the check (`Queue.TwoRuns`).

## Model

| member | source | states |
|---|---|---|
| Text.ContainsIff | includes/class-fih-gemini.php:588-592 | `strpos(...) !== false` holds exactly when the needle occurs at some index of the haystack |
| Text.ReplaceSinglePlaceholder | includes/class-fih-gemini.php:374 | `str_replace` of a placeholder that occurs once puts the replacement exactly where the placeholder was and leaves the rest of the text alone |
| Text.StripBothIdempotent | includes/class-fih-gemini.php:209-213 | stripping a character class from both ends a second time changes nothing |
| Text.ToLowerAscii | includes/class-fih-gemini.php:423 | lower-casing keeps the length, maps both `x` and `X` (and only they) to `x`, and leaves digits alone |
| Text.Split | includes/class-fih-gemini.php:423 | `explode` yields one more part than there are separators, and no part contains the separator |
| Text.JoinSplit | includes/class-fih-gemini.php:423 | joining the parts of `explode` with the separator gives back the original string |
| Text.IntValDecimal | includes/class-fih-gemini.php:428-429 | `intval` of a decimal numeral is its value, saturated at PHP_INT_MAX |
| Text.IntValNegated | includes/class-fih-gemini.php:428-433 | `intval` of a minus sign and a numeral is the negated value, saturated at PHP_INT_MIN |
| Text.IntValScientific | includes/class-fih-gemini.php:428-429 | `intval` of `MeE` is M·10^E, saturated at PHP_INT_MAX, as PHP 7.1 and later read the exponent form |
| AspectRatio.Gcd | includes/class-fih-gemini.php:475-477 | the GCD is positive unless both arguments are 0, and not larger than both of them |
| AspectRatio.GcdDivides | includes/class-fih-gemini.php:475-477 | the GCD divides both arguments |
| AspectRatio.GcdGreatest | includes/class-fih-gemini.php:475-477 | every common divisor divides the GCD |
| AspectRatio.GcdCommutes | includes/class-fih-gemini.php:475-477 | the GCD does not depend on argument order |
| AspectRatio.ReducedIsCoprime | includes/class-fih-gemini.php:436-438 | dividing width and height by their GCD leaves a pair whose GCD is 1 |
| AspectRatio.TestedGcds | tests/GeminiApiTest.php:90-93 | the GCDs the unit tests expect: (8,12)=4, (10,15)=5, (7,13)=1, (100,200)=100 |
| AspectRatio.ExactRatio | includes/class-fih-gemini.php:441-447 | a reduced ratio is returned as is only when its `W:H` string is one of the five supported tokens |
| AspectRatio.RatioStringMatches | includes/class-fih-gemini.php:441-446 | the `W:H` string equals a token exactly when the reduced pair is that ratio's pair |
| AspectRatio.NearestRatio | includes/class-fih-gemini.php:450-464 | the result is the first ratio in the order 1:1, 3:4, 4:3, 9:16, 16:9 that is within tolerance; when none is, it is 16:9 for wide or square sizes and 9:16 for tall ones |
| AspectRatio.ExactMatchAgreesWithNearest | includes/class-fih-gemini.php:436-464 | the exact-match shortcut never gives a different answer from the tolerance search |
| AspectRatio.ScaleInvariant | includes/class-fih-gemini.php:436-464 | scaling width and height by the same factor does not change the ratio chosen |
| AspectRatio.ConvertSizeToAspectRatio | includes/class-fih-gemini.php:422-426 | a size without exactly one `x` (either case) has no ratio |
| AspectRatio.ConvertSizeSpec | includes/class-fih-gemini.php:422-465 | no ratio exactly when the lower-cased size does not split on `x` into two pieces or either piece's `intval` is not positive; otherwise the first ratio of the tolerance chain for those two values |
| AspectRatio.ConvertDecimalSize | includes/class-fih-gemini.php:422-433 | `WxH` or `WXH` in decimal gives the classification of (W, H), each saturated at PHP_INT_MAX, when both are positive and no ratio otherwise |
| AspectRatio.NegativeWidthHasNoRatio | includes/class-fih-gemini.php:428-433 | a size whose width is a negative numeral has no ratio, whatever its height |
| AspectRatio.ScientificWidth | includes/class-fih-gemini.php:428-433 | a width written `MeE` is read as M·10^E before classification |
| AspectRatio.ThousandBySixThirty | includes/class-fih-gemini.php:422-465 | "1e3x630" is 1000 by 630 and asks for 16:9 |
| AspectRatio.MalformedSizeHasNoRatio | includes/class-fih-gemini.php:423-426 | a size that does not split into exactly two parts has no ratio |
| AspectRatio.WithoutXHasNoRatio | includes/class-fih-gemini.php:423-426 | a size with no `x` or `X` has no ratio |
| AspectRatio.TestedSizes | tests/GeminiApiTest.php:70-76 | square, 16:9, 9:16, 4:3 and 3:4 sizes from the unit tests map to those ratios |
| AspectRatio.TestedMalformedSizes | tests/GeminiApiTest.php:77-78 | "invalid" and "1200" have no ratio |
| AspectRatio.SocialCardIsWide | includes/class-fih-gemini.php:404-405 | the default size 1200x630 asks for 16:9 |
| Templates.StyleNamed | includes/class-fih-gemini.php:373 | a known style name picks its template, and any other name picks the photographic one |
| Templates.StyleNamedInverse | includes/class-fih-gemini.php:55-91 | looking up a style by its own key gives that style back |
| Templates.TemplateWellFormed | includes/class-fih-gemini.php:55-91 | each of the four templates holds `{content}` exactly once, with no `{` elsewhere |
| Templates.PlaceholderOnce | includes/class-fih-gemini.php:55-91 | in a well-formed template `{content}` occurs at one index only |
| Templates.TemplateShape | includes/class-fih-gemini.php:55-91 | each template names its own style and ends with the no-text rules line |
| Templates.FillWellFormed | includes/class-fih-gemini.php:374 | filling a template puts the concept between the text before and after the placeholder |
| Templates.FillKeeps | includes/class-fih-gemini.php:374 | the filled prompt contains the concept and every word of the template around it |
| Templates.FillLeavesNoPlaceholder | includes/class-fih-gemini.php:374 | a concept without `{` leaves no placeholder in the prompt |
| Prompt.CleanConcept | includes/class-fih-gemini.php:209-213 | the cleaned concept is no longer than the reply and neither starts nor ends with whitespace |
| Prompt.CleanConceptStrips | includes/class-fih-gemini.php:209-213 | whitespace and runs of quotes around a concept are removed, and the concept itself is kept |
| Prompt.VisualConcept | includes/class-fih-gemini.php:142-222 | an empty API key gives `no_api_key`; a concept is returned only from a 200 reply that has a first text part, and it is that text cleaned |
| Prompt.VisualConceptErrors | includes/class-fih-gemini.php:192-221 | a transport error is passed on; a non-200 reply gives `api_error` with the message and the HTTP code; a 200 reply without parts gives `invalid_response` |
| Prompt.BuildPrompt | includes/class-fih-gemini.php:330-377 | a non-empty custom prompt is used verbatim; otherwise the chosen template is filled with the concept |
| Prompt.PromptCarriesStyle | includes/class-fih-gemini.php:330-377 | a built prompt names its style, ends with the rules line and, for a concept without `{`, has no placeholder left |
| Prompt.SourceTextWhenNoConcept | includes/class-fih-gemini.php:336-374 | when the transformation is off or fails, the prompt holds the sanitized source content |
| Prompt.ConceptReplacesSource | includes/class-fih-gemini.php:358-374 | when the concept is generated, it replaces the source content in the prompt |
| GeminiApi.GetGenerationArgs | includes/class-fih-gemini.php:386-413 | one text part holding the prompt, image output only, and an aspect ratio exactly when the configured size converts |
| GeminiApi.DefaultSizeAsksForWide | includes/class-fih-gemini.php:403-410 | with the default image size the request asks for 16:9 |
| GeminiApi.StopAttempt | includes/class-fih-gemini.php:505-526 | the attempt that ends the request is the first one that is not retryable, or the fourth |
| GeminiApi.MakeApiRequest | includes/class-fih-gemini.php:487-532 | the retry loop gives the result, the number of attempts and the sleeps of the recursive definition |
| GeminiApi.AttemptsBounded | includes/class-fih-gemini.php:505-526 | one to four attempts, with sleeps of 1, 2, 4 seconds between them |
| GeminiApi.SucceedsIff | includes/class-fih-gemini.php:505-531 | a request succeeds exactly when some attempt up to the fourth is a 200 and every earlier one was retryable; the body is that reply's |
| GeminiApi.ClientErrorNotRetried | includes/class-fih-gemini.php:519-528 | a 4xx reply is not retried and gives `api_error` with its message |
| GeminiApi.SharedRetryBudget | includes/class-fih-gemini.php:505-526 | transport errors and 5xx replies share one budget of three retries |
| GeminiApi.ThreeUnavailableThenOk | includes/class-fih-gemini.php:519-531 | three 503 replies and then a 200 succeed on the fourth attempt after sleeping 1, 2 and 4 seconds |
| ImageSave.FirstImage | includes/class-fih-gemini.php:550-569 | the image is that of the first part offering one, and there is none only when no part offers one |
| ImageSave.ExtractImage | includes/class-fih-gemini.php:545-569 | the scan returns the first part's data, with its MIME type or `image/png` |
| ImageSave.FirstImageAt | includes/class-fih-gemini.php:551-568 | the part at the first index with image data is the one used |
| ImageSave.CamelCaseFirst | includes/class-fih-gemini.php:553-559 | in a part with both spellings, `inlineData` wins over `inline_data` |
| ImageSave.EarlierPartWins | includes/class-fih-gemini.php:551-558 | a later part's image is ignored once an earlier part has one |
| ImageSave.ExtensionFor | includes/class-fih-gemini.php:587-592 | `jpg` exactly when the MIME type mentions jpeg or jpg; `webp` exactly when it mentions webp and not those; `png` otherwise |
| ImageSave.ExtensionOfMime | includes/class-fih-gemini.php:587-592 | each extension's MIME type gives the extension back |
| ImageSave.SaveOutcome | includes/class-fih-gemini.php:542-622 | the save never logs a generation row or marks the post, writes an API event only under debug logging, and fails with `invalid_response` exactly when the reply holds no usable image data |
| ImageSave.SaveSucceedsIff | includes/class-fih-gemini.php:542-622 | an attachment id comes back exactly when the data decodes to something non-empty, the upload succeeds and the attachment is inserted under the post; it is the inserted id, after the upload and the insert and before its metadata |
| ImageSave.SaveGeneratedImage | includes/class-fih-gemini.php:542-622 | the scan for image data and the early returns compute SaveOutcome: the same result and the same calls in the same order |
| Generator.GetApiKey | includes/class-fih-gemini.php:680-688 | a non-empty environment key wins, and the key is empty only when both sources are |
| Generator.GenerationLogsAppend | includes/class-fih-gemini.php:657-672 | the generation log rows of two traces joined are those of each in turn |
| Generator.LogGenerationTrace | includes/class-fih-gemini.php:657-672 | a generation log call records one row under debug logging and nothing otherwise |
| Generator.FinishTrace | includes/class-fih-gemini.php:305-309 | setting the thumbnail and writing the image metadata log nothing |
| Generator.SaveAndRecord | includes/class-fih-gemini.php:280-309 | the result is the save's result, and the calls are the save's calls, then one generation log row with the matching status, then on success the thumbnail and metadata; on error the post is not marked |
| Generator.RequestAndSave | includes/class-fih-gemini.php:257-309 | the image request comes first; a failed request logs one error row and stops; after a 200 reply the result and the remaining calls are those of SaveOutcome on the reply, followed by the log row and, on success, the thumbnail and metadata |
| Generator.GenerateImage | includes/class-fih-gemini.php:233-315 | `no_api_key` and `invalid_post` return before any call; otherwise the request is made with the built prompt; after a 200 reply the returned attachment id and the upload and insert calls are those of SaveOutcome; exactly one generation row is logged under debug logging, and the thumbnail and metadata are written only on success |
| Queue.ActivePostsAppend | featured-image-helper/includes/class-fih-queue.php:53-76 | appending a row adds its post to the active posts exactly when the row is pending or processing |
| Queue.AppendKeepsOneActive | featured-image-helper/includes/class-fih-queue.php:53-76 | adding a row for a post with no active row keeps at most one active row per post |
| Queue.JobQueue.AddToQueue | featured-image-helper/includes/class-fih-queue.php:48-79 | a post with an active row is refused and nothing changes; otherwise one pending row with the next id, `absint` of post and priority and the current time is appended |
| Queue.Accepted | featured-image-helper/includes/class-fih-queue.php:89-99 | a bulk add counts no more rows than posts given |
| Queue.AcceptedDistinct | featured-image-helper/includes/class-fih-queue.php:89-99 | a bulk add accepts one row per distinct post that had no active row |
| Queue.SamePostThrice | featured-image-helper/includes/class-fih-queue.php:89-99 | the same post three times on an empty queue is added once |
| Queue.AcceptedPosts | featured-image-helper/includes/class-fih-queue.php:89-99 | the posts a bulk add enqueues, in order, one per accepted id, as many as Accepted counts |
| Queue.JobQueue.AddBulkToQueue | featured-image-helper/includes/class-fih-queue.php:89-99 | the count returned is Accepted; the new table is the old one followed by one pending, never-processed row per accepted post, in order, with consecutive ids from the old counter, the `absint` priority and the current time; the counter advances by the count; the posts with an active row grow by exactly the accepted posts |
| Queue.SamePostThriceOnNewQueue | featured-image-helper/includes/class-fih-queue.php:89-99 | the same post three times on a new queue returns 1 |
| Queue.WithStatus | featured-image-helper/includes/class-fih-queue.php:115 | the rows with a status are exactly those rows of the table |
| Queue.StatsOf | featured-image-helper/includes/class-fih-queue.php:182-206 | one count per status, equal to the rows with it, and a total that is their sum and the table size |
| Queue.CountsAddUp | featured-image-helper/includes/class-fih-queue.php:195-203 | the four per-status counts add up to the number of rows |
| Queue.JobQueue.GetStats | featured-image-helper/includes/class-fih-queue.php:182-206 | the counts of the current table, adding up to the total |
| Queue.SortByRank | featured-image-helper/includes/class-fih-queue.php:115 | ordering keeps exactly the same rows |
| Queue.SortSorted | featured-image-helper/includes/class-fih-queue.php:115 | the order is priority descending, then creation time ascending |
| Queue.SelectSpec | featured-image-helper/includes/class-fih-queue.php:113-119 | a batch is `min(limit, pending)` pending rows in rank order, and no pending row left out outranks a row taken |
| Queue.HigherPriorityFirst | featured-image-helper/includes/class-fih-queue.php:115 | a pending row of higher priority than a row taken is taken too |
| Queue.NoPendingNoBatch | featured-image-helper/includes/class-fih-queue.php:113-123 | with nothing pending the batch is empty |
| Queue.SelectDistinct | featured-image-helper/includes/class-fih-queue.php:113-119 | a batch never holds the same row twice |
| Queue.JobQueue.GetPendingItems | featured-image-helper/includes/class-fih-queue.php:269-283 | at most `limit` pending rows, highest priority first and oldest first within a priority |
| Queue.SetStatus | featured-image-helper/includes/class-fih-queue.php:157-174 | only the row with that id changes; it takes the new status and the current time as processing time |
| Queue.JobQueue.UpdateStatus | featured-image-helper/includes/class-fih-queue.php:157-174 | the table after the update is the status change of the table before |
| Queue.SettleAt | featured-image-helper/includes/class-fih-queue.php:127-143 | after a batch, each row taken is completed or failed as its generation went, and every other row is unchanged |
| Queue.SettleFinishes | featured-image-helper/includes/class-fih-queue.php:127-143 | no row of a batch is left pending or processing |
| Queue.SettleKeepsOneActive | featured-image-helper/includes/class-fih-queue.php:127-143 | processing a batch keeps at most one active row per post |
| Queue.JobQueue.ProcessQueue | featured-image-helper/includes/class-fih-queue.php:106-147 | the batch is the selection of the table before, each row ends completed or failed, an empty batch sends nothing, and the completion check runs on the table after |
| Queue.CompletionNotice | featured-image-helper/includes/class-fih-queue.php:326-361 | an email with the completed and failed counts only when nothing is pending or processing, the table is not empty and the email option is on |
| Queue.NoActiveIff | featured-image-helper/includes/class-fih-queue.php:330 | zero pending and zero processing counts mean no row is pending or processing, and back |
| Queue.NoticeMeansDrained | featured-image-helper/includes/class-fih-queue.php:326-333 | when an email is due the next batch is empty, and the email's counts cover every row |
| Queue.JobQueue.CheckCompletionNotification | featured-image-helper/includes/class-fih-queue.php:326-333 | an email exactly when the option is on, the table is not empty and no row is active |
| Queue.TwoRuns | featured-image-helper/includes/class-fih-queue.php:106-147 | a run that sends the completion email is followed by a run that sends none |
| Queue.ActiveRows | featured-image-helper/includes/class-fih-queue.php:214-228 | deleting completed and failed rows keeps exactly the pending and processing ones and their counts |
| Queue.JobQueue.ClearProcessed | featured-image-helper/includes/class-fih-queue.php:214-228 | the count deleted is completed plus failed, and afterwards those counts are zero and the others unchanged |
| Queue.WithoutId | featured-image-helper/includes/class-fih-queue.php:292-304 | removing an id keeps exactly the rows with other ids |
| Queue.JobQueue.RemoveItem | featured-image-helper/includes/class-fih-queue.php:292-304 | the row with that id is gone and the one-active-row rule still holds |
| Queue.JobQueue.ClearQueue | featured-image-helper/includes/class-fih-queue.php:312-319 | the table is empty and ids restart at 1 |
| Queue.JobQueue.Pause | featured-image-helper/includes/class-fih-queue.php:236-239 | the flag is set and the call reports success |
| Queue.JobQueue.Resume | featured-image-helper/includes/class-fih-queue.php:247-250 | the flag is cleared and the call reports success |
| Queue.JobQueue.IsPaused | featured-image-helper/includes/class-fih-queue.php:258-260 | the flag as stored |
| Logging.RollingWindow | includes/class-fih-logger.php:83-115 | cutting back after every insert keeps the same rows as cutting back once: the newest three ever logged |
| Logging.OldestEvictedFirst | includes/class-fih-logger.php:105-114 | the rows cut back are the oldest, and the window keeps `min(count, 3)` rows |
| Logging.Logger.Log | includes/class-fih-logger.php:55-90 | nothing without debug logging; otherwise a sanitized row with the next id is added and the table is cut back to the newest three, ending with it |
| Logging.Logger.LimitLogs | includes/class-fih-logger.php:97-115 | over three rows, the oldest `count - 3` are deleted; otherwise nothing changes |
| Logging.Reverse | includes/class-fih-logger.php:131 | row i of the result is row `n - 1 - i` of the table |
| Logging.ReverseKeepsRows | includes/class-fih-logger.php:131 | newest-first order keeps exactly the same rows, in descending creation time |
| Logging.Logger.GetLogs | includes/class-fih-logger.php:124-138 | the newest `limit` rows, newest first, and none for a negative limit |
| Logging.ForPost | includes/class-fih-logger.php:211-214 | the rows of a post are exactly the table's rows with that post id, each as many times as in the table |
| Logging.ReversePermutes | includes/class-fih-logger.php:211-214 | `ORDER BY ... DESC` reorders the rows without dropping or repeating any |
| Logging.ForPostChronological | includes/class-fih-logger.php:204-218 | filtering by post keeps creation order |
| Logging.Logger.GetLogsByPost | includes/class-fih-logger.php:204-218 | exactly the post's rows, each as many times as it is in the table, newest first |
| Logging.FindId | includes/class-fih-logger.php:181-195 | the row returned has the id asked for, and none is returned only when no row has it |
| Logging.Logger.GetLog | includes/class-fih-logger.php:181-195 | the row with that id, or nothing exactly when there is none |
| Logging.Since | includes/class-fih-logger.php:166-171 | the rows kept are exactly those created at or after the cutoff |
| Logging.SinceIsSuffix | includes/class-fih-logger.php:166-171 | on a table in creation order, age cleanup deletes a prefix of old rows and nothing else |
| Logging.Logger.CleanupOldLogs | includes/class-fih-logger.php:160-172 | rows older than the retention period (7 days by default) are deleted and the rest kept |
| Logging.Logger.ClearLogs | includes/class-fih-logger.php:146-153 | the table is empty and ids restart at 1 |
| Logging.Logger.LogApiEvent | includes/class-fih-logger.php:229-257 | always one row for post 0 with the event type as prompt and a time of 0; the table is not cut back |
| Logging.ApiEventAfterFullWindow | includes/class-fih-logger.php:83-115 | an API event after three logs makes four rows, and the next generation log cuts the table back to three |
| AutoGenerate.SetupAutoGeneration | includes/class-fih-admin.php:78-93 | the publish hook exactly for trigger `publish` and the save hook exactly for `update`, both only when enabled |
| AutoGenerate.NoHookUnlessAsked | includes/class-fih-admin.php:78-93 | disabled, `manual` or unset, or any other trigger registers nothing |
| AutoGenerate.OnPublish | includes/class-fih-admin.php:102-117 | a post is enqueued at priority 10 exactly when its type is enabled and it has no thumbnail |
| AutoGenerate.OnSave | includes/class-fih-admin.php:126-151 | a post is enqueued at priority 5 exactly when it is not an autosave, its type is enabled, it is published and it has no thumbnail |
| AutoGenerate.AutoEnqueueRules | includes/class-fih-admin.php:78-151 | an action enqueues only through the hook the trigger chose, never for a post with a thumbnail or of a disabled type, at that hook's priority |
| AutoGenerate.DefaultsNeverEnqueue | includes/class-fih-admin.php:79-83 | with auto-generation off, or the trigger unset, no action enqueues anything |
| AutoGenerate.PagesNotByDefault | includes/class-fih-admin.php:104-107 | with the default post types a page is never enqueued |
| AutoGenerate.PublishedFirst | includes/class-fih-admin.php:116 | a batch that takes a row enqueued on update takes every pending row enqueued on publish |

## Left out

- HTTP transport, JSON encoding and decoding, and base64 are left out. A reply is its status code plus the two JSON paths the code reads (`error.message` and `candidates[0].content.parts`). Decoding is a function passed in.
- `sleep` is not performed. The delays are returned as a list of seconds.
- Floating point is not modelled. The aspect-ratio tolerance `abs(w/h - r) < 0.1` is compared in integers as `10·|w·d − n·h| < d·h`, with 1.33 and 1.78 written as 133/100 and 178/100. `generation_time` is a natural number the logger only stores.
- AspectRatio.NearestRatio: sizes exactly 0.1 from a nominal ratio can classify differently from PHP, whose doubles round the difference. 900x1000 gives 1:1 in PHP and 9:16 here; 650x1000 gives 3:4 in PHP and 9:16 here; 143x100 gives 4:3 in PHP and 16:9 here.
- Text.IntVal: the numeric prefix is read exactly. PHP reads a prefix with a fraction or an exponent as a double. So a value that is not exactly representable as a double is not rounded here; "4611686018427387e3", for example, is exact here and rounded in PHP. An exponent form beyond the double range (about 1.8e308), which PHP turns into 0, saturates here at PHP_INT_MAX.
- Time zones are not modelled. `current_time('mysql')`, MySQL's `NOW()` and `time()` are one clock in seconds.
- Within one `process_queue` run, every row processed gets the same processing time.
- MySQL leaves the order of rows with equal sort keys unspecified. The model breaks ties by insertion order:
  - equal priority and creation time in the queue, by id;
  - equal creation time in the log, by table position.
- Database failures (`$wpdb->insert` returning false, a failing `TRUNCATE`) are not modelled. Every write succeeds.
- Queue.JobQueue.AddToQueue: the one-active-row-per-post rule is proved only for non-negative post ids. The code checks `post_id = intval(p)` but stores `absint(p)`, so a negative id can add a second active row for the same post.
- The `fih_log_entry`, `fih_prompt_template`, `fih_image_generation_args`, `fih_batch_size` and `fih_use_semantic_transformation` filters and the `fih_before_generate_image` and `fih_after_generate_image` actions are left out. They are taken as the identity, with the transformation setting a plain option.
- The WordPress sanitizers and `wp_trim_words` are functions passed in. Nothing is proved about what they compute.
- The body of the completion email, `wp_mail` and the transient deletion are left out. The model keeps only whether an email is sent and the counts in it.
- `test_connection`, the API-key encryption and settings pages, the admin UI and AJAX handlers, the cron scheduling and the activator are not part of this model.
- The pause flag is stored but no operation reads it, as in the code.
- PHP default arguments are explicit parameters, and the defaults are named constants: the priority of add_to_queue and add_bulk_to_queue (`Queue.DefaultPriority`, 0), the `fih_batch_size` option (`Queue.DefaultBatchSize`, 5), the limit of get_pending_items (`Queue.DefaultPendingLimit`, 100), the limit of get_logs (`Logging.DefaultLogLimit`, 3) and the status of log_api_event (`Logging.DefaultApiEventStatus`, "info").
