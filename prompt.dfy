/**
 * Prompt construction of FIH_Gemini: the choice of source text, the
 * visual-concept call of generate_visual_concept (its post-processing and
 * error paths) and build_prompt.
 */
module Prompt {
  import opened Wrappers
  import opened Text
  import opened WordPress
  import opened GeminiApi
  import opened Templates

  // ---------------------------------------------------------------------
  // the text the prompt is about

  /** The `fih_content_source` option. */
  datatype ContentSource = TitleSource | ExcerptSource | FullContentSource

  /** 'excerpt' and 'content' select those sources; anything else, the title. */
  function ContentSourceNamed(option: string): ContentSource {
    if option == "excerpt" then ExcerptSource
    else if option == "content" then FullContentSource
    else TitleSource
  }

  const ExcerptWords: nat := 55
  const ContentWords: nat := 100

  /** The text chosen before tags are stripped. */
  function RawSource(post: Post, source: ContentSource, fmt: Formatting): string {
    match source
    case ExcerptSource =>
      if !IsPhpEmpty(post.excerpt) then post.excerpt else fmt.trimWords(post.content, ExcerptWords)
    case FullContentSource => fmt.trimWords(post.content, ContentWords)
    case TitleSource => post.title
  }

  /** The sanitized source content. */
  function SourceText(post: Post, source: ContentSource, fmt: Formatting): string {
    fmt.sanitizeTextField(fmt.stripAllTags(RawSource(post, source, fmt)))
  }

  // ---------------------------------------------------------------------
  // generate_visual_concept

  /** The concept text after post-processing: trimmed, stripped of leading
      and trailing quote runs, trimmed again. */
  function CleanConcept(text: string): (r: string)
    ensures |r| <= |text|
    ensures |r| > 0 ==> !IsTrimChar(r[0]) && !IsTrimChar(r[|r| - 1])
  {
    Trim(StripQuoteRuns(Trim(text)))
  }

  /** Whitespace around the answer and runs of quotes inside it are removed,
      and the text between them is kept as it is. */
  lemma CleanConceptStrips(ws1: string, q1: string, inner: string, q2: string, ws2: string)
    requires forall k :: 0 <= k < |ws1| ==> IsTrimChar(ws1[k])
    requires forall k :: 0 <= k < |ws2| ==> IsTrimChar(ws2[k])
    requires forall k :: 0 <= k < |q1| ==> IsQuote(q1[k])
    requires forall k :: 0 <= k < |q2| ==> IsQuote(q2[k])
    requires |inner| > 0
    requires !IsTrimChar(inner[0]) && !IsQuote(inner[0])
    requires !IsTrimChar(inner[|inner| - 1]) && !IsQuote(inner[|inner| - 1])
    ensures CleanConcept(ws1 + (q1 + inner + q2) + ws2) == inner
  {
    var quoted := q1 + inner + q2;
    QuotedEnds(q1, inner, q2);
    TrimAround(ws1, quoted, ws2);
    StripAround(q1, inner, q2);
    TrimAround([], inner, []);
    assert [] + inner + [] == inner;
  }

  /** A quoted answer starts and ends with a quote or with the answer's own
      non-blank characters. */
  lemma QuotedEnds(q1: string, inner: string, q2: string)
    requires forall k :: 0 <= k < |q1| ==> IsQuote(q1[k])
    requires forall k :: 0 <= k < |q2| ==> IsQuote(q2[k])
    requires |inner| > 0
    requires !IsTrimChar(inner[0]) && !IsTrimChar(inner[|inner| - 1])
    ensures var quoted := q1 + inner + q2;
      |quoted| > 0 && !IsTrimChar(quoted[0]) && !IsTrimChar(quoted[|quoted| - 1])
  {
    var quoted := q1 + inner + q2;
    if |q1| > 0 {
      assert quoted[0] == q1[0];
    } else {
      assert quoted[0] == inner[0];
    }
    if |q2| > 0 {
      assert quoted[|quoted| - 1] == q2[|q2| - 1];
    } else {
      assert quoted[|quoted| - 1] == inner[|inner| - 1];
    }
  }

  /** Trim removes exactly the surrounding whitespace. */
  lemma TrimAround(ws1: string, x: string, ws2: string)
    requires forall k :: 0 <= k < |ws1| ==> IsTrimChar(ws1[k])
    requires forall k :: 0 <= k < |ws2| ==> IsTrimChar(ws2[k])
    requires |x| > 0 && !IsTrimChar(x[0]) && !IsTrimChar(x[|x| - 1])
    ensures Trim(ws1 + x + ws2) == x
  {
    assert ws1 + x + ws2 == ws1 + (x + ws2);
    DropWhilePrefix(ws1, x + ws2, IsTrimChar);
    DropWhileEndSuffix(x, ws2, IsTrimChar);
  }

  /** The quote-stripping expression removes exactly the surrounding quotes. */
  lemma StripAround(q1: string, x: string, q2: string)
    requires forall k :: 0 <= k < |q1| ==> IsQuote(q1[k])
    requires forall k :: 0 <= k < |q2| ==> IsQuote(q2[k])
    requires |x| > 0 && !IsQuote(x[0]) && !IsQuote(x[|x| - 1])
    ensures StripQuoteRuns(q1 + x + q2) == x
  {
    assert q1 + x + q2 == q1 + (x + q2);
    DropWhilePrefix(q1, x + q2, IsQuote);
    DropWhileEndSuffix(x, q2, IsQuote);
  }

  /** generate_visual_concept(content) with the key `apiKey`; the text model
      answers the analysis request about `content` with `textModel(content)`.
      No retry is made. */
  function VisualConcept(apiKey: string, content: string, textModel: string -> HttpReply): (r: Result<string, Error>)
    ensures IsPhpEmpty(apiKey) ==> r == Err(NoApiKey)
    ensures r.Ok? ==> !IsPhpEmpty(apiKey) && var reply := textModel(content);
      reply.Reply? && reply.code == 200 && reply.body.parts.Some? && |reply.body.parts.value| > 0
      && reply.body.parts.value[0].text.Some?
      && r.value == CleanConcept(reply.body.parts.value[0].text.value)
  {
    if IsPhpEmpty(apiKey) then Err(NoApiKey)
    else
      match textModel(content)
      case TransportFailure(m) => Err(Transport(m))
      case Reply(code, body) =>
        if code != 200 then Err(ApiError(ErrorMessage(body) + " (HTTP " + Decimal(code) + ")"))
        else if body.parts.Some? && |body.parts.value| > 0 && body.parts.value[0].text.Some? then
          Ok(CleanConcept(body.parts.value[0].text.value))
        else Err(InvalidResponse)
  }

  /** The concept call fails with `api_error` on any reply but 200, with a
      message naming the status, and with `invalid_response` when a 200 reply
      has no text in its first part. */
  lemma VisualConceptErrors(apiKey: string, content: string, textModel: string -> HttpReply)
    requires !IsPhpEmpty(apiKey)
    ensures var reply := textModel(content);
      (reply.Reply? && reply.code != 200 ==>
        VisualConcept(apiKey, content, textModel)
          == Err(ApiError(ErrorMessage(reply.body) + " (HTTP " + Decimal(reply.code) + ")")))
      && (reply.Reply? && reply.code == 200 && (reply.body.parts.None? || reply.body.parts.value == []) ==>
        VisualConcept(apiKey, content, textModel) == Err(InvalidResponse))
      && (reply.TransportFailure? ==> VisualConcept(apiKey, content, textModel) == Err(Transport(reply.message)))
  {
  }

  // ---------------------------------------------------------------------
  // build_prompt

  /** The settings build_prompt reads: the `fih_content_source` option and
      the verdict of the `fih_use_semantic_transformation` filter. */
  datatype PromptSettings = PromptSettings(contentSource: string, semanticTransformation: bool)

  /** The text substituted for `{content}`: the visual concept, or the
      sanitized source content when the transformation is off or fails. */
  function Concept(post: Post, settings: PromptSettings, apiKey: string,
                   textModel: string -> HttpReply, fmt: Formatting): string
  {
    var content := SourceText(post, ContentSourceNamed(settings.contentSource), fmt);
    if settings.semanticTransformation then
      match VisualConcept(apiKey, content, textModel)
      case Ok(v) => v
      case Err(_) => content
    else content
  }

  /** FIH_Gemini::build_prompt: a non-empty custom prompt verbatim, otherwise
      the style's template with the concept in place of `{content}`. */
  function BuildPrompt(post: Post, style: string, customPrompt: string, settings: PromptSettings,
                       apiKey: string, textModel: string -> HttpReply, fmt: Formatting): (prompt: string)
    ensures !IsPhpEmpty(customPrompt) ==> prompt == customPrompt
    ensures IsPhpEmpty(customPrompt) ==>
      var t := TemplateFor(StyleNamed(style));
      prompt == t.head + Concept(post, settings, apiKey, textModel, fmt) + t.tail
  {
    if !IsPhpEmpty(customPrompt) then customPrompt
    else
      var t := TemplateFor(StyleNamed(style));
      var concept := Concept(post, settings, apiKey, textModel, fmt);
      TemplateWellFormed(StyleNamed(style));
      FillWellFormed(t, concept);
      Fill(t, concept)
  }

  /** A templated prompt carries its style's marker word, ends in the rules
      line, and leaves no placeholder behind unless the concept has a brace. */
  lemma PromptCarriesStyle(post: Post, style: string, settings: PromptSettings,
                           apiKey: string, textModel: string -> HttpReply, fmt: Formatting)
    ensures var p := BuildPrompt(post, style, "", settings, apiKey, textModel, fmt);
      Contains(p, Marker(StyleNamed(style)))
      && |p| >= |Rules| && p[|p| - |Rules|..] == Rules
      && ('{' !in Concept(post, settings, apiKey, textModel, fmt) ==> !Contains(p, Placeholder))
  {
    var s := StyleNamed(style);
    var c := Concept(post, settings, apiKey, textModel, fmt);
    var t := TemplateFor(s);
    TemplateWellFormed(s);
    TemplateShape(s);
    assert BuildPrompt(post, style, "", settings, apiKey, textModel, fmt) == t.head + c + t.tail;
    FilledCarries(t, c, Marker(s), Rules);
  }

  /** A filled well-formed template keeps a word of its head, ends in the
      rules line when its tail does, and has no placeholder left when the
      concept has no brace. */
  lemma FilledCarries(t: Template, c: string, marker: string, rules: string)
    requires t.WellFormed() && Contains(t.head, marker)
    requires |t.tail| >= |rules| && t.tail[|t.tail| - |rules|..] == rules
    ensures var p := t.head + c + t.tail;
      Contains(p, marker) && |p| >= |rules| && p[|p| - |rules|..] == rules
      && ('{' !in c ==> !Contains(p, Placeholder))
  {
    FillWellFormed(t, c);
    FillKeeps(t, c, marker);
    EndsWithTail(t.head + c, t.tail, |rules|);
    if '{' !in c {
      FillLeavesNoPlaceholder(t, c);
    }
  }

  lemma EndsWithTail(a: string, b: string, n: nat)
    requires n <= |b|
    ensures |a + b| >= n && (a + b)[|a + b| - n..] == b[|b| - n..]
  {
  }

  /** Without a usable concept (transformation off, or the concept call
      failed), the prompt embeds the sanitized source text. */
  lemma SourceTextWhenNoConcept(post: Post, style: string, settings: PromptSettings,
                                apiKey: string, textModel: string -> HttpReply, fmt: Formatting)
    requires !settings.semanticTransformation
      || VisualConcept(apiKey, SourceText(post, ContentSourceNamed(settings.contentSource), fmt), textModel).Err?
    ensures var p := BuildPrompt(post, style, "", settings, apiKey, textModel, fmt);
      var content := SourceText(post, ContentSourceNamed(settings.contentSource), fmt);
      var t := TemplateFor(StyleNamed(style));
      p == t.head + content + t.tail && Contains(p, content)
  {
    var t := TemplateFor(StyleNamed(style));
    var content := SourceText(post, ContentSourceNamed(settings.contentSource), fmt);
    assert Concept(post, settings, apiKey, textModel, fmt) == content;
    TemplateWellFormed(StyleNamed(style));
    FillKeeps(t, content, content);
    FillWellFormed(t, content);
  }

  /** With a concept, the prompt embeds the concept in place of the source. */
  lemma ConceptReplacesSource(post: Post, style: string, settings: PromptSettings,
                              apiKey: string, textModel: string -> HttpReply, fmt: Formatting)
    requires settings.semanticTransformation
    requires VisualConcept(apiKey, SourceText(post, ContentSourceNamed(settings.contentSource), fmt), textModel).Ok?
    ensures var t := TemplateFor(StyleNamed(style));
      BuildPrompt(post, style, "", settings, apiKey, textModel, fmt)
        == t.head
           + VisualConcept(apiKey, SourceText(post, ContentSourceNamed(settings.contentSource), fmt), textModel).value
           + t.tail
  {
  }
}
