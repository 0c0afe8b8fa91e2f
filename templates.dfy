/**
 * The `prompt_templates` of FIH_Gemini: four templates following the
 * SPLICE rubric (Style, Perspective, Lighting, Identity of the subject,
 * Context, Emotion), each with one `{content}` placeholder, and the
 * `str_replace` that fills it.
 */
module Templates {
  import opened Text

  datatype Style = Photographic | Illustration | Abstract | Minimal

  /** The key of each template in `prompt_templates`. */
  function StyleName(s: Style): string {
    match s
    case Photographic => "photographic"
    case Illustration => "illustration"
    case Abstract => "abstract"
    case Minimal => "minimal"
  }

  /** The template a style name selects: its own, or the photographic one
      for any name that is not a key (including "custom"). */
  function StyleNamed(name: string): (s: Style)
    ensures (exists t: Style :: StyleName(t) == name) ==> StyleName(s) == name
    ensures (forall t: Style :: StyleName(t) != name) ==> s == Photographic
  {
    if name == "illustration" then Illustration
    else if name == "abstract" then Abstract
    else if name == "minimal" then Minimal
    else Photographic
  }

  /** Each template is found again under its own name. */
  lemma StyleNamedInverse(s: Style)
    ensures StyleNamed(StyleName(s)) == s
  {
  }

  const Placeholder := "{content}"

  /** The word of the style line each template is recognised by. */
  function Marker(s: Style): string {
    match s
    case Photographic => "photorealistic"
    case Illustration => "illustration"
    case Abstract => "abstract"
    case Minimal => "minimalist"
  }

  // The SPLICE fields of each template (Style, Perspective, Lighting, the
  // words before the placeholder on the Subject line, Context, Emotion).
  // Long texts are written as several literals joined with `+`.

  function StyleLead(s: Style): string {
    match s
    case Photographic => "Professional "
    case Illustration => "Beautiful digital "
    case Abstract => "Modern "
    case Minimal => "Clean "
  }

  function StyleRest(s: Style): string {
    match s
    case Photographic => " photograph, " + "high-quality digital " + "photography"
    case Illustration => ", artistic rendering, " + "hand-drawn aesthetic"
    case Abstract => " art, bold geometric " + "or organic shapes"
    case Minimal => " design, simple " + "geometric forms"
  }

  function Perspective(s: Style): string {
    match s
    case Photographic => "Centered composition, " + "balanced framing, " + "professional " + "editorial layout"
    case Illustration => "Dynamic composition " + "with interesting " + "angles and visual flow"
    case Abstract => "Dynamic composition " + "with visual movement " + "and balance"
    case Minimal => "Symmetrical or " + "intentionally " + "asymmetric " + "composition, plenty " + "of negative space"
  }

  function Lighting(s: Style): string {
    match s
    case Photographic => "Natural, well-lit, " + "soft professional " + "lighting with good " + "contrast and depth"
    case Illustration => "Vibrant, colorful " + "lighting with " + "artistic highlights " + "and shadows"
    case Abstract => "Dramatic lighting " + "with strong contrast, " + "bold color " + "relationships"
    case Minimal => "Soft, even lighting " + "with subtle " + "gradients, clean and " + "bright"
  }

  function SubjectLead(s: Style): string {
    match s
    case Photographic => ""
    case Illustration => ""
    case Abstract => "Abstract visual " + "representation of "
    case Minimal => "Minimalist " + "representation of "
  }

  function Context(s: Style): string {
    match s
    case Photographic => "Modern, professional " + "setting with clean " + "background, sharp " + "focus on main subject"
    case Illustration => "Rich visual details, " + "artistic " + "interpretation, " + "creative elements"
    case Abstract => "Contemporary art " + "style, sophisticated " + "color palette, " + "artistic " + "interpretation"
    case Minimal => "Simple, elegant, " + "uncluttered visual " + "with essential " + "elements only"
  }

  function Emotion(s: Style): string {
    match s
    case Photographic => "Authoritative, " + "trustworthy, clear " + "and informative"
    case Illustration => "Engaging, creative, " + "visually appealing " + "and memorable"
    case Abstract => "Thought-provoking, " + "energetic, conceptual " + "and expressive"
    case Minimal => "Calm, sophisticated, " + "clear and purposeful"
  }

  const Rules := "Rules: No text, " + "no words, no letters, " + "no captions"

  // ---------------------------------------------------------------------
  // templates as text around one placeholder

  /** A template string, held as the text before and after `{content}`. */
  datatype Template = Template(head: string, tail: string) {
    /** The template string itself. */
    function Text(): string {
      head + Placeholder + tail
    }

    /** No brace outside the placeholder. */
    predicate WellFormed() {
      '{' !in head && '{' !in tail
    }
  }

  /** `str_replace('{content}', concept, template)`. */
  function Fill(t: Template, concept: string): string {
    ReplaceAll(t.Text(), Placeholder, concept)
  }

  /** In a well-formed template the placeholder occurs once, after the head. */
  lemma PlaceholderOnce(t: Template)
    requires t.WellFormed()
    ensures OccursAt(t.Text(), Placeholder, |t.head|)
    ensures forall i :: OccursAt(t.Text(), Placeholder, i) ==> i == |t.head|
  {
    var x := t.Text();
    assert x[|t.head|..|t.head| + |Placeholder|] == Placeholder;
    forall i | 0 <= i <= |x| - |Placeholder| && i != |t.head|
      ensures !OccursAt(x, Placeholder, i)
    {
      if i < |t.head| {
        assert x[i] == t.head[i];
        assert t.head[i] in t.head;
      } else if i < |t.head| + |Placeholder| {
        assert x[i] == Placeholder[i - |t.head|];
      } else {
        assert x[i] == t.tail[i - |t.head| - |Placeholder|];
        assert t.tail[i - |t.head| - |Placeholder|] in t.tail;
      }
      assert x[i..i + |Placeholder|][0] == x[i];
    }
  }

  /** Filling a well-formed template puts the concept between head and tail. */
  lemma FillWellFormed(t: Template, concept: string)
    requires t.WellFormed()
    ensures Fill(t, concept) == t.head + concept + t.tail
  {
    ReplaceSinglePlaceholder(t.head, Placeholder, t.tail, concept);
  }

  /** The filled template holds the concept, and everything the head and
      the tail hold. */
  lemma FillKeeps(t: Template, concept: string, w: string)
    requires t.WellFormed()
    ensures Contains(Fill(t, concept), concept)
    ensures Contains(t.head, w) || Contains(t.tail, w) ==> Contains(Fill(t, concept), w)
  {
    FillWellFormed(t, concept);
    assert Contains(concept, concept);
    ContainsPrepend(t.head, concept, concept);
    ContainsAppend(t.head + concept, t.tail, concept);
    if Contains(t.head, w) {
      ContainsAppend(t.head, concept + t.tail, w);
      assert t.head + (concept + t.tail) == t.head + concept + t.tail;
    } else if Contains(t.tail, w) {
      ContainsPrepend(t.head + concept, t.tail, w);
    }
  }

  /** No placeholder is left once a brace-free concept is filled in. */
  lemma FillLeavesNoPlaceholder(t: Template, concept: string)
    requires t.WellFormed() && '{' !in concept
    ensures !Contains(Fill(t, concept), Placeholder)
  {
    FillWellFormed(t, concept);
    MissingFirstChar(Fill(t, concept), Placeholder);
  }

  // ---------------------------------------------------------------------
  // the four templates

  /** The part of the head after the marker word. */
  function AfterMarker(s: Style): string {
    StyleRest(s)
    + "\nPerspective: " + Perspective(s)
    + "\nLighting: " + Lighting(s)
    + "\nSubject: " + SubjectLead(s)
  }

  /** The part of the tail before the rules line. */
  function BeforeRules(s: Style): string {
    "\nContext: " + Context(s) + "\nEmotion: " + Emotion(s) + "\n\n"
  }

  /** `prompt_templates[s]`. */
  function TemplateFor(s: Style): Template {
    Template("Style: " + StyleLead(s) + Marker(s) + AfterMarker(s), BeforeRules(s) + Rules)
  }

  /** Each template is well formed. */
  lemma TemplateWellFormed(s: Style)
    ensures TemplateFor(s).WellFormed()
  {
    match s
    case Photographic => TemplateOfPhotographicWellFormed();
    case Illustration => TemplateOfIllustrationWellFormed();
    case Abstract => TemplateOfAbstractWellFormed();
    case Minimal => TemplateOfMinimalWellFormed();
  }

  /** Each template names its style on the style line and ends with the
      rules line. */
  lemma TemplateShape(s: Style)
    ensures Contains(TemplateFor(s).head, Marker(s))
    ensures |TemplateFor(s).tail| >= |Rules|
    ensures TemplateFor(s).tail[|TemplateFor(s).tail| - |Rules|..] == Rules
  {
    ContainsInfix("Style: " + StyleLead(s), Marker(s), AfterMarker(s));
    var t := BeforeRules(s) + Rules;
    assert t[|t| - |Rules|..] == Rules;
  }

  // Brace-freedom of the template text, piece by piece.

  lemma MarkerLacksBrace(s: Style)
    ensures '{' !in Marker(s)
  {
  }

  lemma RulesLacksBrace()
    ensures '{' !in Rules
  {
    assert '{' !in "Rules: No text, " && '{' !in "no words, no letters, " && '{' !in "no captions";
  }

  lemma StyleLeadLacksBrace(s: Style)
    ensures '{' !in StyleLead(s)
  {
    match s
    case Photographic =>
      assert '{' !in "Professional ";
    case Illustration =>
      assert '{' !in "Beautiful digital ";
    case Abstract =>
      assert '{' !in "Modern ";
    case Minimal =>
      assert '{' !in "Clean ";
  }

  lemma SubjectLeadLacksBrace(s: Style)
    ensures '{' !in SubjectLead(s)
  {
    match s
    case Photographic =>
    case Illustration =>
    case Abstract =>
      assert '{' !in "Abstract visual " && '{' !in "representation of ";
    case Minimal =>
      assert '{' !in "Minimalist " && '{' !in "representation of ";
  }

  lemma StyleRestOfPhotographicLacksBrace()
    ensures '{' !in StyleRest(Photographic)
  {
    assert '{' !in " photograph, " && '{' !in "high-quality digital " && '{' !in "photography";
  }

  lemma StyleRestOfIllustrationLacksBrace()
    ensures '{' !in StyleRest(Illustration)
  {
    assert '{' !in ", artistic rendering, " && '{' !in "hand-drawn aesthetic";
  }

  lemma StyleRestOfAbstractLacksBrace()
    ensures '{' !in StyleRest(Abstract)
  {
    assert '{' !in " art, bold geometric " && '{' !in "or organic shapes";
  }

  lemma StyleRestOfMinimalLacksBrace()
    ensures '{' !in StyleRest(Minimal)
  {
    assert '{' !in " design, simple " && '{' !in "geometric forms";
  }

  lemma PerspectiveOfPhotographicLacksBrace()
    ensures '{' !in Perspective(Photographic)
  {
    assert '{' !in "Centered composition, " && '{' !in "balanced framing, " && '{' !in "professional " && '{' !in "editorial layout";
  }

  lemma PerspectiveOfIllustrationLacksBrace()
    ensures '{' !in Perspective(Illustration)
  {
    assert '{' !in "Dynamic composition " && '{' !in "with interesting " && '{' !in "angles and visual flow";
  }

  lemma PerspectiveOfAbstractLacksBrace()
    ensures '{' !in Perspective(Abstract)
  {
    assert '{' !in "Dynamic composition " && '{' !in "with visual movement " && '{' !in "and balance";
  }

  lemma PerspectiveOfMinimalLacksBrace()
    ensures '{' !in Perspective(Minimal)
  {
    assert '{' !in "Symmetrical or " && '{' !in "intentionally " && '{' !in "asymmetric " && '{' !in "composition, plenty " && '{' !in "of negative space";
  }

  lemma LightingOfPhotographicLacksBrace()
    ensures '{' !in Lighting(Photographic)
  {
    assert '{' !in "Natural, well-lit, " && '{' !in "soft professional " && '{' !in "lighting with good " && '{' !in "contrast and depth";
  }

  lemma LightingOfIllustrationLacksBrace()
    ensures '{' !in Lighting(Illustration)
  {
    assert '{' !in "Vibrant, colorful " && '{' !in "lighting with " && '{' !in "artistic highlights " && '{' !in "and shadows";
  }

  lemma LightingOfAbstractLacksBrace()
    ensures '{' !in Lighting(Abstract)
  {
    assert '{' !in "Dramatic lighting " && '{' !in "with strong contrast, " && '{' !in "bold color " && '{' !in "relationships";
  }

  lemma LightingOfMinimalLacksBrace()
    ensures '{' !in Lighting(Minimal)
  {
    assert '{' !in "Soft, even lighting " && '{' !in "with subtle " && '{' !in "gradients, clean and " && '{' !in "bright";
  }

  lemma ContextOfPhotographicLacksBrace()
    ensures '{' !in Context(Photographic)
  {
    assert '{' !in "Modern, professional " && '{' !in "setting with clean " && '{' !in "background, sharp " && '{' !in "focus on main subject";
  }

  lemma ContextOfIllustrationLacksBrace()
    ensures '{' !in Context(Illustration)
  {
    assert '{' !in "Rich visual details, " && '{' !in "artistic " && '{' !in "interpretation, " && '{' !in "creative elements";
  }

  lemma ContextOfAbstractLacksBrace()
    ensures '{' !in Context(Abstract)
  {
    assert '{' !in "Contemporary art " && '{' !in "style, sophisticated " && '{' !in "color palette, " && '{' !in "artistic " && '{' !in "interpretation";
  }

  lemma ContextOfMinimalLacksBrace()
    ensures '{' !in Context(Minimal)
  {
    assert '{' !in "Simple, elegant, " && '{' !in "uncluttered visual " && '{' !in "with essential " && '{' !in "elements only";
  }

  lemma EmotionOfPhotographicLacksBrace()
    ensures '{' !in Emotion(Photographic)
  {
    assert '{' !in "Authoritative, " && '{' !in "trustworthy, clear " && '{' !in "and informative";
  }

  lemma EmotionOfIllustrationLacksBrace()
    ensures '{' !in Emotion(Illustration)
  {
    assert '{' !in "Engaging, creative, " && '{' !in "visually appealing " && '{' !in "and memorable";
  }

  lemma EmotionOfAbstractLacksBrace()
    ensures '{' !in Emotion(Abstract)
  {
    assert '{' !in "Thought-provoking, " && '{' !in "energetic, conceptual " && '{' !in "and expressive";
  }

  lemma EmotionOfMinimalLacksBrace()
    ensures '{' !in Emotion(Minimal)
  {
    assert '{' !in "Calm, sophisticated, " && '{' !in "clear and purposeful";
  }

  lemma TemplateOfPhotographicWellFormed()
    ensures TemplateFor(Photographic).WellFormed()
  {
    StyleLeadLacksBrace(Photographic);
    MarkerLacksBrace(Photographic);
    SubjectLeadLacksBrace(Photographic);
    RulesLacksBrace();
    StyleRestOfPhotographicLacksBrace();
    PerspectiveOfPhotographicLacksBrace();
    LightingOfPhotographicLacksBrace();
    ContextOfPhotographicLacksBrace();
    EmotionOfPhotographicLacksBrace();
    assert '{' !in "Style: " && '{' !in "\nPerspective: " && '{' !in "\nLighting: " && '{' !in "\nSubject: ";
    assert '{' !in "\nContext: " && '{' !in "\nEmotion: " && '{' !in "\n\n";
  }

  lemma TemplateOfIllustrationWellFormed()
    ensures TemplateFor(Illustration).WellFormed()
  {
    StyleLeadLacksBrace(Illustration);
    MarkerLacksBrace(Illustration);
    SubjectLeadLacksBrace(Illustration);
    RulesLacksBrace();
    StyleRestOfIllustrationLacksBrace();
    PerspectiveOfIllustrationLacksBrace();
    LightingOfIllustrationLacksBrace();
    ContextOfIllustrationLacksBrace();
    EmotionOfIllustrationLacksBrace();
    assert '{' !in "Style: " && '{' !in "\nPerspective: " && '{' !in "\nLighting: " && '{' !in "\nSubject: ";
    assert '{' !in "\nContext: " && '{' !in "\nEmotion: " && '{' !in "\n\n";
  }

  lemma TemplateOfAbstractWellFormed()
    ensures TemplateFor(Abstract).WellFormed()
  {
    StyleLeadLacksBrace(Abstract);
    MarkerLacksBrace(Abstract);
    SubjectLeadLacksBrace(Abstract);
    RulesLacksBrace();
    StyleRestOfAbstractLacksBrace();
    PerspectiveOfAbstractLacksBrace();
    LightingOfAbstractLacksBrace();
    ContextOfAbstractLacksBrace();
    EmotionOfAbstractLacksBrace();
    assert '{' !in "Style: " && '{' !in "\nPerspective: " && '{' !in "\nLighting: " && '{' !in "\nSubject: ";
    assert '{' !in "\nContext: " && '{' !in "\nEmotion: " && '{' !in "\n\n";
  }

  lemma TemplateOfMinimalWellFormed()
    ensures TemplateFor(Minimal).WellFormed()
  {
    StyleLeadLacksBrace(Minimal);
    MarkerLacksBrace(Minimal);
    SubjectLeadLacksBrace(Minimal);
    RulesLacksBrace();
    StyleRestOfMinimalLacksBrace();
    PerspectiveOfMinimalLacksBrace();
    LightingOfMinimalLacksBrace();
    ContextOfMinimalLacksBrace();
    EmotionOfMinimalLacksBrace();
    assert '{' !in "Style: " && '{' !in "\nPerspective: " && '{' !in "\nLighting: " && '{' !in "\nSubject: ";
    assert '{' !in "\nContext: " && '{' !in "\nEmotion: " && '{' !in "\n\n";
  }
}
