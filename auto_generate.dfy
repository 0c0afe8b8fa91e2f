/**
 * The admin's automatic enqueueing: which WordPress hook the plugin listens
 * to, and when a hooked post goes into the queue and at what priority.
 * Each handler is a chain of early returns whose only effect is one
 * `add_to_queue` call, so each is a function giving that call's priority,
 * or None when the handler returns first.
 */
module AutoGenerate {
  import opened Wrappers
  import opened WordPress
  import Queue

  /** The two actions a handler can be attached to. */
  datatype Hook = PublishPost | SavePost

  /** Priority of items enqueued when a post is published. */
  const PublishPriority: nat := 10
  /** Priority of items enqueued when a published post is saved. */
  const UpdatePriority: nat := 5

  /** The `fih_auto_generate_trigger` option, `manual` when unset. */
  function Trigger(option: Option<string>): string {
    option.GetOr("manual")
  }

  /** setup_auto_generation: the hook the handler goes on, if any. */
  function SetupAutoGeneration(enabled: bool, triggerOption: Option<string>): (h: Option<Hook>)
    ensures h == Some(PublishPost) <==> enabled && Trigger(triggerOption) == "publish"
    ensures h == Some(SavePost) <==> enabled && Trigger(triggerOption) == "update"
  {
    if !enabled then None
    else if Trigger(triggerOption) == "publish" then Some(PublishPost)
    else if Trigger(triggerOption) == "update" then Some(SavePost)
    else None
  }

  /** Unset, `manual` or anything else registers nothing; so does turning
      the feature off. */
  lemma NoHookUnlessAsked(enabled: bool, triggerOption: Option<string>)
    ensures SetupAutoGeneration(enabled, triggerOption).None? <==>
      !enabled || Trigger(triggerOption) !in {"publish", "update"}
    ensures SetupAutoGeneration(enabled, None).None?
  {
  }

  /** The `fih_enabled_post_types` option, `['post']` when unset. */
  function EnabledPostTypes(option: Option<seq<string>>): seq<string> {
    option.GetOr(["post"])
  }

  /** auto_generate_on_publish: the priority of the item it enqueues. */
  function OnPublish(post: Post, enabledOption: Option<seq<string>>, hasThumbnail: bool): (p: Option<nat>)
    ensures p.Some? ==> p.value == PublishPriority
    ensures p.Some? <==> post.postType in EnabledPostTypes(enabledOption) && !hasThumbnail
  {
    if post.postType !in EnabledPostTypes(enabledOption) then None
    else if hasThumbnail then None
    else Some(PublishPriority)
  }

  /** auto_generate_on_save: the priority of the item it enqueues. */
  function OnSave(doingAutosave: bool, post: Post, enabledOption: Option<seq<string>>, hasThumbnail: bool)
    : (p: Option<nat>)
    ensures p.Some? ==> p.value == UpdatePriority
    ensures p.Some? <==>
      !doingAutosave && post.postType in EnabledPostTypes(enabledOption)
      && post.status == "publish" && !hasThumbnail
  {
    if doingAutosave then None
    else if post.postType !in EnabledPostTypes(enabledOption) then None
    else if post.status != "publish" then None
    else if hasThumbnail then None
    else Some(UpdatePriority)
  }

  /** A WordPress action firing for a post. WordPress fires `publish_post`
      only for posts of type `post`, so a PublishPost event for a page never
      occurs; the model accepts one and decides it by the same rules. */
  datatype Event = Event(hook: Hook, doingAutosave: bool, post: Post, hasThumbnail: bool)

  /** What one action does given the plugin's options: the priority at which
      the post is enqueued, if it is. */
  function AutoEnqueue(enabled: bool, triggerOption: Option<string>, enabledOption: Option<seq<string>>, e: Event)
    : Option<nat>
  {
    if SetupAutoGeneration(enabled, triggerOption) != Some(e.hook) then None
    else match e.hook
      case PublishPost => OnPublish(e.post, enabledOption, e.hasThumbnail)
      case SavePost => OnSave(e.doingAutosave, e.post, enabledOption, e.hasThumbnail)
  }

  /** An action enqueues only through the handler the trigger chose, never
      for a post that already has a featured image, never for a disabled
      post type, and with the priority that handler stands for. */
  lemma AutoEnqueueRules(enabled: bool, triggerOption: Option<string>, enabledOption: Option<seq<string>>, e: Event)
    ensures var p := AutoEnqueue(enabled, triggerOption, enabledOption, e);
      p.Some? ==>
        enabled && !e.hasThumbnail && e.post.postType in EnabledPostTypes(enabledOption)
        && (e.hook == PublishPost ==> Trigger(triggerOption) == "publish" && p.value == PublishPriority)
        && (e.hook == SavePost ==> Trigger(triggerOption) == "update" && p.value == UpdatePriority
                                   && !e.doingAutosave && e.post.status == "publish")
  {
  }

  /** With the default options, an action never enqueues anything. */
  lemma DefaultsNeverEnqueue(enabledOption: Option<seq<string>>, e: Event)
    ensures AutoEnqueue(true, None, enabledOption, e).None?
    ensures AutoEnqueue(false, Some("publish"), enabledOption, e).None?
  {
  }

  /** With the default post types only posts qualify: a page never does. */
  lemma PagesNotByDefault(triggerOption: Option<string>, e: Event)
    requires e.post.postType == "page"
    ensures AutoEnqueue(true, triggerOption, None, e).None?
  {
    assert e.post.postType !in ["post"];
  }

  /** Items enqueued on publish go out before those enqueued on update: a
      batch that takes an update item takes every pending publish item. */
  lemma PublishedFirst(items: seq<Queue.Item>, batchSize: int, published: Queue.Item, updated: Queue.Item)
    requires published in items && published.status == Queue.Pending && published.priority == PublishPriority
    requires updated in Queue.Select(items, batchSize) && updated.priority == UpdatePriority
    ensures published in Queue.Select(items, batchSize)
  {
    Queue.HigherPriorityFirst(items, batchSize, published, updated);
  }
}
