/**
 * The parts of WordPress the generation pipeline reads or calls but does not
 * define: the post record and the formatting functions of WordPress core,
 * which are passed in as parameters because their bodies are not modelled.
 */
module WordPress {

  /** The fields of a `WP_Post` the plugin reads. */
  datatype Post = Post(
    id: nat,
    title: string,
    excerpt: string,
    content: string,
    name: string,
    postType: string,
    status: string)

  /** `wp_strip_all_tags`, `sanitize_text_field`,
      `sanitize_textarea_field`, `wp_trim_words` and `sanitize_file_name`. */
  datatype Formatting = Formatting(
    stripAllTags: string -> string,
    sanitizeTextField: string -> string,
    sanitizeTextarea: string -> string,
    trimWords: (string, nat) -> string,
    sanitizeFileName: string -> string)

  /** `absint`: the absolute value of the integer. */
  function Absint(x: int): nat {
    if x < 0 then -x else x
  }
}
