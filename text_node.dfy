/** The inline text node of the converter: a piece of text with a formatting role. */
module TextNodes {
  import opened Wrappers

  /** The inline formatting roles. `Normal` is the one the tests use that the
      HTML conversion has no arm for. */
  datatype TextType = Text | Bold | Italic | Code | Link | Image | Normal

  /** `TextNode(text, text_type, url=None)`. Equality is structural over all three fields,
      which a datatype gives for free. */
  datatype TextNode = TextNode(text: string, textType: TextType, url: Option<string> := None)
}
