/**
 * The slice of the Markdown tree that the changelog logic inspects: top-level
 * blocks of a parsed document, and the mutable `Document` wrapper.
 */
module Markdown {
  import opened Results

  /**
   * A top-level block. A heading keeps its level and the rendered text of its
   * first inline child, which is absent for an empty heading such as `## `.
   * A list keeps the rendered content of each of its items.
   */
  datatype Block =
    | Heading(level: nat, title: Option<string>)
    | BlankLine
    | Html(html: string)
    | ListBlock(items: seq<string>)
    | Paragraph(text: string)

  /** `new_heading`: the heading that `"#" * level + " " + text` parses to. */
  function NewHeading(text: string, level: nat): (h: Block)
    ensures h.Heading? && h.level == level
    ensures h.title.None? <==> text == ""
    ensures h.title.Some? ==> h.title.value == text
  {
    Heading(level, if text == "" then None else Some(text))
  }

  /** A parsed Markdown document whose top-level blocks are updated in place. */
  class Document {
    var children: seq<Block>

    /** `Document.empty`. */
    constructor Empty()
      ensures children == []
    {
      children := [];
    }

    /** `add_child`. */
    method AddChild(child: Block)
      modifies this
      ensures children == old(children) + [child]
    {
      children := children + [child];
    }

    /** `add_children`. */
    method AddChildren(more: seq<Block>)
      modifies this
      ensures children == old(children) + more
    {
      children := children + more;
    }
  }
}
