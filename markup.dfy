/** The parsed markup tree that the parser walks, and the emphasis glyphs of
    the two output formats. */
module Markup {

  /** The `output_format` configuration value. Any value other than
      "markdown" and "html" selects none of the emphasis branches. */
  datatype OutputFormat = Markdown | Html | Unrecognized

  /** A markup node: an element with its tag name, its class tokens (empty
      when it has no class attribute) and its children, or a text node. */
  datatype Node = Element(name: string, classes: seq<string>, children: seq<Node>) | Text(content: string)

  /** The loop over a class list in `find_class` (parse.py:117-124). */
  function HasClass(classes: seq<string>, className: string): (r: bool)
    ensures r <==> className in classes
  {
    if classes == [] then false
    else if classes[0] == className then true
    else HasClass(classes[1..], className)
  }

  /** `find_class`: the node is an element whose class list holds the name. */
  function FindClass(tag: Node, className: string): (r: bool)
    ensures r <==> tag.Element? && className in tag.classes
  {
    tag.Element? && HasClass(tag.classes, className)
  }

  /** bs4's `tag.text`: every text node below `n`, in document order. */
  function TextContent(n: Node): string
  {
    match n
    case Text(s) => s
    case Element(_, _, cs) => TextOfAll(cs)
  }

  function TextOfAll(cs: seq<Node>): string
  {
    if cs == [] then "" else TextContent(cs[0]) + TextOfAll(cs[1..])
  }

  /** Bold wrapping: `**t**` in markdown, `<b>t</b>` in html. */
  function Bold(fmt: OutputFormat, t: string): string
  {
    match fmt
    case Markdown => "**" + t + "**"
    case Html => "<b>" + t + "</b>"
    case Unrecognized => ""
  }

  /** Italic wrapping: `__t__` in markdown, `<i>t</i>` in html. */
  function Italic(fmt: OutputFormat, t: string): string
  {
    match fmt
    case Markdown => "__" + t + "__"
    case Html => "<i>" + t + "</i>"
    case Unrecognized => ""
  }

  /** The rendering of a small-caps span, whatever its content. */
  function Lord(fmt: OutputFormat): string
  {
    Bold(fmt, "LORD")
  }
}
