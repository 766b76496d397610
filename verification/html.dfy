/** The events `html.parser.HTMLParser` delivers to its handlers. Tokenisation is not modelled:
    a page is the sequence of events the tokeniser produced for it, with tag and attribute
    names already lower-cased. */
module Html {
  import opened Options

  /** One attribute of a start tag; `value` is `None` for a bare attribute such as `<a href>`. */
  datatype Attr = Attr(name: string, value: Option<string>)

  /** `handle_starttag(tag, attrs)`, `handle_endtag(tag)` and `handle_data(data)`. */
  datatype Event =
    | StartTag(tag: string, attrs: seq<Attr>)
    | EndTag(tag: string)
    | Data(text: string)
}
