/**
 * The shape in which the XML tokenizer hands one `<result>` element to the
 * parser. JavaScript "absent" or "undefined" string fields are the empty
 * string here; a JavaScript string is truthy exactly when it is non-empty.
 */
module XmlRecords {

  import opened Wrappers

  /**
   * A `<literal>` child of a binding. Without attributes the tokenizer
   * collapses it to its text (`Text`); with attributes it is a record whose
   * `$` holds the attributes and whose `$text` holds the text (`Element`).
   * `lang` is the `xml:lang` attribute and `datatypeIri` the `datatype`
   * attribute, each "" when absent.
   */
  datatype RawLiteral =
    | Text(text: string)
    | Element(lang: string, datatypeIri: string, text: string)

  /**
   * One `<binding>` child of a result: its `name` attribute and the text of
   * its `bnode`, `literal` and `uri` children ("" / None when absent).
   */
  datatype RawBinding = RawBinding(name: string, bnode: string, literal: Option<RawLiteral>, uri: string)

  /** One `<result>` element, with its `binding` children collected in document order. */
  datatype RawResult = RawResult(binding: seq<RawBinding>)

  /**
   * JavaScript truthiness of the `literal` field: a record is always truthy,
   * a collapsed text only when it is non-empty.
   */
  predicate LiteralPresent(literal: Option<RawLiteral>)
    ensures LiteralPresent(literal) <==> literal.Some? && literal.value != Text("")
  {
    match literal
    case None => false
    case Some(Text(s)) => s != ""
    case Some(Element(_, _, _)) => true
  }
}
