/**
 * The result-row conversion of a parser for the SPARQL Query Results XML
 * Format (section 2.3.1 "Variable Binding Results" and section 2.3.2
 * "Boolean Results" of the W3C Recommendation): one tokenised `<result>`
 * element becomes a map from display key to RDF term, and the text of a
 * `<boolean>` element becomes the answer of an ASK query.
 */
module SparqlXml {

  import opened Wrappers
  import opened RdfTerms
  import opened XmlRecords

  // ---------------------------------------------------------------------------
  // Configuration
  // ---------------------------------------------------------------------------

  /** The constructor's settings object; the term factory is not modelled. */
  datatype Settings = Settings(prefixVariableQuestionMark: Option<bool>)

  /** A parser holds only readonly configuration, fixed at construction. */
  datatype Parser = Parser(prefixVariableQuestionMark: bool)

  /**
   * The constructor: absent settings count as an empty settings object, and
   * the question-mark option is normalised to a boolean that is true only
   * when the option is given and true.
   */
  function NewParser(settings: Option<Settings>): (p: Parser)
    ensures p.prefixVariableQuestionMark <==> settings == Some(Settings(Some(true)))
  {
    var s := if settings.Some? then settings.value else Settings(None);
    Parser(s.prefixVariableQuestionMark == Some(true))
  }

  lemma NewParserDefaults()
    ensures !NewParser(None).prefixVariableQuestionMark
    ensures !NewParser(Some(Settings(None))).prefixVariableQuestionMark
    ensures !NewParser(Some(Settings(Some(false)))).prefixVariableQuestionMark
    ensures NewParser(Some(Settings(Some(true)))).prefixVariableQuestionMark
  {
  }

  // ---------------------------------------------------------------------------
  // Display keys
  // ---------------------------------------------------------------------------

  /** The key under which a variable's term is stored. */
  function DisplayKey(name: string, prefix: bool): (key: string)
    ensures prefix ==> |key| == |name| + 1 && key[0] == '?' && key[1..] == name
    ensures !prefix ==> key == name
  {
    if prefix then "?" + name else name
  }

  /** Under one setting of the flag, distinct names never share a key. */
  lemma DisplayKeyInjective(a: string, b: string, prefix: bool)
    ensures DisplayKey(a, prefix) == DisplayKey(b, prefix) <==> a == b
  {
  }

  // ---------------------------------------------------------------------------
  // Term choice for one binding
  // ---------------------------------------------------------------------------

  /**
   * The term of a present `<literal>`: a language tag wins over a datatype,
   * a datatype wins over nothing, and a collapsed text is a plain literal.
   */
  function LiteralTerm(literal: RawLiteral): (t: Term)
    ensures t.Literal? && t.lexical == literal.text
    ensures t.annotation.Language? <==> literal.Element? && literal.lang != ""
    ensures t.annotation.Language? ==> t.annotation.tag == literal.lang
    ensures t.annotation.Datatype? <==> literal.Element? && literal.lang == "" && literal.datatypeIri != ""
    ensures t.annotation.Datatype? ==> t.annotation.iri == literal.datatypeIri
  {
    match literal
    case Element(lang, datatypeIri, text) =>
      if lang != "" then Literal(text, Language(lang))
      else if datatypeIri != "" then Literal(text, Datatype(datatypeIri))
      else Literal(text, Plain)
    case Text(text) => Literal(text, Plain)
  }

  /**
   * The term a binding denotes: a non-empty `bnode` gives a blank node;
   * otherwise a `literal` child gives a literal; otherwise the `uri` gives a
   * named node. A `literal` child counts whatever its text, including an
   * empty one (the corrected presence test, see `ChooseTermAsWritten`).
   */
  function ChooseTerm(binding: RawBinding): (t: Term)
    ensures t.BlankNode? <==> binding.bnode != ""
    ensures t.Literal? <==> binding.bnode == "" && binding.literal.Some?
    ensures t.BlankNode? ==> t.id == binding.bnode
    ensures t.Literal? ==> t == LiteralTerm(binding.literal.value)
    ensures t.NamedNode? ==> t.iri == binding.uri
  {
    if binding.bnode != "" then BlankNode(binding.bnode)
    else if binding.literal.Some? then LiteralTerm(binding.literal.value)
    else NamedNode(binding.uri)
  }

  /**
   * The term choice with the presence test as the source writes it: the
   * `literal` field is tested for JavaScript truthiness, so a literal that
   * the tokenizer collapsed to the empty string counts as absent.
   */
  function ChooseTermAsWritten(binding: RawBinding): (t: Term)
    ensures t.Literal? <==> binding.bnode == "" && LiteralPresent(binding.literal)
    ensures t == ChooseTerm(binding)
         || (binding.bnode == "" && binding.literal == Some(Text("")) && t == NamedNode(binding.uri))
  {
    if binding.bnode != "" then BlankNode(binding.bnode)
    else if LiteralPresent(binding.literal) then LiteralTerm(binding.literal.value)
    else NamedNode(binding.uri)
  }

  /** As written, an empty `<literal></literal>` becomes the named node of `uri`. */
  lemma EmptyLiteralReadAsAbsent(name: string, uri: string)
    ensures ChooseTermAsWritten(RawBinding(name, "", Some(Text("")), uri)) == NamedNode(uri)
    ensures ChooseTermAsWritten(RawBinding(name, "", Some(Text("")), uri)) != Literal("", Plain)
  {
  }

  /** Corrected, an empty `<literal></literal>` is the empty plain literal. */
  lemma EmptyLiteralIsEmptyPlainLiteral(name: string, uri: string)
    ensures ChooseTerm(RawBinding(name, "", Some(Text("")), uri)) == Literal("", Plain)
  {
  }

  /** A non-empty `bnode` decides the term whatever the other children hold. */
  lemma BlankNodeWins(name: string, id: string, literal: Option<RawLiteral>, uri: string)
    requires id != ""
    ensures ChooseTerm(RawBinding(name, id, literal, uri)) == BlankNode(id)
  {
  }

  /** A literal with a language tag is language-tagged even when it also has a datatype. */
  lemma LanguageWins(name: string, lang: string, datatypeIri: string, text: string, uri: string)
    requires lang != ""
    ensures ChooseTerm(RawBinding(name, "", Some(Element(lang, datatypeIri, text)), uri)) == Literal(text, Language(lang))
  {
  }

  /** Neither a blank node nor a literal: the term is the named node of `uri`. */
  lemma NamedNodeFallback(binding: RawBinding)
    requires binding.bnode == "" && binding.literal.None?
    ensures ChooseTerm(binding) == NamedNode(binding.uri)
  {
  }

  /**
   * How a term is written as the children of a `<binding>`: a named node as
   * `<uri>`, a blank node as `<bnode>`, a plain literal as an attribute-free
   * `<literal>`, an annotated literal as a `<literal>` with its `xml:lang` or
   * `datatype` attribute.
   */
  function EncodeBinding(name: string, t: Term): (b: RawBinding)
    ensures b.name == name
    ensures b.bnode != "" <==> t.BlankNode? && t.id != ""
    ensures b.literal.Some? <==> t.Literal?
  {
    match t
    case NamedNode(iri) => RawBinding(name, "", None, iri)
    case BlankNode(id) => RawBinding(name, id, None, "")
    case Literal(lexical, Plain) => RawBinding(name, "", Some(Text(lexical)), "")
    case Literal(lexical, Language(tag)) => RawBinding(name, "", Some(Element(tag, "", lexical)), "")
    case Literal(lexical, Datatype(iri)) => RawBinding(name, "", Some(Element("", iri, lexical)), "")
  }

  /**
   * The terms whose identifying string is not one the parser reads as
   * absent: an empty blank node id, language tag or datatype IRI is falsy
   * in the source.
   */
  predicate Recoverable(t: Term)
  {
    match t
    case NamedNode(_) => true
    case BlankNode(id) => id != ""
    case Literal(_, Plain) => true
    case Literal(_, Language(tag)) => tag != ""
    case Literal(_, Datatype(iri)) => iri != ""
  }

  /** Reading a written term gives it back exactly when it is recoverable. */
  lemma ChooseTermInvertsEncoding(name: string, t: Term)
    ensures ChooseTerm(EncodeBinding(name, t)) == t <==> Recoverable(t)
  {
  }

  // ---------------------------------------------------------------------------
  // The bindings of one result
  // ---------------------------------------------------------------------------

  /**
   * The map built from a result's bindings, in document order: each binding
   * stores its term under its display key, over whatever an earlier binding
   * stored there. The map never has more entries than there are bindings.
   */
  function ParseBindings(bindings: seq<RawBinding>, prefix: bool): (m: map<string, Term>)
    ensures |m| <= |bindings|
    decreases |bindings|
  {
    if bindings == [] then map[]
    else
      var last := bindings[|bindings| - 1];
      ParseBindings(bindings[..|bindings| - 1], prefix)[DisplayKey(last.name, prefix) := ChooseTerm(last)]
  }

  /** The display keys of a sequence of bindings. */
  function KeysOf(bindings: seq<RawBinding>, prefix: bool): set<string>
  {
    set i | 0 <= i < |bindings| :: DisplayKey(bindings[i].name, prefix)
  }

  /** No binding after position `i` has the same display key. */
  predicate IsLastWithKey(bindings: seq<RawBinding>, prefix: bool, i: int)
    requires 0 <= i < |bindings|
  {
    forall j :: i < j < |bindings| ==> DisplayKey(bindings[j].name, prefix) != DisplayKey(bindings[i].name, prefix)
  }

  /** No two bindings have the same variable name. */
  predicate DistinctNames(bindings: seq<RawBinding>)
  {
    forall i, j :: 0 <= i < j < |bindings| ==> bindings[i].name != bindings[j].name
  }

  lemma ParseBindingsEmpty(prefix: bool)
    ensures ParseBindings([], prefix) == map[]
  {
  }

  lemma KeysOfSnoc(bindings: seq<RawBinding>, prefix: bool)
    requires bindings != []
    ensures KeysOf(bindings, prefix)
         == KeysOf(bindings[..|bindings| - 1], prefix) + {DisplayKey(bindings[|bindings| - 1].name, prefix)}
  {
  }

  /** The key set is exactly the set of display keys of the bindings. */
  lemma {:induction false} ParseBindingsKeys(bindings: seq<RawBinding>, prefix: bool)
    ensures ParseBindings(bindings, prefix).Keys == KeysOf(bindings, prefix)
  {
    if bindings != [] {
      ParseBindingsKeys(bindings[..|bindings| - 1], prefix);
      KeysOfSnoc(bindings, prefix);
    }
  }

  /** Last write wins: the stored term is that of the last binding with the key. */
  lemma {:induction false} ParseBindingsLastWins(bindings: seq<RawBinding>, prefix: bool, i: int)
    requires 0 <= i < |bindings| && IsLastWithKey(bindings, prefix, i)
    ensures DisplayKey(bindings[i].name, prefix) in ParseBindings(bindings, prefix)
    ensures ParseBindings(bindings, prefix)[DisplayKey(bindings[i].name, prefix)] == ChooseTerm(bindings[i])
  {
    var n := |bindings| - 1;
    var init := bindings[..n];
    if i < n {
      assert init[i] == bindings[i];
      forall j | i < j < |init|
        ensures DisplayKey(init[j].name, prefix) != DisplayKey(init[i].name, prefix)
      {
        assert init[j] == bindings[j];
      }
      ParseBindingsLastWins(init, prefix, i);
      assert DisplayKey(bindings[n].name, prefix) != DisplayKey(bindings[i].name, prefix);
    }
  }

  /** Every stored term comes from the last binding carrying its key. */
  lemma {:induction false} ParseBindingsValueSource(bindings: seq<RawBinding>, prefix: bool, key: string)
    requires key in ParseBindings(bindings, prefix)
    ensures exists i :: 0 <= i < |bindings| && DisplayKey(bindings[i].name, prefix) == key
                      && IsLastWithKey(bindings, prefix, i)
                      && ParseBindings(bindings, prefix)[key] == ChooseTerm(bindings[i])
  {
    ParseBindingsKeys(bindings, prefix);
    var i :| 0 <= i < |bindings| && DisplayKey(bindings[i].name, prefix) == key;
    while !IsLastWithKey(bindings, prefix, i)
      invariant 0 <= i < |bindings| && DisplayKey(bindings[i].name, prefix) == key
      decreases |bindings| - i
    {
      var later :| i < later < |bindings| && DisplayKey(bindings[later].name, prefix) == key;
      i := later;
    }
    ParseBindingsLastWins(bindings, prefix, i);
  }

  /**
   * The prefixed map is the unprefixed one with every key preceded by `?`:
   * same names, same terms.
   */
  lemma {:induction false} PrefixRenamesKeys(bindings: seq<RawBinding>, name: string)
    ensures name in ParseBindings(bindings, false) <==> "?" + name in ParseBindings(bindings, true)
    ensures name in ParseBindings(bindings, false)
         ==> ParseBindings(bindings, false)[name] == ParseBindings(bindings, true)["?" + name]
  {
    if bindings != [] {
      var last := bindings[|bindings| - 1];
      PrefixRenamesKeys(bindings[..|bindings| - 1], name);
      DisplayKeyInjective(name, last.name, true);
    }
  }

  /** Every key of a prefixed map starts with `?` and names a binding's variable. */
  lemma PrefixedKeysStartWithQuestionMark(bindings: seq<RawBinding>, key: string)
    requires key in ParseBindings(bindings, true)
    ensures |key| > 0 && key[0] == '?'
    ensures exists i :: 0 <= i < |bindings| && bindings[i].name == key[1..]
  {
    ParseBindingsKeys(bindings, true);
  }

  /** Names stay distinct after appending a binding exactly when its name is new. */
  lemma DistinctNamesSnoc(bindings: seq<RawBinding>)
    requires bindings != []
    ensures DistinctNames(bindings)
        <==> DistinctNames(bindings[..|bindings| - 1])
             && forall i | 0 <= i < |bindings| - 1 :: bindings[i].name != bindings[|bindings| - 1].name
  {
    var init := bindings[..|bindings| - 1];
    assert forall i | 0 <= i < |init| :: init[i] == bindings[i];
  }

  /** The last binding's key is already stored exactly when its name occurs earlier. */
  lemma LastKeyStoredEarlier(bindings: seq<RawBinding>, prefix: bool)
    requires bindings != []
    ensures DisplayKey(bindings[|bindings| - 1].name, prefix) in ParseBindings(bindings[..|bindings| - 1], prefix)
        <==> exists i | 0 <= i < |bindings| - 1 :: bindings[i].name == bindings[|bindings| - 1].name
  {
    var n := |bindings| - 1;
    var init := bindings[..n];
    ParseBindingsKeys(init, prefix);
    if i :| 0 <= i < n && bindings[i].name == bindings[n].name {
      assert init[i] == bindings[i];
      assert DisplayKey(init[i].name, prefix) in KeysOf(init, prefix);
    }
    if DisplayKey(bindings[n].name, prefix) in KeysOf(init, prefix) {
      var i :| 0 <= i < |init| && DisplayKey(init[i].name, prefix) == DisplayKey(bindings[n].name, prefix);
      assert init[i] == bindings[i];
      DisplayKeyInjective(init[i].name, bindings[n].name, prefix);
    }
  }

  /** One entry per binding exactly when no variable name is repeated. */
  lemma {:induction false} ParseBindingsSize(bindings: seq<RawBinding>, prefix: bool)
    ensures |ParseBindings(bindings, prefix)| == |bindings| <==> DistinctNames(bindings)
  {
    if bindings != [] {
      var n := |bindings| - 1;
      var init := bindings[..n];
      ParseBindingsSize(init, prefix);
      DistinctNamesSnoc(bindings);
      LastKeyStoredEarlier(bindings, prefix);
      var earlier := ParseBindings(init, prefix);
      var key := DisplayKey(bindings[n].name, prefix);
      assert ParseBindings(bindings, prefix) == earlier[key := ChooseTerm(bindings[n])];
    }
  }

  /**
   * The conversion of one `<result>`: a loop over its bindings that stores
   * each binding's term under its display key.
   */
  method ParseXmlBindings(parser: Parser, rawBindings: RawResult) returns (bindings: map<string, Term>)
    ensures bindings == ParseBindings(rawBindings.binding, parser.prefixVariableQuestionMark)
    ensures bindings.Keys == KeysOf(rawBindings.binding, parser.prefixVariableQuestionMark)
    ensures forall i | 0 <= i < |rawBindings.binding|
                       && IsLastWithKey(rawBindings.binding, parser.prefixVariableQuestionMark, i)
              :: DisplayKey(rawBindings.binding[i].name, parser.prefixVariableQuestionMark) in bindings
                 && bindings[DisplayKey(rawBindings.binding[i].name, parser.prefixVariableQuestionMark)]
                    == ChooseTerm(rawBindings.binding[i])
  {
    var all := rawBindings.binding;
    bindings := map[];
    for n := 0 to |all|
      invariant bindings == ParseBindings(all[..n], parser.prefixVariableQuestionMark)
    {
      var binding := all[n];
      var key := binding.name;
      var value := ChooseTerm(binding);
      assert all[..n + 1][..n] == all[..n];
      bindings := bindings[DisplayKey(key, parser.prefixVariableQuestionMark) := value];
    }
    assert all[..|all|] == all;
    ParseBindingsKeys(all, parser.prefixVariableQuestionMark);
    forall i | 0 <= i < |all| && IsLastWithKey(all, parser.prefixVariableQuestionMark, i)
      ensures DisplayKey(all[i].name, parser.prefixVariableQuestionMark) in bindings
      ensures bindings[DisplayKey(all[i].name, parser.prefixVariableQuestionMark)] == ChooseTerm(all[i])
    {
      ParseBindingsLastWins(all, parser.prefixVariableQuestionMark, i);
    }
  }

  // ---------------------------------------------------------------------------
  // Boolean results
  // ---------------------------------------------------------------------------

  /**
   * The answer of an ASK response from the text of its `<boolean>` element
   * (None when the element has no text): true only for exactly "true".
   */
  function BooleanAnswer(text: Option<string>): (answer: bool)
    ensures answer <==> text == Some("true")
  {
    match text
    case Some(t) => t == "true"
    case None => false
  }

  lemma BooleanAnswerExamples()
    ensures BooleanAnswer(Some("true"))
    ensures !BooleanAnswer(Some("false"))
    ensures !BooleanAnswer(Some("TRUE")) && !BooleanAnswer(Some(" true")) && !BooleanAnswer(Some("1"))
    ensures !BooleanAnswer(None)
  {
  }

  // ---------------------------------------------------------------------------
  // The plain-literal branch as the source writes it
  // ---------------------------------------------------------------------------

  /** A JavaScript value handed to the literal factory as the lexical form. */
  datatype LiteralArgument = StringArgument(value: string) | RecordArgument(record: RawLiteral)

  /** A literal that neither the language branch nor the datatype branch takes. */
  predicate ReachesPlainBranch(literal: RawLiteral)
  {
    literal.Text? || (literal.lang == "" && literal.datatypeIri == "")
  }

  /**
   * The plain-literal branch as written passes the `literal` field itself:
   * the text for a collapsed literal, but the whole record for one with
   * attributes.
   */
  function PlainLiteralArgumentAsWritten(literal: RawLiteral): (arg: LiteralArgument)
    ensures arg.StringArgument? <==> literal.Text?
    ensures arg.StringArgument? ==> arg.value == literal.text
  {
    match literal
    case Text(s) => StringArgument(s)
    case Element(_, _, _) => RecordArgument(literal)
  }

  /**
   * A `<literal>` with an attribute that is neither a non-empty `xml:lang`
   * nor a non-empty `datatype` reaches the plain branch, and the value
   * passed there is not its text.
   */
  lemma PlainLiteralRecordLosesText(other: string)
    ensures ReachesPlainBranch(Element("", "", other))
    ensures PlainLiteralArgumentAsWritten(Element("", "", other)) == RecordArgument(Element("", "", other))
    ensures LiteralTerm(Element("", "", other)) == Literal(other, Plain)
  {
  }

  /** The corrected plain branch keeps the text of every literal that reaches it. */
  lemma PlainBranchKeepsText(literal: RawLiteral)
    requires ReachesPlainBranch(literal)
    ensures LiteralTerm(literal) == Literal(literal.text, Plain)
  {
  }
}
