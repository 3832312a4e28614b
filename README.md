# SPARQL XML result-row conversion, modelled in Dafny

This project models the core of a JavaScript parser for the W3C SPARQL Query
Results XML Format. It covers three things:

- how one tokenised `<result>` element becomes a map from display key to
  RDF term. This is section 2.3.1, "Variable Binding Results", of that
  Recommendation.
- how the parser's constructor normalises its question-mark option.
- how the text of a `<boolean>` element becomes the answer of an ASK query.
  This is section 2.3.2, "Boolean Results".

Files:

- `wrappers.dfy`: an `Option` datatype.
- `rdf_terms.dfy` (module `RdfTerms`): the terms a binding can denote.
  These are `NamedNode`, `BlankNode` and `Literal`. A literal's annotation is
  `Plain`, `Language(tag)` or `Datatype(iri)`. Because these are alternatives
  of one datatype, no literal carries both a language and a datatype.
- `xml_records.dfy` (module `XmlRecords`): the record shape the XML tokenizer
  delivers, which the parser reads (`binding.$.name`, `binding.bnode`,
  `binding.literal`, `binding.literal.$`, `binding.literal.$text`,
  `binding.uri`).
  - A JavaScript field that is absent or undefined is the empty string here.
  - A string is truthy exactly when it is non-empty.
  - A `<literal>` without attributes arrives collapsed to its text (`Text`).
  - A `<literal>` with attributes arrives as a record (`Element`). A record
    is always truthy.
- `sparql_xml_parser.dfy` (module `SparqlXml`): the parser. It contains:
  - the settings and the constructor;
  - the display key;
  - the term choice and its inverse, `EncodeBinding`, which writes a term
    back as binding children;
  - the term choice with the literal presence test as written (see
    Findings);
  - `ParseBindings`, a fold that specifies the map;
  - `ParseXmlBindings`, the loop that builds the map, proved equal to the
    fold;
  - the boolean rule;
  - the plain-literal branch as written (see Findings).

The parser datatype holds only the normalised flag. The source's parser
fields are `readonly`, so the parser is a value and not a class.

This version of `lib/SparqlXmlParser.ts` has no quoted triples, no version
check, no tag-context state machine and no typed errors, so neither does the
model.

The cases in `test/SparqlXmlParser-test.ts:314-434` and `:454-530` call
`parseXmlBindings` directly with records of another shape (`children`,
`attribs`, `value`). That shape does not match what
`lib/SparqlXmlParser.ts:60-75` reads: under it, `rawBindings.binding` is
undefined. The model uses the shape the code reads, so those records are not
taken as evidence about it. Their expected terms still state the intended
behaviour. The case at `:436-452` parses real XML, and its expectation that
`<literal></literal>` gives the empty plain literal is the second row under
Findings.

Two definitions of the main model follow the corrected behaviour of the
Findings rows, not the code as written: the plain-literal branch of
`LiteralTerm` and the literal presence test of `ChooseTerm`. Everything built
on them (`ParseBindings`, `ParseXmlBindings`) inherits both corrections. The
code as written is modelled beside them by `PlainLiteralArgumentAsWritten`
and `ChooseTermAsWritten`.

## Model

| member | source | states |
|---|---|---|
| `SparqlXml.NewParser` | lib/SparqlXmlParser.ts:17-21 | The flag is true exactly when settings are given and their `prefixVariableQuestionMark` is given and true. Absent settings or an absent option give false. |
| `SparqlXml.NewParserDefaults` | test/SparqlXmlParser-test.ts:25-58 | No settings, empty settings and an explicit false all give an unprefixed parser. An explicit true gives a prefixed one. |
| `SparqlXml.DisplayKey` | lib/SparqlXmlParser.ts:77 | With the flag, the key is one character longer than the name, starts with `?`, and the rest is the name. Without the flag, the key is the name. |
| `SparqlXml.DisplayKeyInjective` | lib/SparqlXmlParser.ts:77 | Under one flag setting, two names share a key exactly when they are equal. |
| `XmlRecords.LiteralPresent` | lib/SparqlXmlParser.ts:65 | The `literal` field is truthy exactly when it is given and is not the empty collapsed text. |
| `SparqlXml.LiteralTerm` | lib/SparqlXmlParser.ts:65-73 | A literal keeps its text as its lexical form. It is language-tagged exactly when it is a record with a non-empty `xml:lang`, even if it also has a datatype. It is datatyped exactly when it is a record with no language and a non-empty `datatype`. Otherwise it is plain. The plain branch is the corrected one from the first Findings row. |
| `SparqlXml.ChooseTerm` | lib/SparqlXmlParser.ts:62-76 | The term is a blank node exactly when `bnode` is non-empty, and its id is that `bnode`. It is a literal exactly when there is no bnode but a `literal` child, whatever its text (the corrected presence test of the second Findings row). Otherwise it is the named node of `uri`. |
| `SparqlXml.ChooseTermAsWritten` | lib/SparqlXmlParser.ts:62-76 | With the source's truthiness test, the term is a literal exactly when there is no bnode and the `literal` field is truthy. It agrees with `ChooseTerm` except for an empty collapsed literal text, which becomes `NamedNode(uri)`. |
| `SparqlXml.EmptyLiteralReadAsAbsent` | lib/SparqlXmlParser.ts:65-75 | As written, a binding whose literal is the empty collapsed text gives `NamedNode(uri)`, not the empty literal. |
| `SparqlXml.EmptyLiteralIsEmptyPlainLiteral` | test/SparqlXmlParser-test.ts:436-452 | In the corrected model, such a binding gives `Literal("", Plain)`, as the test expects. |
| `SparqlXml.BlankNodeWins` | lib/SparqlXmlParser.ts:63-64 | A non-empty `bnode` gives `BlankNode(bnode)`, whatever the literal and uri fields hold. |
| `SparqlXml.LanguageWins` | lib/SparqlXmlParser.ts:66-67 | A literal with a non-empty language is language-tagged even when a datatype is present. |
| `SparqlXml.NamedNodeFallback` | lib/SparqlXmlParser.ts:74-75 | With neither a bnode nor a literal, the term is `NamedNode(uri)`. |
| `SparqlXml.EncodeBinding` | lib/SparqlXmlParser.ts:62-76 | The inverse partner of the term choice. It writes a term as binding children and keeps the name. It sets `bnode` exactly for blank nodes with a non-empty id, and `literal` exactly for literals. |
| `SparqlXml.ChooseTermInvertsEncoding` | lib/SparqlXmlParser.ts:62-76 | Reading back a written term gives the same term exactly when the term is recoverable. Recoverable means no empty blank node id, language tag or datatype IRI, because the source reads an empty string there as falsy. |
| `SparqlXml.ParseBindings` | lib/SparqlXmlParser.ts:58-80 | The fold that specifies the loop has at most one entry per binding. Its key set, last-write-wins values, prefix renaming and size are stated by the lemmas below. |
| `SparqlXml.ParseBindingsEmpty` | lib/SparqlXmlParser.ts:59-60 | A result with no bindings gives the empty map. |
| `SparqlXml.ParseBindingsKeys` | lib/SparqlXmlParser.ts:58-79 | The map's key set is exactly the set of display keys of the bindings, with no other keys. The JavaScript object's `__proto__` behaviour is not modelled (see Left out). |
| `SparqlXml.ParseBindingsLastWins` | lib/SparqlXmlParser.ts:60-77 | Take the last binding that carries a given key. The key is in the map, and its term is that binding's term: last write wins. |
| `SparqlXml.ParseBindingsValueSource` | lib/SparqlXmlParser.ts:60-77 | Every stored term is the term of the last binding whose display key is that key. |
| `SparqlXml.PrefixRenamesKeys` | lib/SparqlXmlParser.ts:77 | A name is a key of the unprefixed map exactly when `?` + name is a key of the prefixed map, and both keys hold the same term. |
| `SparqlXml.PrefixedKeysStartWithQuestionMark` | lib/SparqlXmlParser.ts:77 | Every key of a prefixed map starts with `?`, and the rest of the key is the name of one of the bindings. |
| `SparqlXml.ParseBindingsSize` | lib/SparqlXmlParser.ts:58-79 | The map has exactly one entry per binding exactly when no variable name repeats. |
| `SparqlXml.ParseXmlBindings` | lib/SparqlXmlParser.ts:58-80 | The loop's result is the fold `ParseBindings` over the bindings. Its keys are the display keys, and each key holds the term of the last binding with that key. It uses the corrected term choice of the Findings rows. The object's `__proto__` behaviour and key order are not modelled (see Left out). |
| `SparqlXml.BooleanAnswer` | lib/SparqlXmlParser.ts:93 | The answer is true exactly when the `<boolean>` text is present and is the string `"true"`. |
| `SparqlXml.BooleanAnswerExamples` | test/SparqlXmlParser-test.ts:545-556 | `"true"` gives true. `"false"`, `"TRUE"`, `" true"`, `"1"` and a missing text give false. |
| `SparqlXml.PlainLiteralArgumentAsWritten` | lib/SparqlXmlParser.ts:71-73 | As written, the plain-literal branch passes a string exactly when the literal arrived as collapsed text. That string is the text. Otherwise it passes the record. |
| `SparqlXml.PlainLiteralRecordLosesText` | lib/SparqlXmlParser.ts:66-73 | A literal record whose attributes hold neither a language nor a datatype reaches the plain branch. As written, the value passed there is the record itself; corrected, the term is the plain literal of its text. |
| `SparqlXml.PlainBranchKeepsText` | lib/SparqlXmlParser.ts:71-73 | In the corrected model, every literal that reaches the plain branch becomes a plain literal of its text. |

## Left out

- `parseXmlResultsStream` (lib/SparqlXmlParser.ts:32-51) is not modelled. It is Node stream plumbing: event wiring for `error` and `end`, and the `variables` event emitted at the end. The timing of its asynchronous listeners is outside a sequential model.
- The variables list collected from `head > variable` (lib/SparqlXmlParser.ts:41) is not modelled. It belongs to that stream plumbing.
- The `xml-stream` tokenizer (lib/SparqlXmlParser.ts:6, 38-39, 91) is foreign code. It includes the collection of `binding` into an array and the collapsing of text-only elements. Its output is taken as the `RawResult` input.
- `SparqlXmlBindingsTransformer` (lib/SparqlXmlBindingsTransformer.ts:17) is not modelled. It is a stream wrapper that only calls the conversion once per chunk.
- The promise of `parseXmlBooleanStream` (lib/SparqlXmlParser.ts:89-95) is not modelled. That covers its rejection on stream or tokenizer errors and on end without a `<boolean>`. Only the text-to-answer rule of line 93 is modelled.
- The concrete term factory (lib/SparqlXmlParser.ts:1, 19) is replaced by the `Term` datatype. The factory's implicit datatypes (`xsd:string` for plain literals, `rdf:langString` for tagged ones) are not modelled.
- A binding record without `$` is not modelled: there, `binding.$.name` throws a `TypeError`. The model takes `name` as a string. An undefined name, which the source would turn into the key `"undefined"` or `"?undefined"`, is an empty string here.
- SparqlXml.ParseXmlBindings, SparqlXml.ParseBindingsKeys: the result is a Dafny map, not a JavaScript object. Two behaviours of the object are not captured. First, with no prefix, a variable named `__proto__` sets the object's prototype instead of adding an own key, so the source has no key `__proto__` and shows the term's properties as inherited keys. Second, the object's key order is not modelled: insertion order, except that integer-like keys such as `"1"` come first.
- SparqlXml.LiteralTerm, SparqlXml.ChooseTerm, SparqlXml.ParseBindings, SparqlXml.ParseXmlBindings: these follow the corrected plain-literal branch and the corrected literal presence test of the Findings rows, not the code as written. The code as written is `PlainLiteralArgumentAsWritten` and `ChooseTermAsWritten`.
- A `<bnode>` or `<uri>` child with attributes is not modelled. The tokenizer would deliver it as an always-truthy record. `bnode` and `uri` are plain strings here, because the format's grammar gives these elements no attributes.
- An absent `uri` becomes `namedNode(undefined)` in the source. Here it is `NamedNode("")`.

## Findings

| source | as written | input that shows it | evidently intended | confidence | as-written member | corrected member |
|---|---|---|---|---|---|---|
| lib/SparqlXmlParser.ts:71-73 | The plain-literal branch passes `binding.literal` itself to the literal factory, not `binding.literal.$text`. | `<literal foo="x">abc</literal>`: the tokenizer gives a record with `$` and `$text`, and the record has neither `xml:lang` nor `datatype`. The same happens with an empty `xml:lang=""`. | A plain literal whose lexical form is the text `abc`. | not executed; medium: it depends on the tokenizer keeping `$` for any attribute | `SparqlXml.PlainLiteralArgumentAsWritten`, `SparqlXml.PlainLiteralRecordLosesText` | `SparqlXml.LiteralTerm`, `SparqlXml.PlainBranchKeepsText` |
| lib/SparqlXmlParser.ts:65, 74-75 | The literal branch is taken only when `binding.literal` is truthy, and the empty string is falsy. | `<binding name="x"><literal></literal></binding>`, if the tokenizer collapses the empty element to the empty string: the result is `namedNode(binding.uri)`. | The empty plain literal, as test/SparqlXmlParser-test.ts:436-452 expects. | not executed; low: it depends on how the tokenizer delivers an empty element | `SparqlXml.ChooseTermAsWritten`, `SparqlXml.EmptyLiteralReadAsAbsent` | `SparqlXml.ChooseTerm`, `SparqlXml.EmptyLiteralIsEmptyPlainLiteral` |
