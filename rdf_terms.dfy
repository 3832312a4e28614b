/**
 * The RDF terms that a SPARQL XML result binding can denote: an IRI
 * (named node), a blank node or a literal. The concrete term factory of the
 * program is replaced by these constructors.
 */
module RdfTerms {

  /**
   * What a literal carries beside its lexical form. The two annotations are
   * alternatives of one datatype, so no literal can have both a language tag
   * and a datatype.
   */
  datatype Annotation =
    | Plain
    | Language(tag: string)
    // the datatype is the named node whose IRI is `iri`
    | Datatype(iri: string)

  datatype Term =
    | NamedNode(iri: string)
    | BlankNode(id: string)
    | Literal(lexical: string, annotation: Annotation)
}
