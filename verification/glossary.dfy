/**
 The codebase glossary: from the types scanned out of a codebase, keep those that
 carry the glossary-term annotation and have Javadoc, and turn each into its
 definition, in scanning order.
 */
module Glossaries {
  import opened Streams

  /** One glossary entry. How it is derived from a type's Javadoc is not modelled:
      a scanned type simply carries the definition it would yield. */
  datatype Definition = Definition(term: string, description: string)

  /** One scanned type declaration, reduced to the three queries the glossary asks of it. */
  datatype Type = Type(hasGlossaryTermAnnotation: bool, hasJavadoc: bool, definition: Definition)

  /** A codebase, reduced to the sequence of types its scanner enumerates. */
  datatype Codebase = Codebase(types: seq<Type>)

  /** A glossary over a sequence of types; the constructor is the main constructor. */
  datatype CodebaseGlossary = CodebaseGlossary(types: seq<Type>)

  predicate HasGlossaryTermAnnotation(t: Type) { t.hasGlossaryTermAnnotation }

  predicate HasJavadoc(t: Type) { t.hasJavadoc }

  function DefinitionOf(t: Type): Definition { t.definition }

  /** A type is a glossary term when it is annotated as one and documented. */
  predicate Eligible(t: Type) { HasGlossaryTermAnnotation(t) && HasJavadoc(t) }

  /** The definitions of the glossary: annotation filter, then Javadoc filter, then map. */
  function Definitions(g: CodebaseGlossary): (r: seq<Definition>)
    ensures |r| <= |g.types|
  {
    Map(Filter(Filter(g.types, HasGlossaryTermAnnotation), HasJavadoc), DefinitionOf)
  }

  /** Soundness and completeness: a definition is in the glossary exactly when some
      scanned type that is annotated and has Javadoc defines it. */
  lemma DefinitionsMembership(g: CodebaseGlossary, d: Definition)
    ensures d in Definitions(g) <==>
            exists t :: t in g.types && Eligible(t) && t.definition == d
  {
  }

  /** The secondary constructor: a glossary of a codebase is the glossary of the types it enumerates. */
  function FromCodebase(c: Codebase): (g: CodebaseGlossary)
    ensures Definitions(g) == Definitions(CodebaseGlossary(c.types))
  {
    CodebaseGlossary(c.types)
  }

  /** The two filters are one filter on eligibility. */
  lemma DefinitionsOfEligible(g: CodebaseGlossary)
    ensures Definitions(g) == Map(Filter(g.types, Eligible), DefinitionOf)
  {
    FilterFuse(g.types, HasGlossaryTermAnnotation, HasJavadoc, Eligible);
  }

  /** Completeness and order: the definitions are those of the eligible types, one
      per eligible type and none for any other type, in the order the types were scanned. */
  lemma DefinitionsInScanOrder(g: CodebaseGlossary)
    ensures |Definitions(g)| == |KeptIndices(g.types, Eligible, 0)|
    ensures forall k :: 0 <= k < |Definitions(g)| ==>
              Definitions(g)[k] == g.types[KeptIndices(g.types, Eligible, 0)[k]].definition
  {
    DefinitionsOfEligible(g);
    FilterIsOrderedSubsequence(g.types, Eligible);
  }

  /** Applying the Javadoc filter before the annotation filter yields the same definitions. */
  lemma FiltersCommute(g: CodebaseGlossary)
    ensures Map(Filter(Filter(g.types, HasJavadoc), HasGlossaryTermAnnotation), DefinitionOf)
            == Definitions(g)
  {
    FilterCommutes(g.types, HasJavadoc, HasGlossaryTermAnnotation);
  }

  /** The glossary of two concatenated type sequences is the concatenation of their glossaries. */
  lemma DefinitionsConcat(a: seq<Type>, b: seq<Type>)
    ensures Definitions(CodebaseGlossary(a + b))
            == Definitions(CodebaseGlossary(a)) + Definitions(CodebaseGlossary(b))
  {
    FilterConcat(a, b, HasGlossaryTermAnnotation);
    FilterConcat(Filter(a, HasGlossaryTermAnnotation), Filter(b, HasGlossaryTermAnnotation), HasJavadoc);
    MapConcat(Filter(Filter(a, HasGlossaryTermAnnotation), HasJavadoc),
              Filter(Filter(b, HasGlossaryTermAnnotation), HasJavadoc), DefinitionOf);
  }

  /** There are as many definitions as types exactly when every type is eligible. */
  lemma DefinitionsLength(g: CodebaseGlossary)
    ensures |Definitions(g)| <= |g.types|
    ensures |Definitions(g)| == |g.types| <==> forall t :: t in g.types ==> Eligible(t)
  {
    DefinitionsOfEligible(g);
    FilterCounts(g.types, Eligible);
  }

  /** The glossary is empty exactly when no type is eligible; in particular when
      there are no types, or when no type carries the annotation. */
  lemma DefinitionsEmpty(g: CodebaseGlossary)
    ensures Definitions(g) == [] <==> forall t :: t in g.types ==> !Eligible(t)
    ensures g.types == [] ==> Definitions(g) == []
    ensures (forall t :: t in g.types ==> !t.hasGlossaryTermAnnotation) ==> Definitions(g) == []
  {
    if Definitions(g) != [] {
      DefinitionsMembership(g, Definitions(g)[0]);
    } else {
      forall t | t in g.types ensures !Eligible(t) {
        DefinitionsMembership(g, t.definition);
      }
    }
  }

  /** A single type contributes its definition exactly when it is eligible. */
  lemma DefinitionsSingleton(t: Type)
    ensures Definitions(CodebaseGlossary([t])) == if Eligible(t) then [t.definition] else []
  {
  }

  /** Appending one type appends its definition exactly when it is eligible. */
  lemma DefinitionsSnoc(before: seq<Type>, t: Type)
    ensures Definitions(CodebaseGlossary(before + [t]))
            == Definitions(CodebaseGlossary(before)) + if Eligible(t) then [t.definition] else []
  {
    DefinitionsConcat(before, [t]);
    DefinitionsSingleton(t);
  }

  /** The stream evaluated element by element, as its terminal operation would pull it:
      each type passes the annotation check, then the Javadoc check, then is mapped,
      before the next type is looked at. */
  method CollectDefinitions(g: CodebaseGlossary) returns (r: seq<Definition>)
    ensures r == Definitions(g)
  {
    r := [];
    var i := 0;
    while i < |g.types|
      invariant i <= |g.types|
      invariant r == Definitions(CodebaseGlossary(g.types[..i]))
    {
      var t := g.types[i];
      DefinitionsSnoc(g.types[..i], t);
      assert g.types[..i + 1] == g.types[..i] + [t];
      if Eligible(t) {
        r := r + [t.definition];
      }
      i := i + 1;
    }
    assert g.types[..i] == g.types;
  }
}
