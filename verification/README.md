# Cantis codebase glossary — a Dafny model

Cantis builds a glossary of domain terms from a Java codebase. The codebase's scanner
enumerates type declarations; `CodebaseGlossary.definitions()` keeps the types that carry
the glossary-term annotation, then keeps those of them that have Javadoc, and maps each
survivor to its `Definition`. This project models that pipeline and proves what it promises.

- `streams.dfy`, module `Streams`: the two `java.util.stream.Stream` operations the
  pipeline uses, `filter` (`Filter`) and `map` (`Map`), over an eager, ordered `seq`.
  It also holds `KeptIndices`, an independent reference definition of "the positions
  a filter keeps", and the general facts about filter and map: membership, counting,
  order, distribution over concatenation, commutation and fusion of two filters.
- `glossary.dfy`, module `Glossaries`: the data model and the glossary.
  - `Type` is one scanned type, reduced to what the glossary asks of it: the two
    booleans `hasGlossaryTermAnnotation` and `hasJavadoc`, and the `definition` it yields.
  - `Definition` has a term and a description.
  - `Codebase` is the sequence of types its scanner enumerates.
  - `CodebaseGlossary` is the glossary. Its datatype constructor is the main constructor,
    and `FromCodebase` is the constructor that takes a codebase.
  - `Definitions` is the filter–filter–map pipeline. The lemmas about it state
    soundness, completeness, order, the length bound, emptiness, commutation of the
    two filters and distribution over concatenation.
  - `CollectDefinitions` evaluates the pipeline one element at a time, the way a
    terminal operation pulls a stream, and is proved equal to `Definitions`.

Three modelling choices follow from what the code itself asks of a type:

- `hasJavadoc` is a stored flag. No rule about what counts as Javadoc, such as trimming, is modelled.
- The term and description of a definition are whatever `Type::definition` returns.
- The glossary keeps the order in which the codebase enumerates its types; nothing is sorted.

## Model

| member | source | states |
|---|---|---|
| Streams.Filter | src/main/java/com/github/korthout/cantis/CodebaseGlossary.java:59-60 | a filter never lengthens the stream; every element it yields is an input element satisfying the predicate, and every input element satisfying the predicate is yielded |
| Streams.FilterCounts | src/main/java/com/github/korthout/cantis/CodebaseGlossary.java:59-60 | each occurrence of a kept element survives exactly once and rejected elements never survive (multiset count); nothing is dropped if and only if every element satisfies the predicate |
| Streams.Map | src/main/java/com/github/korthout/cantis/CodebaseGlossary.java:61 | the mapped stream has the input's length and position i holds the image of input position i |
| Streams.MapMembership | src/main/java/com/github/korthout/cantis/CodebaseGlossary.java:61 | a value is in the mapped stream if and only if it is the image of some input element |
| Streams.KeptIndices | src/main/java/com/github/korthout/cantis/CodebaseGlossary.java:59-60 | reference definition of a filter's result: the positions are strictly increasing, each holds an element satisfying the predicate, and no such position is missing |
| Streams.FilterPicksKeptIndicesFrom | src/main/java/com/github/korthout/cantis/CodebaseGlossary.java:59-60 | filtering a suffix yields exactly the elements at the kept positions of that suffix, in order |
| Streams.FilterIsOrderedSubsequence | src/main/java/com/github/korthout/cantis/CodebaseGlossary.java:59-60 | a filter's result is the subsequence of the input at the kept positions, in input order |
| Streams.FilterConcat | src/main/java/com/github/korthout/cantis/CodebaseGlossary.java:59-60 | filtering a concatenation is the concatenation of the filtered parts |
| Streams.MapConcat | src/main/java/com/github/korthout/cantis/CodebaseGlossary.java:61 | mapping a concatenation is the concatenation of the mapped parts |
| Streams.FilterSingleton | src/main/java/com/github/korthout/cantis/CodebaseGlossary.java:59-60 | a single element is kept exactly when it satisfies the predicate |
| Streams.FilterCommutes | src/main/java/com/github/korthout/cantis/CodebaseGlossary.java:59-60 | two successive filters give the same result in either order |
| Streams.FilterFuse | src/main/java/com/github/korthout/cantis/CodebaseGlossary.java:59-60 | two successive filters equal a single filter on the conjunction of their predicates |
| Glossaries.Definitions | src/main/java/com/github/korthout/cantis/CodebaseGlossary.java:57-62 | the glossary has no more definitions than there are scanned types |
| Glossaries.FromCodebase | src/main/java/com/github/korthout/cantis/CodebaseGlossary.java:52-54 | the glossary of a codebase has the same definitions as the glossary of the types that codebase enumerates |
| Glossaries.DefinitionsMembership | src/main/java/com/github/korthout/cantis/CodebaseGlossary.java:58-61 | a definition is in the glossary if and only if some scanned type that has the annotation and has Javadoc yields it |
| Glossaries.DefinitionsOfEligible | src/main/java/com/github/korthout/cantis/CodebaseGlossary.java:59-61 | the annotation filter followed by the Javadoc filter is one filter on "annotated and documented" |
| Glossaries.DefinitionsInScanOrder | src/main/java/com/github/korthout/cantis/CodebaseGlossary.java:58-61 | the glossary is the definitions of the eligible types at their strictly increasing scan positions: one per eligible type, none for any other type, in scan order |
| Glossaries.FiltersCommute | src/main/java/com/github/korthout/cantis/CodebaseGlossary.java:59-61 | applying the Javadoc filter before the annotation filter gives the same definitions |
| Glossaries.DefinitionsConcat | src/main/java/com/github/korthout/cantis/CodebaseGlossary.java:57-62 | the glossary of two concatenated type sequences is the concatenation of their glossaries |
| Glossaries.DefinitionsLength | src/main/java/com/github/korthout/cantis/CodebaseGlossary.java:58-61 | the glossary is at most as long as the type sequence, and exactly as long if and only if every type is eligible |
| Glossaries.DefinitionsEmpty | src/main/java/com/github/korthout/cantis/CodebaseGlossary.java:58-62 | the glossary is empty if and only if no type is eligible; hence it is empty for no types and for types none of which is annotated |
| Glossaries.DefinitionsSingleton | src/main/java/com/github/korthout/cantis/CodebaseGlossary.java:59-61 | a single type contributes its definition exactly when it is annotated and has Javadoc |
| Glossaries.DefinitionsSnoc | src/main/java/com/github/korthout/cantis/CodebaseGlossary.java:58-61 | appending one type to the scanned sequence appends its definition exactly when it is annotated and has Javadoc, and leaves the earlier definitions unchanged |
| Glossaries.CollectDefinitions | src/main/java/com/github/korthout/cantis/CodebaseGlossary.java:57-62 | evaluating the stream one type at a time (annotation check, Javadoc check, map, then the next type) yields the same definitions as the stage-by-stage pipeline |

## Left out

- The `@NonNull` check on the main constructor (line 44): Dafny values cannot be null.
- Stream laziness and single use: a `Stream` can be consumed only once, so calling
  `definitions()` twice on one glossary fails in Java. The model uses an eager `seq`
  that can be read any number of times.
- `Type::hasGlossaryTermAnnotation`, `Type::hasJavadoc` and `Type::definition` are
  implemented outside the files modelled here. They are fields of `Type`. No rule for
  deriving a term or description from Javadoc is modelled.
- `Type` queries are assumed pure and total. Being fields, they have no side effects and never
  throw, and a `seq<Type>` cannot hold a null element. In Java, a null element of the stream
  throws a `NullPointerException` at line 59. Lines 59-61 also call `hasJavadoc` only on
  annotated types and `definition` only on eligible ones; this is unobservable only because
  the queries are pure, and `FiltersCommute` relies on that purity.
- `Codebase::types`: directory scanning and source parsing are not part of this model.
  A `Codebase` is the sequence of types its scan produces.
- from-java/src/main/java/com/github/korthout/cantis/from_java/commandline/Generate.java: this is
  command-line plumbing. It covers argument binding, the defaults `.`, `""` and plain, the
  choice between console and file output, and a call to `GlossaryPrinter.print()`. That
  printer, the formatters and the output sinks are not part of this model, and they are
  mostly I/O.
- Glossaries.Definitions: its own contract gives only the length bound. Its contents are
  stated by the lemmas `DefinitionsMembership`, `DefinitionsInScanOrder`,
  `DefinitionsLength` and `DefinitionsEmpty`.
