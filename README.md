# Pathling FHIRPath core, modelled in Dafny

This project models five pieces of the Pathling FHIR analytics server.

- **Two-phase value-set membership** (`memberOf`). The preview phase reads every input row of codings once. It collects the distinct defined codings and derives their (system, version) code-system references. It keeps the references whose system the terminology server knows, and builds one ValueSet `compose.include` block per reference that matches some coding. The server expands that intersection only when at least one block exists. The per-row phase answers null, true or false for each row against the resulting membership set.
- **The path traversal operator** (`.`), as in section "Path selection" of FHIRPath (2018Sep). Its parts are:
  - the literal and unknown-child checks;
  - the canonical expression string;
  - the singular rule;
  - the element-id rule;
  - `posexplode_outer` of repeating children.
- **The expression dispatcher** of the parser. It handles terms, invocations, and the eight binary forms. It rejects indexer, polarity, union and type expressions.
- **The guard functions** (`Preconditions`).
- **The string helpers** (`Strings`).

Files:

- `Options.dfy`: option type.
- `Preconditions.dfy`: the error kinds the Java code throws, with `Outcome`/`Result`, and the six guards.
- `Strings.dfy`: capitalisation (imperative, on a `char` array), back-ticks, Java `split`/`join` on dots, and the snake-case join.
- `Columnar.dfy`: datasets as rows of values and columns as expressions evaluated per row. Includes `posexplode_outer` under Spark's documented semantics, and the flat map it is built from.
- `PathTraversal.dfy`: `Invoke`, its path invariant, and chains of traversals.
- `TraversalExamples.dfy`: `Patient.name.given` over one patient with two names of two given names each.
- `Visitor.dfy`: the dispatcher over a parse-tree datatype. The term visitor, the invocation visitor and the operator registry are a record of functions.
- `MemberOf.dfy`: `Preview` as a method with loops over sets, `Call`, and `CodeSystemReference.matchesCoding`.

Terminology client calls are modelled as follows:
- They are the two functions of `TerminologyClient`.
- `Preview` returns each request it makes, in order.
- It also reports whether it built the client.

Iteration over a Java `HashSet` visits the elements in an unspecified order. The model states its results for every such order: "one search per reference, in some order of the references".

## Model

| member | source | states |
|---|---|---|
| Preconditions.Check | fhir-server/src/main/java/au/csiro/pathling/utilities/Preconditions.java:29-33 | returns normally exactly when the expression holds, otherwise a message-less AssertionError |
| Preconditions.CheckArgument | fhir-server/src/main/java/au/csiro/pathling/utilities/Preconditions.java:42-46 | passes exactly when the expression holds, otherwise IllegalArgumentException carrying the message |
| Preconditions.CheckNotNull | fhir-server/src/main/java/au/csiro/pathling/utilities/Preconditions.java:56-58 | hands back the object exactly when it is present, otherwise NullPointerException |
| Preconditions.CheckPresent | fhir-server/src/main/java/au/csiro/pathling/utilities/Preconditions.java:69-75 | hands back the contained value exactly when present, otherwise an AssertionError carrying "No value present" |
| Preconditions.CheckUserInput | fhir-server/src/main/java/au/csiro/pathling/utilities/Preconditions.java:84-88 | passes exactly when the expression holds, otherwise InvalidUserInputError carrying the message |
| Preconditions.CheckState | fhir-server/src/main/java/au/csiro/pathling/utilities/Preconditions.java:97-101 | passes exactly when the expression holds, otherwise IllegalStateException carrying the message |
| Strings.Capitalize | utilities/src/main/java/au/csiro/clinsight/utilities/Strings.java:17-24 | null stays null and empty stays empty; otherwise the length is kept, index 0 is upper-cased and every other character is unchanged |
| Strings.Uncapitalize | utilities/src/main/java/au/csiro/clinsight/utilities/Strings.java:26-33 | null stays null and empty stays empty; otherwise the length is kept, index 0 is lower-cased and every other character is unchanged |
| Strings.CaseChangesTouchOnlyTheHead | utilities/src/main/java/au/csiro/clinsight/utilities/Strings.java:17-33 | capitalising and uncapitalising are idempotent, and each undoes the other's effect on the first character |
| Strings.BackTicks | utilities/src/main/java/au/csiro/clinsight/utilities/Strings.java:35-37 | the value wrapped in one back-tick on each side, so its length is two more; a null value gives "`null`" |
| Strings.TokenizePath | utilities/src/main/java/au/csiro/clinsight/utilities/Strings.java:39-41 | no token contains a dot |
| Strings.DropTrailingEmpty | utilities/src/main/java/au/csiro/clinsight/utilities/Strings.java:39-41 | the result is a prefix of the tokens whose last element is non-empty, and only empty tokens are dropped (Java `split`'s trailing-empty rule) |
| Strings.JoinSplitOnDot | utilities/src/main/java/au/csiro/clinsight/utilities/Strings.java:39-45 | joining the pieces of a dot split with "." gives back the string |
| Strings.UntokenizeTokenize | utilities/src/main/java/au/csiro/clinsight/utilities/Strings.java:39-45 | untokenising the tokens of a path that does not end in a dot gives back the path |
| Strings.UntokenizeTokenizeDropsTrailingDots | utilities/src/main/java/au/csiro/clinsight/utilities/Strings.java:39-45 | for any path, the round trip gives a prefix of it, and what was cut off consists of dots only |
| Strings.JoinSnoc | utilities/src/main/java/au/csiro/clinsight/utilities/Strings.java:43-45 | joining a non-empty list with one more element appended is the old join, the delimiter and the new element |
| Strings.PathToLowerSnakeCaseSingle | utilities/src/main/java/au/csiro/clinsight/utilities/Strings.java:47-53 | one component gives that component uncapitalised |
| Strings.PathToLowerSnakeCaseSnoc | utilities/src/main/java/au/csiro/clinsight/utilities/Strings.java:47-53 | each further component adds that component, capitalised, at the end, with no separator (camelCase) |
| Columnar.PosExplodeOuter | fhir-server/src/main/java/au/csiro/pathling/fhirpath/operator/PathTraversalOperator.java:93-98 | a null or empty array gives exactly one (null, null) pair; an n-element array gives n pairs (k, element k) |
| Columnar.ExplodeRowKeepsCells | fhir-server/src/main/java/au/csiro/pathling/fhirpath/operator/PathTraversalOperator.java:93-98 | every row an input row explodes into starts with all of that row's cells, plus two new cells |
| Columnar.ExplodeRowsCoverage | fhir-server/src/main/java/au/csiro/pathling/fhirpath/operator/PathTraversalOperator.java:93-98 | the rows each input row explodes into form one contiguous block of the output, in input order |
| Columnar.ExplodeRowsLineage | fhir-server/src/main/java/au/csiro/pathling/fhirpath/operator/PathTraversalOperator.java:93-98 | every output row comes from some input row |
| Columnar.SelectWithPosExplode | fhir-server/src/main/java/au/csiro/pathling/fhirpath/operator/PathTraversalOperator.java:93-98 | the new dataset is two columns wider, every row has that width, and there are at least as many rows as before |
| Columnar.ExplodedCells | fhir-server/src/main/java/au/csiro/pathling/fhirpath/operator/PathTraversalOperator.java:93-100 | index and value cells of each exploded row, and the extended element id: the left element id followed by the index |
| PathTraversal.ChainExpressionFromContext | fhir-server/src/main/java/au/csiro/pathling/fhirpath/operator/PathTraversalOperator.java:53-56 | a chain of traversals starting at the input context has the traversed names joined by dots as its expression ("name.given", not "Patient.name.given"), provided no proper prefix of that join equals the context's expression |
| PathTraversal.ChainExpressionExtends | fhir-server/src/main/java/au/csiro/pathling/fhirpath/operator/PathTraversalOperator.java:53-56 | each traversal from a path other than the input context appends "." and the child name, so a chain continuing the joined names `done` ends at `done` and all chained names joined by dots |
| PathTraversal.Invoke | fhir-server/src/main/java/au/csiro/pathling/fhirpath/operator/PathTraversalOperator.java:43-108 | fails exactly on a literal left (with its expression in the message) or an unknown child ("No such child: " and the expression); on success: expression, child definition, singular iff left singular and max cardinality 1, id, foreign resource and $this passed through, and no element id when singular |
| PathTraversal.InvokePreservesValid | fhir-server/src/main/java/au/csiro/pathling/fhirpath/operator/PathTraversalOperator.java:78-107 | a valid path stays valid: its columns read within the dataset's width, and the element id is absent exactly when it is singular |
| PathTraversal.CardinalityOneKeepsDataset | fhir-server/src/main/java/au/csiro/pathling/fhirpath/operator/PathTraversalOperator.java:85-88 | max cardinality 1 keeps the dataset, takes the child field as the value, and keeps the left element id unless singular |
| PathTraversal.RepeatingChildExplodes | fhir-server/src/main/java/au/csiro/pathling/fhirpath/operator/PathTraversalOperator.java:89-105 | any other cardinality: not singular, the dataset exploded on the child, the value column is the exploded value, and the element id is the left one extended by the index |
| PathTraversal.RepeatingChildKeepsLeftColumns | fhir-server/src/main/java/au/csiro/pathling/fhirpath/operator/PathTraversalOperator.java:93-107 | each exploded row is in the result, keeps its left row's cells, and reads the same id and $this values |
| PathTraversal.RepeatingChildValueAndEid | fhir-server/src/main/java/au/csiro/pathling/fhirpath/operator/PathTraversalOperator.java:93-105 | the k-th exploded row holds element k with element id (left id ++ [k]); a null or empty array gives one row with a null value and id (left id ++ [null]) |
| PathTraversal.ResourceNullPropagates | fhir-server/src/main/java/au/csiro/pathling/fhirpath/operator/PathTraversalOperator.java:66-71 | on a resource root, a null resource value makes the child, and so the result's value, null |
| PathTraversal.ChainSingular | fhir-server/src/main/java/au/csiro/pathling/fhirpath/operator/PathTraversalOperator.java:78-79 | a chain of traversals is singular iff the start was singular and every segment has max cardinality 1; singularity never comes back |
| TraversalExamples.PatientNameGiven | fhir-server/src/main/java/au/csiro/pathling/fhirpath/operator/PathTraversalOperator.java:43-108 | Patient.name.given over 2 names of 2 given names each gives the expression "name.given" and 4 non-singular rows |
| TraversalExamples.PatientNameGivenEids | fhir-server/src/main/java/au/csiro/pathling/fhirpath/operator/PathTraversalOperator.java:100 | those rows carry the element ids [0,0], [0,1], [1,0], [1,1] |
| Visitor.TermDelegatesToTermVisitor | fhir-server/src/main/java/au/csiro/pathling/fhirpath/parser/Visitor.java:44-46 | a term is evaluated by the term visitor alone, under the same context |
| Visitor.InvocationPassesTargetAsInvoker | fhir-server/src/main/java/au/csiro/pathling/fhirpath/parser/Visitor.java:56-60 | the target's failure is the invocation's; otherwise the invocation visitor gets the target's path as invoker |
| Visitor.VisitBinaryOperator | fhir-server/src/main/java/au/csiro/pathling/fhirpath/parser/Visitor.java:63-76 | a missing operator token fails with NullPointerException |
| Visitor.BinarySucceeds | fhir-server/src/main/java/au/csiro/pathling/fhirpath/parser/Visitor.java:63-76 | a binary node succeeds with v iff token present, both operands succeed, the operator is found, and it returns v on (context, left, right) |
| Visitor.BinaryFailureOrder | fhir-server/src/main/java/au/csiro/pathling/fhirpath/parser/Visitor.java:63-76 | the reported failure is the first of: missing token, left, right, operator lookup |
| Visitor.BinaryFormsRouteIdentically | fhir-server/src/main/java/au/csiro/pathling/fhirpath/parser/Visitor.java:78-132 | the eight binary forms give the same result on the same operands and token |
| Visitor.UnsupportedConstructsFail | fhir-server/src/main/java/au/csiro/pathling/fhirpath/parser/Visitor.java:136-158 | indexer, polarity, union and type expressions fail with their fixed messages, whatever their sub-expressions and collaborators |
| Visitor.SuccessMeansSupported | fhir-server/src/main/java/au/csiro/pathling/fhirpath/parser/Visitor.java:44-158 | a tree that evaluates has no missing token and no unsupported construct on its evaluated spine |
| Visitor.FailureIsStructural | fhir-server/src/main/java/au/csiro/pathling/fhirpath/parser/Visitor.java:44-158 | with collaborators that never fail, a tree fails iff it has a structural defect, and with that defect's error |
| Visitor.OneContextThroughout | fhir-server/src/main/java/au/csiro/pathling/fhirpath/parser/Visitor.java:57-74 | every sub-expression is evaluated under the dispatcher's own context |
| MemberOf.MatchesCodingCases | fhir-server/src/main/java/au/csiro/pathling/fhirpath/function/memberof/MemberOfMapperWithPreview.java:174-186 | no match without both systems; only systems compared when either version is missing; systems and versions when both are present |
| MemberOf.MatchesOwnReference | fhir-server/src/main/java/au/csiro/pathling/fhirpath/function/memberof/MemberOfMapperWithPreview.java:79-83 | a coding matches the reference derived from it, and a versionless reference matches its system's codings of any version |
| MemberOf.Collected | fhir-server/src/main/java/au/csiro/pathling/fhirpath/function/memberof/MemberOfMapperWithPreview.java:71-77 | a coding is collected iff it is a non-null, defined element of a non-null row |
| MemberOf.CollectedAppend | fhir-server/src/main/java/au/csiro/pathling/fhirpath/function/memberof/MemberOfMapperWithPreview.java:71-77 | the collected set of concatenated rows is the union of the two collected sets |
| MemberOf.CodeSystems | fhir-server/src/main/java/au/csiro/pathling/fhirpath/function/memberof/MemberOfMapperWithPreview.java:79-83 | every derived reference has a system |
| MemberOf.CodeSystemsOrigin | fhir-server/src/main/java/au/csiro/pathling/fhirpath/function/memberof/MemberOfMapperWithPreview.java:79-83 | a reference is derived iff it is the reference of some collected coding with a system |
| MemberOf.Survives | fhir-server/src/main/java/au/csiro/pathling/fhirpath/function/memberof/MemberOfMapperWithPreview.java:88-101 | a reference survives iff the search for its system found something |
| MemberOf.KnownCodingIsIncluded | fhir-server/src/main/java/au/csiro/pathling/fhirpath/function/memberof/MemberOfMapperWithPreview.java:88-131 | a collected coding with a known system gets an include block, via its own reference, and is among that block's matches |
| MemberOf.SearchKnownSystems | fhir-server/src/main/java/au/csiro/pathling/fhirpath/function/memberof/MemberOfMapperWithPreview.java:88-97 | one search per reference, in some order of them, and the known URIs are those whose search found something |
| MemberOf.MatchingConcepts | fhir-server/src/main/java/au/csiro/pathling/fhirpath/function/memberof/MemberOfMapperWithPreview.java:118-125 | one code per matching coding, each matching coding once, and empty iff nothing matches |
| MemberOf.BuildIncludes | fhir-server/src/main/java/au/csiro/pathling/fhirpath/function/memberof/MemberOfMapperWithPreview.java:110-131 | one block per surviving reference that matches some coding, carrying the value-set URI, system, version and exactly the matching codes; empty iff no such reference |
| MemberOf.Preview | fhir-server/src/main/java/au/csiro/pathling/fhirpath/function/memberof/MemberOfMapperWithPreview.java:64-154 | empty input: empty result, no client, no requests; otherwise one search per reference, then exactly one expand with the distinct-coding count iff some block exists, and the result is the expansion's codings (empty when no block) |
| MemberOf.Call | fhir-server/src/main/java/au/csiro/pathling/fhirpath/function/memberof/MemberOfMapperWithPreview.java:158-163 | null for a null row; otherwise true iff some non-null coding of the row is in the state |
| MemberOf.CallAppend | fhir-server/src/main/java/au/csiro/pathling/fhirpath/function/memberof/MemberOfMapperWithPreview.java:158-163 | an empty row gives false, and the membership of a concatenation is the disjunction of its parts |
| MemberOf.VersionlessCodingIsNotAMember | fhir-server/src/main/java/au/csiro/pathling/fhirpath/function/memberof/MemberOfMapperWithPreview.java:158-163 | {sys1, A} is not a member of {{sys1, A, version 2}}: equality is structural |
| MemberOf.OneKnownSystemOneInclude | fhir-server/src/main/java/au/csiro/pathling/fhirpath/function/memberof/MemberOfMapperWithPreview.java:88-131 | codings of two systems, of which the server knows one, give exactly one included reference, the known system's versionless reference |

## Left out

- Case mapping is ASCII only. `Character.toUpperCase`/`toLowerCase` are defined over all of Unicode; the model's `UpperCase`/`LowerCase` change only `a`-`z` and `A`-`Z`.
- Null elements inside lists are not modelled for `untokenizePath` and `pathToLowerSnakeCase`. In Java, `String.join` writes such an element as "null".
- `pathToLowerSnakeCase` on an empty list throws `IndexOutOfBoundsException` from `get(0)`. The model makes the list's non-emptiness a precondition instead of modelling the exception.
- `requestId`, `MDC.put` and the `log` calls are diagnostics only and are left out.
- The terminology client factory and the network are replaced by the `TerminologyClient` functions; only whether the client is built is kept.
- `SimpleCoding.isDefined` is not part of this model and is a parameter of `Preview`. `SimpleCoding.equals` is taken to be structural equality of the three fields.
- The terminology server's own failures are not modelled; the two client functions always answer.
- `NonLiteralPath.expandEid` is not part of this model. It is taken to append the index to the left element id's items, with an absent or null left element id read as the empty list.
- `ElementDefinition`, `getChildElement` and `getElementColumn` are not part of this model. They are a catalog function from (type name, child name) to an optional definition, and a function from child name to column.
- Spark: columns are positional, and a field read from a non-struct value reads as null rather than raising an analysis error. Partitioning, laziness, column names and aliases are left out.
- Columnar.PosExplodeOuter: a non-null value that is not an array gives one (null, null) pair, where Spark rejects the query at analysis. Well-typed FHIR data never reaches this case.
- The ANTLR grammar, the term visitor, the invocation visitor and `Operator.getInstance` are not part of this model. They are a record of functions, so the invocation visitor's own re-entry into the dispatcher is not modelled.
- `PathTraversal.Invoke`: requires rows of the dataset's width. A Spark dataset always has them, so this excludes no input the source handles.
- Where iteration runs over a Java `HashSet`, the contracts hold for every visiting order; the concrete order a JVM would choose is not modelled.

### Behaviour that may surprise

- **Search per reference.** Known systems are searched once per (system, version) reference, not once per distinct URI: the loop at MemberOfMapperWithPreview.java:89-97 runs over the references. `MemberOf.SearchKnownSystems` follows the code.
- **Membership by structural equality.** The version-agnostic rule of `matchesCoding` might suggest that a coding without a version is a member of a set holding the same system and code under a version. `call` uses `Collections.disjoint`, which compares codings with `equals`; under structural equality the answer is false. `MemberOf.VersionlessCodingIsNotAMember` states the code's behaviour.
- **The cardinality test.** A child "repeats" when its maximum cardinality is anything other than exactly 1. That includes unbounded cardinality, because the code tests `== 1` and nothing else.
