/** Value-set membership in two phases. `Preview` looks at every input row once, works out
    which of the codings present belong to a value set by asking the terminology server to
    expand the intersection of the value set with those codings, and returns that membership
    set; `Call` then answers, row by row, whether a row's codings meet the membership set.

    The terminology server is a record of two functions: the number of code systems a search
    by URI finds, and the codings an expansion returns. Every request made to it is recorded,
    in order, so that what the server was asked is part of the result. */
module MemberOf {
  import opened Options

  /** A coding with its three nullable fields; equality is structural. */
  datatype Coding = Coding(system: Option<string>, code: Option<string>, version: Option<string>)

  /** The (system, version) pair a coding belongs to. */
  datatype CodeSystemReference = CodeSystemReference(system: Option<string>, version: Option<string>)

  /** One `compose.include` block of a FHIR R4 ValueSet: the value sets it draws from, the code
      system and version, and the codes of its concepts. */
  datatype Include = Include(valueSet: seq<string>, system: string, version: Option<string>,
                             concepts: seq<Option<string>>)

  datatype ValueSet = ValueSet(includes: seq<Include>)

  /** A request to the terminology server: a CodeSystem search by URI asking for the listed
      elements only, or a `$expand` of a value set with a size hint. */
  datatype Request =
    | SearchCodeSystems(uri: string, elements: set<string>)
    | Expand(valueSet: ValueSet, count: nat)

  datatype TerminologyClient = TerminologyClient(
    searchCount: string -> nat,
    expand: (ValueSet, nat) -> seq<Coding>)

  /** An input row: a nullable list of nullable codings. */
  type Row = Option<seq<Option<Coding>>>

  /** The reference of a coding. */
  function ReferenceOf(c: Coding): CodeSystemReference
  {
    CodeSystemReference(c.system, c.version)
  }

  /** The version-agnostic matching rule of a code-system reference: the systems must both be
      present and equal, and the versions must be equal too when both are present. */
  function MatchesCoding(reference: CodeSystemReference, coding: Coding): (r: bool)
  {
    if reference.system.None? || coding.system.None? then false
    else
      var eitherSideIsMissingVersion := reference.version.None? || coding.version.None?;
      var versionAgnosticTest := reference.system.value == coding.system.value;
      if eitherSideIsMissingVersion then versionAgnosticTest
      else versionAgnosticTest && reference.version.value == coding.version.value
  }

  /** The matching rule in three cases: no match without both systems; systems only when a
      version is missing; systems and versions when both are present. */
  lemma MatchesCodingCases(reference: CodeSystemReference, coding: Coding)
    ensures reference.system.None? || coding.system.None? ==> !MatchesCoding(reference, coding)
    ensures reference.system.Some? && coding.system.Some? &&
            (reference.version.None? || coding.version.None?) ==>
              (MatchesCoding(reference, coding) <==> reference.system == coding.system)
    ensures reference.version.Some? && coding.version.Some? ==>
              (MatchesCoding(reference, coding) <==> reference == ReferenceOf(coding) && coding.system.Some?)
  {
  }

  /** A coding with a system matches its own reference, and a versionless reference matches
      every coding of its system whatever the coding's version. */
  lemma MatchesOwnReference(coding: Coding, version: Option<string>)
    requires coding.system.Some?
    ensures MatchesCoding(ReferenceOf(coding), coding)
    ensures MatchesCoding(CodeSystemReference(coding.system, None), Coding(coding.system, coding.code, version))
  {
  }

  // ---------------------------------------------------------------------------------------
  // The sets `Preview` derives.
  // ---------------------------------------------------------------------------------------

  /** The defined codings of one row; none for a null row. */
  function RowCodings(row: Row, isDefined: Coding -> bool): set<Coding>
  {
    if row.None? then {}
    else set j | 0 <= j < |row.value| && row.value[j].Some? && isDefined(row.value[j].value)
             :: row.value[j].value
  }

  /** The distinct non-null, defined codings of the non-null rows. */
  function Collected(input: seq<Row>, isDefined: Coding -> bool): (codings: set<Coding>)
    ensures forall c :: c in codings <==>
      exists i, j :: 0 <= i < |input| && input[i].Some? && 0 <= j < |input[i].value| &&
                     input[i].value[j] == Some(c) && isDefined(c)
  {
    if |input| == 0 then {}
    else
      var rest := Collected(input[1..], isDefined);
      assert forall i | 1 <= i < |input| :: input[1..][i - 1] == input[i];
      RowCodings(input[0], isDefined) + rest
  }

  /** Collecting is insensitive to how the rows are split into batches. */
  lemma {:induction false} CollectedAppend(a: seq<Row>, b: seq<Row>, isDefined: Coding -> bool)
    ensures Collected(a + b, isDefined) == Collected(a, isDefined) + Collected(b, isDefined)
    decreases |a|
  {
    if |a| == 0 {
      assert a + b == b;
    } else {
      CollectedAppend(a[1..], b, isDefined);
      assert (a + b)[1..] == a[1..] + b;
    }
  }

  /** The references of the codings that have a system. */
  function CodeSystems(codings: set<Coding>): (references: set<CodeSystemReference>)
    ensures forall r | r in references :: r.system.Some?
  {
    set c | c in codings && c.system.Some? :: ReferenceOf(c)
  }

  /** Every reference comes from a collected coding with a system, and each such coding gives
      one. */
  lemma CodeSystemsOrigin(codings: set<Coding>, r: CodeSystemReference)
    ensures r in CodeSystems(codings) <==>
      exists c :: c in codings && c.system.Some? && r == ReferenceOf(c)
  {
    if r in CodeSystems(codings) {
      var c :| c in codings && c.system.Some? && r == ReferenceOf(c);
    }
  }

  /** The system URIs the server recognises: those whose search finds something. */
  ghost function KnownUris(codeSystems: set<CodeSystemReference>, searchCount: string -> nat): set<string>
  {
    set r | r in codeSystems && r.system.Some? && searchCount(r.system.value) > 0 :: r.system.value
  }

  /** The references whose system is among the known URIs. */
  function Filtered(codeSystems: set<CodeSystemReference>, knownUris: set<string>): (survivors: set<CodeSystemReference>)
    ensures survivors <= codeSystems
  {
    set r | r in codeSystems && r.system.Some? && r.system.value in knownUris
  }

  /** A reference survives exactly when the search for its own system found something: an
      unknown system drops its references and nothing else. */
  lemma Survives(codeSystems: set<CodeSystemReference>, searchCount: string -> nat, r: CodeSystemReference)
    ensures r in Filtered(codeSystems, KnownUris(codeSystems, searchCount)) <==>
      r in codeSystems && r.system.Some? && searchCount(r.system.value) > 0
  {
    var known := KnownUris(codeSystems, searchCount);
    if r in codeSystems && r.system.Some? && searchCount(r.system.value) > 0 {
      assert r.system.value in known;
    }
    if r in Filtered(codeSystems, known) {
      assert r.system.value in known;
      var r' :| r' in codeSystems && r'.system.Some? && searchCount(r'.system.value) > 0 &&
                r'.system.value == r.system.value;
    }
  }

  /** The collected codings a reference matches. */
  ghost function Matching(codings: set<Coding>, reference: CodeSystemReference): set<Coding>
  {
    set c | c in codings && MatchesCoding(reference, c)
  }

  /** The references that get an include block: the survivors that match some coding. */
  ghost function IncludedReferences(filtered: set<CodeSystemReference>, codings: set<Coding>): set<CodeSystemReference>
  {
    set r | r in filtered && Matching(codings, r) != {}
  }

  /** A collected coding whose system the server knows is covered by the include block of its
      own reference, so no such coding is left out of the intersection. */
  lemma KnownCodingIsIncluded(codings: set<Coding>, searchCount: string -> nat, c: Coding)
    requires c in codings && c.system.Some? && searchCount(c.system.value) > 0
    ensures var codeSystems := CodeSystems(codings);
      var included := IncludedReferences(Filtered(codeSystems, KnownUris(codeSystems, searchCount)), codings);
      ReferenceOf(c) in included && c in Matching(codings, ReferenceOf(c))
  {
    var codeSystems := CodeSystems(codings);
    assert ReferenceOf(c) in codeSystems;
    Survives(codeSystems, searchCount, ReferenceOf(c));
    MatchesOwnReference(c, None);
    assert c in Matching(codings, ReferenceOf(c));
  }

  // ---------------------------------------------------------------------------------------
  // Enumerations: the order in which a loop visits a set.
  // ---------------------------------------------------------------------------------------

  /** `xs` lists each element of `s` exactly once. */
  ghost predicate Enumerates<T(!new)>(xs: seq<T>, s: set<T>)
  {
    && (forall i, j | 0 <= i < j < |xs| :: xs[i] != xs[j])
    && (forall x :: x in xs <==> x in s)
  }

  lemma {:induction false} EnumerationLength<T(!new)>(xs: seq<T>, s: set<T>)
    requires Enumerates(xs, s)
    ensures |xs| == |s|
    decreases |xs|
  {
    if |xs| > 0 {
      var last := xs[|xs| - 1];
      var init := xs[..|xs| - 1];
      assert forall x :: x in init <==> x in s - {last} by {
        forall x
          ensures x in init <==> x in s - {last}
        {
          if x in init {
            var k :| 0 <= k < |init| && init[k] == x;
            assert xs[k] == x && xs[k] != xs[|xs| - 1];
          }
          if x in s - {last} {
            assert x in xs;
            var k :| 0 <= k < |xs| && xs[k] == x;
            assert k < |xs| - 1;
            assert init[k] == x;
          }
        }
      }
      EnumerationLength(init, s - {last});
    }
  }

  /** The codes of a list of codings, in order. */
  function Codes(codings: seq<Coding>): (codes: seq<Option<string>>)
    ensures |codes| == |codings|
    ensures forall i | 0 <= i < |codings| :: codes[i] == codings[i].code
  {
    if |codings| == 0 then [] else Codes(codings[..|codings| - 1]) + [codings[|codings| - 1].code]
  }

  /** The search requests for a list of references, in order. */
  function Searches(references: seq<CodeSystemReference>): (requests: seq<Request>)
    requires forall k | 0 <= k < |references| :: references[k].system.Some?
    ensures |requests| == |references|
    ensures forall k | 0 <= k < |references| ::
      requests[k] == SearchCodeSystems(references[k].system.value, {"id"})
  {
    if |references| == 0 then []
    else Searches(references[..|references| - 1]) +
         [SearchCodeSystems(references[|references| - 1].system.value, {"id"})]
  }

  /** One search per reference, in some order of the references. */
  ghost predicate SearchesEach(searches: seq<Request>, codeSystems: set<CodeSystemReference>)
  {
    exists order: seq<CodeSystemReference> :: Enumerates(order, codeSystems) &&
      (forall k | 0 <= k < |order| :: order[k].system.Some?) && searches == Searches(order)
  }

  /** The concepts of an include block: one code per matching coding, in some order of them. */
  ghost predicate ConceptsOf(concepts: seq<Option<string>>, matching: set<Coding>)
  {
    exists order: seq<Coding> :: Enumerates(order, matching) && concepts == Codes(order)
  }

  /** The include block of a reference: the value set, the reference's system and version, and
      the codes of exactly the codings it matches. */
  ghost predicate IsIncludeFor(block: Include, valueSetUri: string, reference: CodeSystemReference,
                               codings: set<Coding>)
  {
    && reference.system.Some?
    && block.valueSet == [valueSetUri]
    && block.system == reference.system.value
    && block.version == reference.version
    && ConceptsOf(block.concepts, Matching(codings, reference))
  }

  /** One block per included reference, in some order of them. */
  ghost predicate IncludesFor(includes: seq<Include>, valueSetUri: string,
                              included: set<CodeSystemReference>, codings: set<Coding>)
  {
    exists order: seq<CodeSystemReference> :: Enumerates(order, included) && |includes| == |order| &&
      forall k | 0 <= k < |order| :: IsIncludeFor(includes[k], valueSetUri, order[k], codings)
  }

  /** The elements of a list. */
  function Elements<T(!new)>(xs: seq<T>): (s: set<T>)
    ensures forall x :: x in s <==> x in xs
  {
    set x | x in xs
  }

  // ---------------------------------------------------------------------------------------
  // The preview phase.
  // ---------------------------------------------------------------------------------------

  /** Visiting one more element extends an enumeration. */
  lemma EnumerationSnoc<T(!new)>(xs: seq<T>, s: set<T>, x: T)
    requires Enumerates(xs, s) && x !in s
    ensures Enumerates(xs + [x], s + {x})
  {
    assert forall y :: y in xs + [x] <==> y in xs || y == x;
  }

  lemma SearchesSnoc(references: seq<CodeSystemReference>, r: CodeSystemReference)
    requires forall k | 0 <= k < |references| :: references[k].system.Some?
    requires r.system.Some?
    ensures Searches(references + [r]) == Searches(references) + [SearchCodeSystems(r.system.value, {"id"})]
  {
    assert (references + [r])[..|references|] == references;
  }

  lemma CodesSnoc(codings: seq<Coding>, c: Coding)
    ensures Codes(codings + [c]) == Codes(codings) + [c.code]
  {
    assert (codings + [c])[..|codings|] == codings;
  }

  lemma KnownUrisSnoc(visited: set<CodeSystemReference>, r: CodeSystemReference, searchCount: string -> nat)
    requires r.system.Some?
    ensures KnownUris(visited + {r}, searchCount) ==
      KnownUris(visited, searchCount) + (if searchCount(r.system.value) > 0 then {r.system.value} else {})
  {
  }

  lemma MatchingSnoc(visited: set<Coding>, c: Coding, reference: CodeSystemReference)
    ensures Matching(visited + {c}, reference) ==
      Matching(visited, reference) + (if MatchesCoding(reference, c) then {c} else {})
  {
  }

  lemma IncludedSnoc(visited: set<CodeSystemReference>, r: CodeSystemReference, codings: set<Coding>)
    ensures IncludedReferences(visited + {r}, codings) ==
      IncludedReferences(visited, codings) + (if Matching(codings, r) != {} then {r} else {})
  {
  }

  /** What the search loop knows after visiting some of the references in a given order. */
  ghost predicate SearchedSoFar(order: seq<CodeSystemReference>, visited: set<CodeSystemReference>,
                                searches: seq<Request>, knownUris: set<string>, searchCount: string -> nat)
  {
    && Enumerates(order, visited)
    && (forall k | 0 <= k < |order| :: order[k].system.Some?)
    && searches == Searches(order)
    && knownUris == KnownUris(visited, searchCount)
  }

  lemma SearchStep(order: seq<CodeSystemReference>, visited: set<CodeSystemReference>,
                   searches: seq<Request>, knownUris: set<string>, searchCount: string -> nat,
                   r: CodeSystemReference)
    requires SearchedSoFar(order, visited, searches, knownUris, searchCount)
    requires r.system.Some? && r !in visited
    ensures SearchedSoFar(order + [r], visited + {r}, searches + [SearchCodeSystems(r.system.value, {"id"})],
      knownUris + (if searchCount(r.system.value) > 0 then {r.system.value} else {}), searchCount)
  {
    EnumerationSnoc(order, visited, r);
    SearchesSnoc(order, r);
    KnownUrisSnoc(visited, r, searchCount);
  }

  lemma SearchDone(order: seq<CodeSystemReference>, codeSystems: set<CodeSystemReference>,
                   searches: seq<Request>, knownUris: set<string>, searchCount: string -> nat)
    requires SearchedSoFar(order, codeSystems, searches, knownUris, searchCount)
    ensures knownUris == KnownUris(codeSystems, searchCount)
    ensures SearchesEach(searches, codeSystems)
    ensures |searches| == |codeSystems|
  {
    EnumerationLength(order, codeSystems);
  }

  /** Searches the server once per reference and keeps the system URIs it knows. */
  method SearchKnownSystems(client: TerminologyClient, codeSystems: set<CodeSystemReference>)
    returns (knownUris: set<string>, searches: seq<Request>)
    requires forall r | r in codeSystems :: r.system.Some?
    ensures knownUris == KnownUris(codeSystems, client.searchCount)
    ensures SearchesEach(searches, codeSystems)
    ensures |searches| == |codeSystems|
  {
    knownUris := {};
    searches := [];
    var remaining := codeSystems;
    ghost var order: seq<CodeSystemReference> := [];
    while remaining != {}
      invariant remaining <= codeSystems
      invariant SearchedSoFar(order, codeSystems - remaining, searches, knownUris, client.searchCount)
      decreases |remaining|
    {
      var codeSystem :| codeSystem in remaining;
      knownUris, searches, order := SearchOne(client, codeSystems, remaining, codeSystem, knownUris, searches, order);
      remaining := remaining - {codeSystem};
    }
    assert codeSystems - remaining == codeSystems;
    SearchDone(order, codeSystems, searches, knownUris, client.searchCount);
  }

  /** One iteration of the search loop: search for one reference's system and remember the
      URI when the server knows it. */
  method SearchOne(client: TerminologyClient, codeSystems: set<CodeSystemReference>,
                   remaining: set<CodeSystemReference>, codeSystem: CodeSystemReference,
                   knownUris: set<string>, searches: seq<Request>, ghost order: seq<CodeSystemReference>)
    returns (knownUris': set<string>, searches': seq<Request>, ghost order': seq<CodeSystemReference>)
    requires codeSystem in remaining && remaining <= codeSystems
    requires codeSystem.system.Some?
    requires SearchedSoFar(order, codeSystems - remaining, searches, knownUris, client.searchCount)
    ensures SearchedSoFar(order', codeSystems - (remaining - {codeSystem}), searches', knownUris', client.searchCount)
  {
    var uri := codeSystem.system.value;
    SearchStep(order, codeSystems - remaining, searches, knownUris, client.searchCount, codeSystem);
    searches' := searches + [SearchCodeSystems(uri, {"id"})];
    knownUris' := if client.searchCount(uri) > 0 then knownUris + {uri} else knownUris;
    order' := order + [codeSystem];
    assert codeSystems - (remaining - {codeSystem}) == (codeSystems - remaining) + {codeSystem};
  }

  /** The codes of the codings a reference matches, in the order the codings are visited. */
  method MatchingConcepts(codings: set<Coding>, reference: CodeSystemReference)
    returns (concepts: seq<Option<string>>)
    ensures ConceptsOf(concepts, Matching(codings, reference))
    ensures concepts == [] <==> Matching(codings, reference) == {}
  {
    concepts := [];
    var remaining := codings;
    ghost var visited: set<Coding> := {};
    ghost var order: seq<Coding> := [];
    while remaining != {}
      invariant remaining <= codings && visited == codings - remaining
      invariant Enumerates(order, Matching(visited, reference))
      invariant concepts == Codes(order)
      decreases |remaining|
    {
      var coding :| coding in remaining;
      MatchingSnoc(visited, coding, reference);
      if MatchesCoding(reference, coding) {
        concepts := concepts + [coding.code];
        EnumerationSnoc(order, Matching(visited, reference), coding);
        CodesSnoc(order, coding);
        order := order + [coding];
      }
      remaining := remaining - {coding};
      visited := visited + {coding};
    }
    assert visited == codings;
    if order != [] {
      assert order[0] in Matching(codings, reference);
    }
  }

  /** What the include loop knows after visiting some of the references in a given order. */
  ghost predicate IncludedSoFar(order: seq<CodeSystemReference>, visited: set<CodeSystemReference>,
                                includes: seq<Include>, valueSetUri: string, codings: set<Coding>)
  {
    && Enumerates(order, IncludedReferences(visited, codings))
    && |includes| == |order|
    && (forall k | 0 <= k < |order| :: IsIncludeFor(includes[k], valueSetUri, order[k], codings))
  }

  lemma IncludeStep(order: seq<CodeSystemReference>, visited: set<CodeSystemReference>,
                    includes: seq<Include>, valueSetUri: string, codings: set<Coding>,
                    r: CodeSystemReference, concepts: seq<Option<string>>)
    requires IncludedSoFar(order, visited, includes, valueSetUri, codings)
    requires r.system.Some? && r !in visited
    requires ConceptsOf(concepts, Matching(codings, r))
    requires concepts == [] <==> Matching(codings, r) == {}
    ensures concepts == [] ==> IncludedSoFar(order, visited + {r}, includes, valueSetUri, codings)
    ensures concepts != [] ==>
      IncludedSoFar(order + [r], visited + {r},
        includes + [Include([valueSetUri], r.system.value, r.version, concepts)], valueSetUri, codings)
  {
    IncludedSnoc(visited, r, codings);
    if concepts != [] {
      var block := Include([valueSetUri], r.system.value, r.version, concepts);
      assert IsIncludeFor(block, valueSetUri, r, codings);
      EnumerationSnoc(order, IncludedReferences(visited, codings), r);
      var order' := order + [r];
      var includes' := includes + [block];
      forall k | 0 <= k < |order'|
        ensures IsIncludeFor(includes'[k], valueSetUri, order'[k], codings)
      {
        if k < |order| {
          assert includes'[k] == includes[k] && order'[k] == order[k];
        }
      }
    }
  }

  /** One include block per surviving reference that matches some coding. */
  method BuildIncludes(valueSetUri: string, filtered: set<CodeSystemReference>, codings: set<Coding>)
    returns (includes: seq<Include>)
    requires forall r | r in filtered :: r.system.Some?
    ensures IncludesFor(includes, valueSetUri, IncludedReferences(filtered, codings), codings)
    ensures includes == [] <==> IncludedReferences(filtered, codings) == {}
  {
    includes := [];
    var remaining := filtered;
    ghost var visited: set<CodeSystemReference> := {};
    ghost var order: seq<CodeSystemReference> := [];
    while remaining != {}
      invariant remaining <= filtered && visited == filtered - remaining
      invariant IncludedSoFar(order, visited, includes, valueSetUri, codings)
      decreases |remaining|
    {
      var codeSystem :| codeSystem in remaining;
      var concepts := MatchingConcepts(codings, codeSystem);
      IncludeStep(order, visited, includes, valueSetUri, codings, codeSystem, concepts);
      if concepts != [] {
        includes := includes + [Include([valueSetUri], codeSystem.system.value, codeSystem.version, concepts)];
        order := order + [codeSystem];
      }
      remaining := remaining - {codeSystem};
      visited := visited + {codeSystem};
    }
    assert visited == filtered;
    if order != [] {
      assert order[0] in IncludedReferences(filtered, codings);
    }
  }

  /** The preview phase over all input rows. With no rows at all the terminology client is
      neither built nor asked anything. Otherwise the server is searched once per code-system
      reference of the defined codings, and asked for one expansion, sized by the number of
      distinct codings, exactly when some known reference matches some coding; the result is
      the set of codings of that expansion. */
  method Preview(input: seq<Row>, isDefined: Coding -> bool, valueSetUri: string, client: TerminologyClient)
    returns (expanded: set<Coding>, clientBuilt: bool, requests: seq<Request>)
    ensures input == [] ==> expanded == {} && !clientBuilt && requests == []
    ensures input != [] ==>
      var codings := Collected(input, isDefined);
      var codeSystems := CodeSystems(codings);
      var filtered := Filtered(codeSystems, KnownUris(codeSystems, client.searchCount));
      var included := IncludedReferences(filtered, codings);
      var n := |codeSystems|;
      && clientBuilt
      && |requests| == n + (if included == {} then 0 else 1)
      && SearchesEach(requests[..n], codeSystems)
      && (included == {} ==> expanded == {})
      && (included != {} ==>
            && requests[n].Expand?
            && requests[n].count == |codings|
            && IncludesFor(requests[n].valueSet.includes, valueSetUri, included, codings)
            && expanded == Elements(client.expand(requests[n].valueSet, |codings|)))
  {
    if input == [] {
      return {}, false, [];
    }
    var codings := Collected(input, isDefined);
    var codeSystems := CodeSystems(codings);
    clientBuilt := true;
    var knownUris, searches := SearchKnownSystems(client, codeSystems);
    var filteredCodeSystems := Filtered(codeSystems, knownUris);
    var includes := BuildIncludes(valueSetUri, filteredCodeSystems, codings);
    var intersection := ValueSet(includes);
    if includes == [] {
      expanded := {};
      requests := searches;
    } else {
      var expansion := client.expand(intersection, |codings|);
      expanded := Elements(expansion);
      requests := searches + [Expand(intersection, |codings|)];
      assert requests[..|codeSystems|] == searches;
    }
  }

  // ---------------------------------------------------------------------------------------
  // The per-row phase.
  // ---------------------------------------------------------------------------------------

  /** Whether some non-null element of a list is in the set. */
  function SharesElement(list: seq<Option<Coding>>, state: set<Coding>): (r: bool)
    ensures r <==> exists i :: 0 <= i < |list| && list[i].Some? && list[i].value in state
  {
    if |list| == 0 then false
    else
      assert forall i | 1 <= i < |list| :: list[1..][i - 1] == list[i];
      (list[0].Some? && list[0].value in state) || SharesElement(list[1..], state)
  }

  /** The three-valued membership test of a row: null for a null row, otherwise whether the
      row's codings and the membership set are not disjoint. */
  function Call(input: Row, state: set<Coding>): (r: Option<bool>)
    ensures r.None? <==> input.None?
    ensures r.Some? ==>
      (r.value <==> exists i :: 0 <= i < |input.value| && input.value[i].Some? && input.value[i].value in state)
  {
    if input.Some? then Some(SharesElement(input.value, state)) else None
  }

  /** An empty row is never a member, and membership of a row is the disjunction of the
      membership of its two halves. */
  lemma {:induction false} CallAppend(a: seq<Option<Coding>>, b: seq<Option<Coding>>, state: set<Coding>)
    ensures Call(Some([]), state) == Some(false)
    ensures Call(Some(a + b), state).value <==> Call(Some(a), state).value || Call(Some(b), state).value
  {
    var ab := a + b;
    if Call(Some(ab), state).value {
      var i :| 0 <= i < |ab| && ab[i].Some? && ab[i].value in state;
      if i >= |a| {
        assert b[i - |a|] == ab[i];
      }
    }
    if Call(Some(b), state).value {
      var i :| 0 <= i < |b| && b[i].Some? && b[i].value in state;
      assert ab[|a| + i] == b[i];
    }
    if Call(Some(a), state).value {
      var i :| 0 <= i < |a| && a[i].Some? && a[i].value in state;
      assert ab[i] == a[i];
    }
  }

  /** Membership is tested by structural equality of codings: a versionless coding is not a
      member of a set that holds the same system and code under a version. */
  lemma VersionlessCodingIsNotAMember()
    ensures var state := {Coding(Some("sys1"), Some("A"), Some("2"))};
      Call(Some([Some(Coding(Some("sys1"), Some("A"), None))]), state) == Some(false)
  {
  }

  /** Codings from two systems of which the server knows one give exactly one include block,
      so the preview asks for one expansion. */
  lemma OneKnownSystemOneInclude(searchCount: string -> nat)
    requires searchCount("sys1") > 0 && searchCount("sys2") == 0
    ensures var codings := {Coding(Some("sys1"), Some("A"), None), Coding(Some("sys2"), Some("B"), None)};
      var codeSystems := CodeSystems(codings);
      var filtered := Filtered(codeSystems, KnownUris(codeSystems, searchCount));
      IncludedReferences(filtered, codings) == {CodeSystemReference(Some("sys1"), None)}
  {
    var a := Coding(Some("sys1"), Some("A"), None);
    var b := Coding(Some("sys2"), Some("B"), None);
    var codings := {a, b};
    var codeSystems := CodeSystems(codings);
    var ra := ReferenceOf(a);
    var rb := ReferenceOf(b);
    assert codeSystems == {ra, rb};
    Survives(codeSystems, searchCount, ra);
    Survives(codeSystems, searchCount, rb);
    var filtered := Filtered(codeSystems, KnownUris(codeSystems, searchCount));
    assert filtered == {ra};
    assert a in Matching(codings, ra);
  }
}
