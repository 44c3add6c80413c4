/** Answering an inline query (bot.py): the query is lowercased and
    classified as empty, a single alphabetic word or a sentence; a word is
    followed by its nearest neighbours in the embedding index with the word
    itself taken out, and the list is cut to five candidates; each candidate is
    then turned into a result by `query_result_dictionary`.

    The embedding search is not modelled: its answer for the word is the
    `neighbours` list given to the composer, which reports in `searched`
    whether it consulted it. The dictionary service is the function `api`
    from the word looked up to the response it would give. */
module InlineQuery {
  import opened Text
  import opened Sequences
  import opened Dictionary
  import opened Exceptions

  /** The number of candidates an answer is cut to (`queries[:5]`). */
  const MaxCandidates: nat := 5

  /** The three cases of `inline_query`. */
  datatype QueryKind = Empty | SingleWord | Sentence

  function Classify(query: string): (kind: QueryKind)
    ensures kind == Empty <==> query == []
    ensures kind == SingleWord <==> IsAlpha(query)
    ensures kind == Sentence <==> query != [] && !IsAlpha(query)
  {
    if query == [] then Empty else if IsAlpha(query) then SingleWord else Sentence
  }

  /** The neighbours with the first occurrence of the word taken out, as
      `if query in queries: queries.remove(query)` leaves them. */
  function WithoutQuery(query: string, neighbours: seq<string>): seq<string> {
    if query in neighbours then RemoveFirst(neighbours, query) else neighbours
  }

  /** The candidate list of lines 109-125 for the raw query text. */
  function Candidates(raw: string, neighbours: seq<string>): seq<string> {
    var query := Lower(raw);
    match Classify(query)
    case Empty => []
    case SingleWord =>
      var all := [query] + WithoutQuery(query, neighbours);
      all[..if |all| < MaxCandidates then |all| else MaxCandidates]
    case Sentence => [query]
  }

  /** Lines 109-125, updating the list in place as the source does. */
  method ComposeCandidates(raw: string, neighbours: seq<string>) returns (queries: seq<string>, searched: bool)
    ensures queries == Candidates(raw, neighbours)
    ensures searched <==> IsAlpha(Lower(raw))
  {
    var query := Lower(raw);
    if query == [] {
      queries, searched := [], false;
    } else if IsAlpha(query) {
      queries, searched := neighbours, true;
      if query in queries {
        queries := RemoveFirst(queries, query);
      }
      queries := [query] + queries;
      if |queries| > MaxCandidates {
        queries := queries[..MaxCandidates];
      }
    } else {
      queries, searched := [query], false;
    }
  }

  /** An empty query has no candidates. */
  lemma EmptyQueryHasNoCandidates(neighbours: seq<string>)
    ensures Candidates("", neighbours) == []
  {
  }

  /** However many neighbours the search returns, there are at most five
      candidates. */
  lemma AtMostFiveCandidates(raw: string, neighbours: seq<string>)
    ensures |Candidates(raw, neighbours)| <= MaxCandidates
  {
  }

  /** For a word, the lowercased word is the first candidate and the others
      are the leading neighbours once the word is taken out, in the order the
      search returned them: as many as fit in five candidates. */
  lemma {:induction false} WordComesFirstThenNeighbours(raw: string, neighbours: seq<string>)
    requires IsAlpha(raw)
    ensures var c := Candidates(raw, neighbours);
      |c| >= 1 && c[0] == Lower(raw) &&
      |c| == (if 1 + |WithoutQuery(Lower(raw), neighbours)| < MaxCandidates
              then 1 + |WithoutQuery(Lower(raw), neighbours)| else MaxCandidates) &&
      c[1..] == WithoutQuery(Lower(raw), neighbours)[..|c| - 1] &&
      IsSubsequence(c[1..], neighbours)
  {
    var query := Lower(raw);
    var rest := WithoutQuery(query, neighbours);
    var c := Candidates(raw, neighbours);
    var all := [query] + rest;
    assert c == all[..|c|];
    assert c[1..] == rest[..|c| - 1];
    if query in neighbours {
      DeletionIsSubsequence(neighbours, FirstIndex(neighbours, query));
    } else {
      SubsequenceReflexive(neighbours);
    }
    PrefixOfSubsequence(rest, neighbours, |c| - 1);
  }

  /** When the search returns the word at most once, the word is a candidate
      exactly once: its occurrence among the neighbours is removed before it
      is put first. */
  lemma {:induction false} WordOccursOnce(raw: string, neighbours: seq<string>)
    requires IsAlpha(raw)
    requires multiset(neighbours)[Lower(raw)] <= 1
    ensures multiset(Candidates(raw, neighbours))[Lower(raw)] == 1
  {
    var query := Lower(raw);
    var rest := WithoutQuery(query, neighbours);
    var c := Candidates(raw, neighbours);
    var all := [query] + rest;
    if query in neighbours {
      RemoveFirstMultiset(neighbours, query);
    }
    assert multiset(rest)[query] == 0;
    assert multiset(all)[query] == 1;
    assert c == all[..|c|];
    PrefixMultiset(all, |c|);
    assert c[0] == query;
  }

  /** Without duplicates among the neighbours, taking out the word leaves
      no copy of it. */
  lemma QueryLeavesNeighbours(query: string, neighbours: seq<string>)
    requires NoDuplicates(neighbours)
    ensures query !in WithoutQuery(query, neighbours)
  {
    if query in neighbours {
      var i := FirstIndex(neighbours, query);
      var before, after := neighbours[..i], neighbours[i + 1..];
      assert query !in after by {
        forall k | 0 <= k < |after|
          ensures after[k] != query
        {
          assert after[k] == neighbours[i + 1 + k];
        }
      }
      assert WithoutQuery(query, neighbours) == before + after;
    }
  }

  /** Neighbours without duplicates give candidates without duplicates. */
  lemma {:induction false} CandidatesAreDistinct(raw: string, neighbours: seq<string>)
    requires NoDuplicates(neighbours)
    ensures NoDuplicates(Candidates(raw, neighbours))
  {
    var query := Lower(raw);
    if IsAlpha(query) {
      var c := Candidates(raw, neighbours);
      var rest := WithoutQuery(query, neighbours);
      WordComesFirstThenNeighbours(raw, neighbours);
      var tail := c[1..];
      assert tail == rest[..|c| - 1];
      SubsequenceKeepsDistinct(tail, neighbours);
      QueryLeavesNeighbours(query, neighbours);
      assert query !in tail by {
        assert forall k :: 0 <= k < |tail| ==> tail[k] == rest[k];
      }
      assert c == [query] + tail;
    }
  }

  /** A non-empty query that is not a single alphabetic word is its own only
      candidate, and the search results play no part. */
  lemma SentenceIsItsOwnCandidate(raw: string, neighbours: seq<string>, other: seq<string>)
    requires raw != [] && !IsAlpha(raw)
    ensures Candidates(raw, neighbours) == [Lower(raw)]
    ensures Candidates(raw, neighbours) == Candidates(raw, other)
  {
  }

  /** The record `query_result_dictionary` returns, without its random id
      and its pronunciation URL. */
  datatype QueryResult = QueryResult(sentence: string, description: string, message: string)

  /** Lines 84-106: a capitalised alphabetic word is looked up and described
      by its meanings; anything else is shown in bold with no description. */
  function ResultFor(candidate: string, api: string -> Response): Raising<QueryResult> {
    var sentence := Capitalize(candidate);
    if IsAlpha(sentence) then
      match DefinitionOf(sentence, api(sentence))
      case Raised(e) => Raised(e)
      case Returned(def) =>
        Returned(QueryResult(sentence, Join("\n", def.meanings), Join("\n", MessageLines(def))))
    else
      Returned(QueryResult(sentence, "", "*" + sentence + "*"))
  }

  /** `query_result_dictionary`. */
  method QueryResultDictionary(candidate: string, api: string -> Response) returns (r: Raising<QueryResult>)
    ensures r == ResultFor(candidate, api)
  {
    var sentence := Capitalize(candidate);
    if IsAlpha(sentence) {
      var word := sentence;
      var definition := GetWordDefinition(word, api(word));
      if definition.Raised? {
        r := Raised(definition.error);
        return;
      }
      var message := DefinitionMessage(definition.value);
      var description := Join("\n", definition.value.meanings);
      r := Returned(QueryResult(sentence, description, message));
    } else {
      var message := "*" + sentence + "*";
      r := Returned(QueryResult(sentence, "", message));
    }
  }

  /** A candidate that is not a single alphabetic word is never looked up:
      its result is the capitalised text in bold, whatever the service says. */
  lemma SentenceResultSkipsLookup(candidate: string, api: string -> Response, other: string -> Response)
    requires !IsAlpha(candidate)
    ensures ResultFor(candidate, api) == ResultFor(candidate, other)
    ensures ResultFor(candidate, api) ==
      Returned(QueryResult(Capitalize(candidate), "", "*" + Capitalize(candidate) + "*"))
  {
  }

  /** A word's result is titled with the capitalised word, described by its
      meanings one per line, and its message opens with the defined word in
      bold on a line of its own; only a malformed entry makes it raise, and
      never with `TypeError`. */
  lemma WordResultShowsDefinition(candidate: string, api: string -> Response)
    requires IsAlpha(candidate)
    ensures var sentence := Capitalize(candidate);
      match DefinitionOf(sentence, api(sentence))
      case Raised(e) => ResultFor(candidate, api) == Raised(e) && e != TypeError
      case Returned(def) =>
        var head := "*" + def.word + "*\n";
        ResultFor(candidate, api).Returned? &&
        ResultFor(candidate, api).value.sentence == sentence &&
        ResultFor(candidate, api).value.description == Join("\n", def.meanings) &&
        |head| <= |ResultFor(candidate, api).value.message| &&
        ResultFor(candidate, api).value.message[..|head|] == head
  {
    var sentence := Capitalize(candidate);
    DefinitionErrors(sentence, api(sentence));
    match DefinitionOf(sentence, api(sentence))
    case Raised(e) =>
    case Returned(def) =>
      var lines := MessageLines(def);
      assert lines == [lines[0]] + lines[1..];
      JoinAppend("\n", [lines[0]], lines[1..]);
  }

  /** The result of each candidate, in order. */
  function Outcomes(candidates: seq<string>, api: string -> Response): (outcomes: seq<Raising<QueryResult>>)
    ensures |outcomes| == |candidates|
    ensures forall i :: 0 <= i < |candidates| ==> outcomes[i] == ResultFor(candidates[i], api)
  {
    seq(|candidates|, i requires 0 <= i < |candidates| => ResultFor(candidates[i], api))
  }

  /** The results for a list of candidates, in order; the first exception
      raised aborts the whole answer. */
  function ResultsFor(candidates: seq<string>, api: string -> Response): Raising<seq<QueryResult>> {
    Sequenced(Outcomes(candidates, api))
  }

  /** Lines 128-148: one result per candidate, appended in a loop; an
      exception raised for a candidate ends the answer. */
  method BuildResults(queries: seq<string>, api: string -> Response) returns (answer: Raising<seq<QueryResult>>)
    ensures answer == ResultsFor(queries, api)
  {
    ghost var outcomes := Outcomes(queries, api);
    var results: seq<QueryResult> := [];
    var i := 0;
    while i < |queries|
      invariant 0 <= i <= |queries|
      invariant |results| == i
      invariant forall k :: 0 <= k < i ==> outcomes[k].Returned? && results[k] == outcomes[k].value
    {
      var result := QueryResultDictionary(queries[i], api);
      assert result == outcomes[i];
      if result.Raised? {
        SequencedRaised(outcomes, i);
        answer := Raised(result.error);
        return;
      }
      results := results + [result.value];
      i := i + 1;
    }
    SequencedReturned(outcomes);
    assert results == Sequenced(outcomes).value;
    answer := Returned(results);
  }

  /** `inline_query` up to the call that sends the answer: the candidate
      list, then its results. */
  method AnswerInlineQuery(raw: string, neighbours: seq<string>, api: string -> Response)
    returns (answer: Raising<seq<QueryResult>>)
    ensures answer == ResultsFor(Candidates(raw, neighbours), api)
  {
    var queries, searched := ComposeCandidates(raw, neighbours);
    answer := BuildResults(queries, api);
  }

  /** An answer holds at most five results, one per candidate; for a word
      the first is titled with the capitalised word itself. */
  lemma AnswerIsCapped(raw: string, neighbours: seq<string>, api: string -> Response)
    ensures ResultsFor(Candidates(raw, neighbours), api).Returned? ==>
      var results := ResultsFor(Candidates(raw, neighbours), api).value;
      |results| == |Candidates(raw, neighbours)| <= MaxCandidates &&
      (forall i :: 0 <= i < |results| ==> Returned(results[i]) == ResultFor(Candidates(raw, neighbours)[i], api)) &&
      (raw == [] ==> results == []) &&
      (IsAlpha(raw) ==> results[0].sentence == Capitalize(raw))
  {
    var c := Candidates(raw, neighbours);
    SequencedReturned(Outcomes(c, api));
    if IsAlpha(raw) {
      WordComesFirstThenNeighbours(raw, neighbours);
      CapitalizeIgnoresCase(raw);
    }
  }

  /** The candidate list for the word "cat": the word itself is removed from
      its neighbours and put first. */
  lemma CatExample()
    ensures Candidates("cat", ["cat", "kitten", "feline", "tabby", "dog"]) == ["cat", "kitten", "feline", "tabby", "dog"]
    ensures Candidates("Cat", ["kitten", "feline", "tabby", "dog", "puppy"]) == ["cat", "kitten", "feline", "tabby", "dog"]
  {
    assert Lower("cat") == "cat";
    assert Lower("Cat") == "cat";
    assert IsAlpha("cat");
  }

  /** A phrase is kept whole: its only candidate is the phrase itself. */
  lemma PhraseExample()
    ensures Candidates("the cat sat", []) == ["the cat sat"]
  {
    var phrase := "the cat sat";
    assert !IsLetter(phrase[3]);
    LowerOfLowerCase(phrase);
  }

  /** A phrase that is already lower case after its first character keeps
      its text in the result, only its first character upper-cased, and is
      shown in bold with no description: "the cat sat" becomes "The cat sat"
      and "*The cat sat*". */
  lemma LowerCasePhraseResult(phrase: string, api: string -> Response)
    requires phrase != [] && !IsAlpha(phrase)
    requires forall i :: 1 <= i < |phrase| ==> !IsUpperLetter(phrase[i])
    ensures var sentence := [UpperChar(phrase[0])] + phrase[1..];
      ResultFor(phrase, api) == Returned(QueryResult(sentence, "", "*" + sentence + "*"))
  {
    CapitalizeOfLowerTail(phrase);
    SentenceResultSkipsLookup(phrase, api, api);
  }
}
