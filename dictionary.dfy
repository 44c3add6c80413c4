/** Shaping a dictionary-service record into the bot's word definition
    (`get_word_definition`, bot.py) and rendering that definition as a
    Markdown message (`definition_message`, bot.py).

    The HTTP request itself is not modelled: its outcome is the `Response`
    given to `GetWordDefinition`. A parsed JSON object is a record whose keys
    the code reads are optional fields; `otherKeys` says whether the object
    has any key besides those, which matters only for Python's truth test
    `not dictionary` (an empty object is false). */
module Dictionary {
  import opened Text
  import opened Sequences
  import opened Exceptions

  datatype Option<T> = None | Some(value: T)

  /** One element of the entry's 'phonetics' list; its 'text' key is optional. */
  datatype Phonetic = Phonetic(text: Option<string>)

  /** One element of the entry's 'meanings' list: a part of speech and the
      'definition' text of each element of its 'definitions' list. */
  datatype Part = Part(partOfSpeech: string, definitions: seq<string>)

  /** What `free_dictionary_api` hands back. `NoBody` is the `None` it returns
      when the status is neither 200 nor 404; otherwise the parsed object:
      the first entry of a 200 reply, or the error object (with 'title') of a
      404 reply. */
  datatype Response =
    | NoBody
    | Record(title: Option<string>, word: Option<string>,
             phonetics: Option<seq<Phonetic>>, meanings: Option<seq<Part>>,
             otherKeys: bool)

  /** The Python truth test `not dictionary` on a parsed object. */
  predicate IsEmptyRecord(d: Response) {
    d.Record? && d.title.None? && d.word.None? && d.phonetics.None? && d.meanings.None? && !d.otherKeys
  }

  /** The `{word, phonetics, meanings}` dictionary the bot builds. */
  datatype WordDefinition = WordDefinition(word: string, phonetics: seq<string>, meanings: seq<string>)

  const RetryMessage: string :=
    "An error occurred. Wait a few seconds and try again. If the error persists, contact the developer."

  /** The 'text' of each phonetic that has one, in order. */
  function PhoneticTexts(ps: seq<Phonetic>): (texts: seq<string>)
    ensures |texts| <= |ps|
    ensures forall t :: t in texts <==> Phonetic(Some(t)) in ps
  {
    if ps == [] then []
    else
      var init, last := ps[..|ps| - 1], ps[|ps| - 1];
      assert ps == init + [last];
      PhoneticTexts(init) + (if last.text.Some? then [last.text.value] else [])
  }

  /** The texts of consecutive phonetics follow one another, so the loop
      keeps every text, duplicates included, in the order of the entry. */
  lemma {:induction false} PhoneticTextsAppend(a: seq<Phonetic>, b: seq<Phonetic>)
    ensures PhoneticTexts(a + b) == PhoneticTexts(a) + PhoneticTexts(b)
    decreases |b|
  {
    if b == [] {
      assert a + b == a;
    } else {
      var init, last := b[..|b| - 1], b[|b| - 1];
      var ab := a + b;
      assert ab[..|ab| - 1] == a + init;
      assert ab[|ab| - 1] == last;
      PhoneticTextsAppend(a, init);
    }
  }

  /** One phonetic contributes its 'text' if it has one, and nothing else. */
  lemma PhoneticTextsSingle(p: Phonetic)
    ensures PhoneticTexts([p]) == if p.text.Some? then [p.text.value] else []
  {
    assert [p][..0] == [];
  }

  /** One definition together with the part of speech it is listed under. */
  datatype Sense = Sense(partOfSpeech: string, definition: string)

  function PartSenses(part: Part): seq<Sense> {
    seq(|part.definitions|, j requires 0 <= j < |part.definitions| =>
      Sense(part.partOfSpeech, part.definitions[j]))
  }

  /** All definitions, part by part and, within a part, in listed order. */
  function Senses(parts: seq<Part>): seq<Sense> {
    if parts == [] then []
    else Senses(parts[..|parts| - 1]) + PartSenses(parts[|parts| - 1])
  }

  /** How many definitions the parts list in total. */
  function TotalDefinitions(parts: seq<Part>): nat {
    if parts == [] then 0 else |parts[0].definitions| + TotalDefinitions(parts[1..])
  }

  /** The line `f"{index}: {part['partOfSpeech']}. {meaning['definition']}"`. */
  function MeaningLine(index: nat, sense: Sense): string {
    NatToString(index) + ": " + sense.partOfSpeech + ". " + sense.definition
  }

  /** The meaning lines of a found entry, numbered from 1. */
  function NumberedMeanings(parts: seq<Part>): seq<string> {
    var senses := Senses(parts);
    seq(|senses|, k requires 0 <= k < |senses| => MeaningLine(k + 1, senses[k]))
  }

  /** Lines 56-71 for an object that passed the two guards: the entry's own
      word if it has one (else the looked-up word), then the phonetics, then
      the numbered meanings; a missing 'phonetics' or 'meanings' key raises. */
  function EntryDefinition(word: string, d: Response): Raising<WordDefinition>
    requires d.Record?
  {
    var shown := if d.word.Some? then Capitalize(d.word.value) else Capitalize(word);
    if d.phonetics.None? then Raised(KeyError("phonetics"))
    else if d.meanings.None? then Raised(KeyError("meanings"))
    else Returned(WordDefinition(shown, PhoneticTexts(d.phonetics.value), NumberedMeanings(d.meanings.value)))
  }

  /** `get_word_definition` as written: `'title' in dictionary` is evaluated
      before `not dictionary`, so a `None` response raises `TypeError`. */
  function DefinitionAsWritten(word: string, d: Response): Raising<WordDefinition> {
    if d.NoBody? then Raised(TypeError)
    else if d.title.Some? then Returned(WordDefinition(Capitalize(word), [], [d.title.value]))
    else if IsEmptyRecord(d) then Returned(WordDefinition(Capitalize(word), [], [RetryMessage]))
    else EntryDefinition(word, d)
  }

  /** `get_word_definition` with the emptiness guard first, which is what the
      retry message at line 50 is evidently for: `None` and `{}` both yield it. */
  function DefinitionOf(word: string, d: Response): Raising<WordDefinition> {
    if d.NoBody? || IsEmptyRecord(d) then Returned(WordDefinition(Capitalize(word), [], [RetryMessage]))
    else if d.title.Some? then Returned(WordDefinition(Capitalize(word), [], [d.title.value]))
    else EntryDefinition(word, d)
  }

  /** Lines 61-63: the 'text' of each phonetic that has one, appended in a
      loop. */
  method CollectPhonetics(ps: seq<Phonetic>) returns (phonetics: seq<string>)
    ensures phonetics == PhoneticTexts(ps)
  {
    phonetics := [];
    var i := 0;
    while i < |ps|
      invariant 0 <= i <= |ps|
      invariant phonetics == PhoneticTexts(ps[..i])
    {
      assert ps[..i + 1][..i] == ps[..i];
      if ps[i].text.Some? {
        phonetics := phonetics + [ps[i].text.value];
      }
      i := i + 1;
    }
    assert ps[..i] == ps;
  }

  /** Lines 65-69: one numbered line per definition, part by part, with a
      running counter. */
  method NumberMeanings(parts: seq<Part>) returns (meanings: seq<string>)
    ensures meanings == NumberedMeanings(parts)
  {
    meanings := [];
    var index := 1;
    var p := 0;
    while p < |parts|
      invariant 0 <= p <= |parts|
      invariant index == |meanings| + 1
      invariant |meanings| == |Senses(parts[..p])|
      invariant forall k :: 0 <= k < |meanings| ==> meanings[k] == MeaningLine(k + 1, Senses(parts[..p])[k])
    {
      var part := parts[p];
      ghost var done := Senses(parts[..p]);
      var j := 0;
      while j < |part.definitions|
        invariant 0 <= j <= |part.definitions|
        invariant index == |meanings| + 1
        invariant |meanings| == |done| + j
        invariant forall k :: 0 <= k < |meanings| ==>
          meanings[k] == MeaningLine(k + 1, (done + PartSenses(part))[k])
      {
        meanings := meanings + [MeaningLine(index, Sense(part.partOfSpeech, part.definitions[j]))];
        index := index + 1;
        j := j + 1;
      }
      assert parts[..p + 1][..p] == parts[..p];
      assert Senses(parts[..p + 1]) == done + PartSenses(part);
      p := p + 1;
    }
    assert parts[..p] == parts;
  }

  /** `get_word_definition`: the guards, then the phonetics and the numbered
      meanings appended one at a time as the source's loops do. */
  method GetWordDefinition(word: string, d: Response) returns (r: Raising<WordDefinition>)
    ensures r == DefinitionOf(word, d)
  {
    var shown := Capitalize(word);
    if d.NoBody? || IsEmptyRecord(d) {
      r := Returned(WordDefinition(shown, [], [RetryMessage]));
      return;
    }
    if d.title.Some? {
      r := Returned(WordDefinition(shown, [], [d.title.value]));
      return;
    }
    if d.word.Some? {
      shown := Capitalize(d.word.value);
    }
    if d.phonetics.None? {
      r := Raised(KeyError("phonetics"));
      return;
    }
    var phonetics := CollectPhonetics(d.phonetics.value);
    if d.meanings.None? {
      r := Raised(KeyError("meanings"));
      return;
    }
    var meanings := NumberMeanings(d.meanings.value);
    r := Returned(WordDefinition(shown, phonetics, meanings));
  }

  lemma {:induction false} TotalDefinitionsAppend(parts: seq<Part>, part: Part)
    ensures TotalDefinitions(parts + [part]) == TotalDefinitions(parts) + |part.definitions|
  {
    if parts != [] {
      assert (parts + [part])[1..] == parts[1..] + [part];
      TotalDefinitionsAppend(parts[1..], part);
    }
  }

  /** There is one sense per definition. */
  lemma {:induction false} SensesCount(parts: seq<Part>)
    ensures |Senses(parts)| == TotalDefinitions(parts)
  {
    if parts != [] {
      var init, last := parts[..|parts| - 1], parts[|parts| - 1];
      SensesCount(init);
      TotalDefinitionsAppend(init, last);
      assert init + [last] == parts;
    }
  }

  /** Definition `j` of part `p` is the sense just after all definitions of
      the parts before `p`. */
  lemma {:induction false} SenseAt(parts: seq<Part>, p: nat, j: nat)
    requires p < |parts| && j < |parts[p].definitions|
    ensures TotalDefinitions(parts[..p]) + j < |Senses(parts)|
    ensures Senses(parts)[TotalDefinitions(parts[..p]) + j] == Sense(parts[p].partOfSpeech, parts[p].definitions[j])
  {
    var n := |parts|;
    var init := parts[..n - 1];
    SensesCount(init);
    SensesCount(parts);
    if p == n - 1 {
      assert parts[..p] == init;
    } else {
      SenseAt(init, p, j);
      assert init[..p] == parts[..p] && init[p] == parts[p];
    }
  }

  /** The position, counted from 0, of definition `j` of part `p` when the
      definitions of all parts are listed one after another. */
  function Position(parts: seq<Part>, p: nat, j: nat): nat
    requires p <= |parts|
  {
    TotalDefinitions(parts[..p]) + j
  }

  /** The meanings of a found entry are numbered 1, 2, 3, ... in
      part-then-definition order, one per definition: definition `j` of part
      `p` is the line at its position, numbered one more than the position. */
  lemma {:induction false} MeaningsNumberedAcrossParts(parts: seq<Part>)
    ensures |NumberedMeanings(parts)| == TotalDefinitions(parts)
    ensures forall p: nat, j: nat :: p < |parts| && j < |parts[p].definitions| ==>
      Position(parts, p, j) < |NumberedMeanings(parts)| &&
      NumberedMeanings(parts)[Position(parts, p, j)] ==
        MeaningLine(Position(parts, p, j) + 1, Sense(parts[p].partOfSpeech, parts[p].definitions[j]))
  {
    SensesCount(parts);
    forall p: nat, j: nat | p < |parts| && j < |parts[p].definitions|
      ensures Position(parts, p, j) < |NumberedMeanings(parts)|
      ensures NumberedMeanings(parts)[Position(parts, p, j)] ==
        MeaningLine(Position(parts, p, j) + 1, Sense(parts[p].partOfSpeech, parts[p].definitions[j]))
    {
      var n := Position(parts, p, j);
      SenseAt(parts, p, j);
      assert NumberedMeanings(parts)[n] == MeaningLine(n + 1, Senses(parts)[n]);
    }
  }

  /** Each meaning line starts with its number, and the numbers can be read
      back: line `k` carries exactly the number `k + 1`. */
  lemma MeaningLineNumber(index: nat, sense: Sense)
    ensures MeaningLine(index, sense)[..|NatToString(index)| + 2] == NatToString(index) + ": "
    ensures ParseNat(MeaningLine(index, sense)[..|NatToString(index)|]) == index
  {
    var line := MeaningLine(index, sense);
    assert line[..|NatToString(index)|] == NatToString(index);
    ParseNatToString(index);
  }

  /** Distinct meaning lines carry distinct numbers: the number heading line
      `k` differs from the one heading line `l` whenever `k != l`. */
  lemma MeaningNumbersDistinct(parts: seq<Part>, k: nat, l: nat)
    requires k < |NumberedMeanings(parts)| && l < |NumberedMeanings(parts)| && k != l
    ensures NumberedMeanings(parts)[k][..|NatToString(k + 1)|] != NumberedMeanings(parts)[l][..|NatToString(l + 1)|]
  {
    var senses := Senses(parts);
    var a, b := NumberedMeanings(parts)[k], NumberedMeanings(parts)[l];
    assert a == MeaningLine(k + 1, senses[k]);
    assert b == MeaningLine(l + 1, senses[l]);
    assert a[..|NatToString(k + 1)|] == NatToString(k + 1);
    assert b[..|NatToString(l + 1)|] == NatToString(l + 1);
    if NatToString(k + 1) == NatToString(l + 1) {
      NatToStringInjective(k + 1, l + 1);
    }
  }

  /** A 404 reply (an object with 'title') gives that title as the only
      meaning, no phonetics, and the looked-up word. */
  lemma TitleRecordGivesTitleOnly(word: string, d: Response)
    requires d.Record? && d.title.Some?
    ensures DefinitionOf(word, d) == Returned(WordDefinition(Capitalize(word), [], [d.title.value]))
  {
  }

  /** The corrected definition never raises `TypeError`, and an entry can only
      fail for a missing 'phonetics' or 'meanings' key. */
  lemma DefinitionErrors(word: string, d: Response)
    ensures DefinitionOf(word, d).Raised? ==>
      d.Record? && !IsEmptyRecord(d) && d.title.None? &&
      (DefinitionOf(word, d).error == KeyError("phonetics") <==> d.phonetics.None?) &&
      (DefinitionOf(word, d).error == KeyError("meanings") <==> d.phonetics.Some? && d.meanings.None?)
    ensures DefinitionOf(word, d).Raised? ==>
      DefinitionOf(word, d).error == KeyError("phonetics") || DefinitionOf(word, d).error == KeyError("meanings")
    ensures DefinitionOf(word, d) != Raised(TypeError)
  {
  }

  /** As written, a response that is `None` (status neither 200 nor 404)
      raises `TypeError` at the 'title' test; with the guards in the intended
      order it yields the retry message. */
  lemma NoBodyRaisesAsWritten(word: string)
    ensures DefinitionAsWritten(word, NoBody) == Raised(TypeError)
    ensures DefinitionOf(word, NoBody) == Returned(WordDefinition(Capitalize(word), [], [RetryMessage]))
  {
  }

  /** On every parsed object the two orders of the guards agree. */
  lemma AsWrittenAgreesOnObjects(word: string, d: Response)
    requires d.Record?
    ensures DefinitionAsWritten(word, d) == DefinitionOf(word, d)
  {
  }

  /** The lines of the message `definition_message` builds: the word in bold,
      the phonetics joined by ", " if there are any, a blank line, then the
      meanings (the empty join of no meanings is one empty line). */
  function MessageLines(def: WordDefinition): seq<string> {
    ["*" + def.word + "*"]
    + (if def.phonetics != [] then [Join(", ", def.phonetics)] else [])
    + [""]
    + (if def.meanings != [] then def.meanings else [""])
  }

  /** `definition_message`, built by successive concatenation as the source
      does; the result is the message lines joined by newlines. */
  method DefinitionMessage(def: WordDefinition) returns (message: string)
    ensures message == Join("\n", MessageLines(def))
  {
    message := "";
    message := message + "*" + def.word + "*\n";
    if def.phonetics != [] {
      message := message + Join(", ", def.phonetics) + "\n";
    }
    message := message + "\n";
    message := message + Join("\n", def.meanings);

    ghost var bold := "*" + def.word + "*";
    ghost var head := [bold] + (if def.phonetics != [] then [Join(", ", def.phonetics)] else []);
    ghost var rest := if def.meanings != [] then def.meanings else [""];
    ghost var tail := [""] + rest;
    assert MessageLines(def) == head + tail;
    assert Join("\n", rest) == Join("\n", def.meanings);
    JoinAppend("\n", [""], rest);
    assert Join("\n", tail) == "\n" + Join("\n", def.meanings);
    if def.phonetics != [] {
      JoinAppend("\n", [bold], [Join(", ", def.phonetics)]);
      assert Join("\n", head) == bold + "\n" + Join(", ", def.phonetics);
    } else {
      assert Join("\n", head) == bold;
    }
    JoinAppend("\n", head, tail);
  }

  /** Reading the message back line by line recovers its parts, so the
      meanings are exactly the message's lines after the blank one, provided
      no part contains a newline itself. */
  lemma MessageSplitsIntoLines(def: WordDefinition)
    requires '\n' !in def.word
    requires forall i :: 0 <= i < |def.phonetics| ==> '\n' !in def.phonetics[i]
    requires forall i :: 0 <= i < |def.meanings| ==> '\n' !in def.meanings[i]
    ensures Split(Join("\n", MessageLines(def)), '\n') == MessageLines(def)
  {
    var lines := MessageLines(def);
    JoinAvoids(", ", def.phonetics, '\n');
    assert '\n' !in "*" + def.word + "*";
    forall i | 0 <= i < |lines|
      ensures '\n' !in lines[i]
    {
      var head := ["*" + def.word + "*"] + (if def.phonetics != [] then [Join(", ", def.phonetics)] else []);
      var meanings := if def.meanings != [] then def.meanings else [""];
      assert lines == head + [""] + meanings;
      if i >= |head| + 1 {
        assert lines[i] == meanings[i - |head| - 1];
      }
    }
    SplitJoin(lines, '\n');
  }
}
