# Word suggestions and definitions of a Telegram dictionary bot, modelled in Dafny

The bot answers an inline query with up to five candidates. An empty query
gets none. A single alphabetic word gets itself first, then its nearest
neighbours in a word-embedding index. Any other text is its own only
candidate. Each candidate becomes a result: a word is looked up in a public
dictionary service and shown with its phonetics and numbered meanings, and
anything else is shown in bold. The word list behind the index is cleaned
once, offline: missing rows, words with a non-word character and words with a
digit are dropped, and the rest are deduplicated in order of first appearance.

The project has six modules:

- `Text` (text.dfy): ASCII models of `str.isalpha`, `str.lower`,
  `str.capitalize`, `str.join`, `str.split` and the decimal rendering of a
  number.
- `Sequences` (sequences.dfy): the first occurrence that `list.remove`
  deletes, `list.remove` itself, and order preservation.
- `Vocabulary` (vocabulary.dfy): the cleaning pipeline of
  embedding_english.py, as pure functions.
- `Exceptions` (exceptions.dfy): the exceptions the code can raise, and the
  first-exception-wins outcome of calls made one after another.
- `Dictionary` (dictionary.dfy): `get_word_definition` and
  `definition_message`. They are methods with the source's loops and
  concatenations, proved against specification functions.
- `InlineQuery` (inline_query.dfy): the classification and candidate list of
  `inline_query`, `query_result_dictionary`, and the loop that builds one
  result per candidate.

These are inputs rather than modelled behaviour:

- The embedding search result is a `seq<string>` parameter.
- The dictionary service is a function `api` from the looked-up word to a
  `Response`. `NoBody` is the `None` that `free_dictionary_api` returns when the
  status is neither 200 nor 404. `Record` is a parsed JSON object, and each key
  the code reads is an optional field.
- Exceptions the code would raise are values of `Raising`.

The model follows the code in these details:

- The character filter keeps `\w`, so it keeps underscores as well as letters.
  Neither filter rejects an empty string.
- Deduplication keeps order of first appearance, because `Series.unique` does.
- The duplicate removal compares the lowercased query with the neighbours
  exactly, with no case folding of the neighbours.
- The candidate list holds the lowercased query. Capitalisation happens later,
  in `query_result_dictionary`.
- A malformed dictionary record raises an exception. It does not degrade to
  an empty answer.

## Model

| member | source | states |
|---|---|---|
| `Text.Lower` | bot.py:109 | the lowercased query has the same length, no upper-case letter, and is alphabetic exactly when the query is |
| `Text.Capitalize` | bot.py:85 | the capitalised text is the first character upper-cased followed by the rest lower-cased; it has the same length, a first character that is not lower case, no upper-case letter after it, and is alphabetic exactly when the input is |
| `Text.CapitalizeOfLowerTail` | bot.py:85 | text already lower case after its first character is capitalised by upper-casing that character alone |
| `Text.CapitalizeIgnoresCase` | bot.py:85-90 | capitalising a lowercased query gives the same as capitalising it directly, and capitalising twice changes nothing (the word looked up for a candidate is the capitalised candidate both in `query_result_dictionary` and in `get_word_definition`) |
| `Text.SplitJoin` | bot.py:80 | splitting a newline-joined list of newline-free lines on newlines gives the lines back |
| `Text.ParseNatToString` | bot.py:68 | the decimal number written at the head of a meaning line reads back as the number itself |
| `Sequences.FirstIndex` | bot.py:119 | the position of the occurrence `list.remove` deletes holds the value, and no earlier position does |
| `Sequences.RemoveFirst` | bot.py:119 | `list.remove` deletes exactly the first occurrence and keeps everything else in order |
| `Sequences.RemoveFirstMultiset` | bot.py:119 | `list.remove` takes away one copy of the value and nothing else |
| `Vocabulary.DropMissing` | embedding_english.py:4 | a word survives `dropna` exactly when some non-missing row holds it, and no rows are added |
| `Vocabulary.Keep` | embedding_english.py:5-6 | boolean-mask selection keeps exactly the words that pass the mask |
| `Vocabulary.UniqueAfter` | embedding_english.py:7 | deduplication keeps exactly the words not yet seen, each once |
| `Vocabulary.CleanVocabulary` | embedding_english.py:4-7 | a word is kept exactly when a non-missing row holds it and it has no non-word character and no digit; every character of a kept word is in `\w` and is not a digit; no word is kept twice |
| `Vocabulary.UniqueAfterKeepsFirstAppearanceOrder` | embedding_english.py:7 | `unique` lists the words in the order of their first appearance |
| `Vocabulary.KeepReflectsOrder` | embedding_english.py:5-6 | mask selection keeps the relative order of first appearances |
| `Vocabulary.DropMissingReflectsOrder` | embedding_english.py:4 | `dropna` keeps the relative order of first appearances |
| `Vocabulary.CleanVocabularyKeepsFirstAppearanceOrder` | embedding_english.py:3-7 | the cleaned vocabulary lists its words in the order in which they first occur among the rows of the word list |
| `Dictionary.PhoneticTexts` | bot.py:61-63 | a text is among the phonetics exactly when some phonetic of the entry has it as its 'text' |
| `Dictionary.PhoneticTextsAppend` | bot.py:61-63 | the texts of a list of phonetics are those of its first part followed by those of the rest, so every text is kept, duplicates included, in entry order |
| `Dictionary.PhoneticTextsSingle` | bot.py:62-63 | a single phonetic contributes its 'text' when it has one and nothing otherwise |
| `Dictionary.GetWordDefinition` | bot.py:36-71 | the definition built by the source's nested loops is the specification: the retry message for an absent or empty response, the title alone for an error object, else the entry's capitalised word, its phonetic texts and its numbered meanings, or the `KeyError` of a missing 'phonetics' or 'meanings' key |
| `Dictionary.CollectPhonetics` | bot.py:61-63 | the loop appending the 'text' of each phonetic that has one gives exactly the phonetic texts |
| `Dictionary.NumberMeanings` | bot.py:65-69 | the nested loops with their running counter give exactly the numbered meaning lines |
| `Dictionary.SensesCount` | bot.py:66-67 | there is one meaning per definition, over all parts of speech |
| `Dictionary.SenseAt` | bot.py:66-68 | definition `j` of part `p` comes right after all definitions of the earlier parts |
| `Dictionary.MeaningsNumberedAcrossParts` | bot.py:65-69 | the meanings of a found entry are numbered 1, 2, 3, ... in part-then-definition order, and their count is the total number of definitions |
| `Dictionary.MeaningLineNumber` | bot.py:68 | each meaning line starts with its number followed by ": ", and that number reads back as the line's index |
| `Dictionary.MeaningNumbersDistinct` | bot.py:65-69 | two different meaning lines of an entry never carry the same number |
| `Dictionary.TitleRecordGivesTitleOnly` | bot.py:45-47 | a record with 'title' gives a definition whose only meaning is the title, with no phonetics, for the capitalised looked-up word |
| `Dictionary.DefinitionErrors` | bot.py:45-71 | a definition fails only for a non-empty record without 'title', with `KeyError('phonetics')` exactly when 'phonetics' is missing and `KeyError('meanings')` exactly when only 'meanings' is missing; it never fails with `TypeError` |
| `Dictionary.NoBodyRaisesAsWritten` | bot.py:28-51 | as written, a `None` response raises `TypeError`; with the emptiness test first it gives the retry message |
| `Dictionary.AsWrittenAgreesOnObjects` | bot.py:45-51 | on every parsed object the guards in both orders give the same definition |
| `Exceptions.SequencedReturned` | bot.py:128-150 | results built one call after another succeed exactly when every call does, and then hold each call's value in order |
| `Exceptions.SequencedRaised` | bot.py:128-150 | results built one call after another raise the exception of the first call that raises |
| `Dictionary.DefinitionMessage` | bot.py:73-82 | the message built by concatenation is the word in bold, the comma-joined phonetics if any, a blank line, and the meanings, all joined by newlines |
| `Dictionary.MessageSplitsIntoLines` | bot.py:73-82 | when no part contains a newline, splitting the message on newlines gives back exactly those lines, so the meanings can be read back from it |
| `InlineQuery.Classify` | bot.py:111-125 | the query is empty, a single word exactly when `isalpha` holds, or a sentence otherwise |
| `InlineQuery.ComposeCandidates` | bot.py:109-125 | the list the source updates in place (remove, insert at 0, cut to five) is the candidate list, and the search is consulted exactly for an alphabetic query |
| `InlineQuery.EmptyQueryHasNoCandidates` | bot.py:113-114 | an empty query yields no candidates |
| `InlineQuery.AtMostFiveCandidates` | bot.py:122 | there are never more than five candidates, whatever the search returns |
| `InlineQuery.WordComesFirstThenNeighbours` | bot.py:117-122 | for an alphabetic query the lowercased query is the first candidate, and the rest are the leading neighbours once the query is removed, a subsequence of the search result in its own order; there are five candidates, or all of them when fewer than five remain |
| `InlineQuery.WordOccursOnce` | bot.py:119-121 | when the search returns the query at most once, the query is a candidate exactly once |
| `InlineQuery.CandidatesAreDistinct` | bot.py:117-125 | neighbours without duplicates give candidates without duplicates |
| `InlineQuery.SentenceIsItsOwnCandidate` | bot.py:124-125 | a non-empty, non-alphabetic query yields exactly the one-element list of the lowercased query, whatever the search would return |
| `InlineQuery.QueryResultDictionary` | bot.py:84-106 | the result record is the capitalised candidate, with the meanings and the definition message for an alphabetic word and the bolded text with no description otherwise |
| `InlineQuery.SentenceResultSkipsLookup` | bot.py:89-96 | a candidate that is not a single alphabetic word is never looked up: its result is the capitalised text in bold with an empty description |
| `InlineQuery.WordResultShowsDefinition` | bot.py:89-93 | a word's result is titled with the capitalised word, described by its meanings joined by newlines, and its message opens with the defined word in bold on its own line; a failure is the definition's own, never `TypeError` |
| `InlineQuery.Outcomes` | bot.py:129-130 | there is one outcome per candidate, and outcome `i` is the result of candidate `i` |
| `InlineQuery.BuildResults` | bot.py:128-148 | the loop appending one result per candidate gives all candidates' results in order, or the first exception raised |
| `InlineQuery.AnswerInlineQuery` | bot.py:108-150 | the answer is the results of the candidate list, in order, or the first exception raised |
| `InlineQuery.AnswerIsCapped` | bot.py:113-150 | a successful answer holds exactly one result per candidate, result `i` being that of candidate `i`, so at most five and none for an empty query; and for an alphabetic query the first is titled with the capitalised query |
| `InlineQuery.CatExample` | bot.py:117-122 | for "cat" the neighbour "cat" is dropped and the word goes first; with five other neighbours the last is cut off |
| `InlineQuery.PhraseExample` | bot.py:124-125 | "the cat sat" is its own only candidate |
| `InlineQuery.LowerCasePhraseResult` | bot.py:85-96 | a phrase already lower case after its first character keeps its text with only that character upper-cased, and is shown in bold with no description (so "the cat sat" gives "The cat sat" and "*The cat sat*") |

## Left out

- Telegram plumbing is not modelled: the application, the handler registration, polling, `answer`, `InlineQueryResultArticle` and the keyboards (bot.py:1-3, 128-160). It is I/O and asynchronous event handling. The answer is the list of result records, computed before it is sent.
- The embedding index is not modelled: loading it, building it, saving it and `get_similar_words` (bot.py:21-26, embedding_english.py:10-24). These are foreign library calls on floating-point vectors from a pretrained model. The neighbours are a parameter.
- The HTTP request in `free_dictionary_api` (bot.py:28-34) is not modelled. Its result is the `Response` the `api` parameter gives.
- Writing dictionary.json (bot.py:53-54) is a file side effect and is not modelled.
- `breakpoint()` on a record without 'word' (bot.py:58-59) is modelled as the debugger carrying on, so the capitalised looked-up word is kept.
- The random `uuid4` id and the `quote_plus` pronunciation URL (bot.py:86-87) are not modelled. They are randomness and library encoding.
- Reading the CSV file (embedding_english.py:3) is file I/O and is not modelled: its rows are the input. So is `print` (embedding_english.py:8).
- `load_dotenv`, the token lookup and the logging setup (bot.py:14-19) are environment I/O and are not modelled.
- Unicode is not modelled. `isalpha`, `lower`, `capitalize` and `\w` work on ASCII letters only.
- Dictionary.Response: malformed JSON shapes are not modelled, since a record's fields have the types a well-formed entry has. They are:
  - a part of 'meanings' without 'definitions' (`KeyError`, bot.py:67);
  - a part without 'partOfSpeech' (`KeyError` at bot.py:68, raised only when the part has at least one definition; a part with an empty 'definitions' list is skipped without error);
  - a definition object without 'definition' (`KeyError`, bot.py:68);
  - a non-string 'partOfSpeech' or 'definition', which the f-string at bot.py:68 renders with `str()` rather than raising;
  - a non-string 'word' (`AttributeError` from `capitalize`, bot.py:57, which `except KeyError` does not catch);
  - a non-string 'text' or 'title' (`TypeError` in the joins, bot.py:78, 80 and 93);
  - a 'phonetics' or 'meanings' value that is not a list, or elements that are not objects.

  Keys other than 'title', 'word', 'phonetics' and 'meanings' count only towards whether the object is empty.

## Findings

| source | as written | input that shows it | evidently intended | confidence | as-written member | corrected member |
|---|---|---|---|---|---|---|
| bot.py:45-51 | `'title' in dictionary` is tested before `if not dictionary`. `free_dictionary_api` returns `None` for any status other than 200 or 404 (bot.py:31-34), so the membership test raises `TypeError` and the retry message is never reached for it | a reply with status 429 or 500, so that `dictionary` is `None` | `None` and `{}` both give the "An error occurred. Wait a few seconds and try again" definition | high; not executed | `Dictionary.DefinitionAsWritten`, shown by `Dictionary.NoBodyRaisesAsWritten` | `Dictionary.DefinitionOf`, proved never to raise `TypeError` by `Dictionary.DefinitionErrors`; `GetWordDefinition` and the rest of the model use it |
