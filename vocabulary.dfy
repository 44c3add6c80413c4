/** The vocabulary cleaning of embedding_english.py: the rows of the word list
    are read into a one-column table, missing rows are dropped (`dropna`),
    words containing a character outside `\w` are dropped, then words
    containing a digit, and the remaining words are deduplicated in order of
    first appearance (`Series.unique`). Each stage is a function on the list of
    rows; `CleanVocabulary` is their composition. */
module Vocabulary {
  import opened Text
  import opened Sequences

  /** One row of the word table: a missing value (NaN) or a word. */
  datatype Cell = Missing | Present(word: string)

  /** `df.dropna()`: the words of the non-missing rows, in row order. */
  function DropMissing(rows: seq<Cell>): (ws: seq<string>)
    ensures |ws| <= |rows|
    ensures forall w :: w in ws <==> Present(w) in rows
  {
    if rows == [] then []
    else
      var rest := DropMissing(rows[1..]);
      assert rows == [rows[0]] + rows[1..];
      match rows[0]
      case Missing => rest
      case Present(w) => [w] + rest
  }

  /** Boolean-mask selection `ws[mask]` with `mask = ws.map(keep)`. */
  function Keep(ws: seq<string>, keep: string -> bool): (r: seq<string>)
    ensures |r| <= |ws|
    ensures forall w :: w in r <==> w in ws && keep(w)
  {
    if ws == [] then []
    else
      var rest := Keep(ws[1..], keep);
      assert ws == [ws[0]] + ws[1..];
      if keep(ws[0]) then [ws[0]] + rest else rest
  }

  /** `str.contains('[^\w]')`: some character is not a word character. */
  predicate HasNonWordChar(w: string) {
    exists i :: 0 <= i < |w| && !IsWordChar(w[i])
  }

  /** `str.contains('[0-9]')`: some character is a digit. */
  predicate HasDigit(w: string) {
    exists i :: 0 <= i < |w| && IsDigit(w[i])
  }

  /** A word both filters let through. */
  predicate IsCleanWord(w: string) {
    !HasNonWordChar(w) && !HasDigit(w)
  }

  /** Line 5 of the script: drop words with a non-word character. */
  function KeepWordCharsOnly(ws: seq<string>): seq<string> {
    Keep(ws, w => !HasNonWordChar(w))
  }

  /** Line 6 of the script: drop words with a digit. */
  function KeepDigitFree(ws: seq<string>): seq<string> {
    Keep(ws, w => !HasDigit(w))
  }

  /** The words of `ws` not in `seen`, each once, in order of first
      appearance: the hash-table walk behind `Series.unique`. */
  function UniqueAfter(ws: seq<string>, seen: set<string>): (r: seq<string>)
    ensures forall w :: w in r <==> w in ws && w !in seen
    ensures NoDuplicates(r)
  {
    if ws == [] then []
    else
      assert ws == [ws[0]] + ws[1..];
      if ws[0] in seen then UniqueAfter(ws[1..], seen)
      else [ws[0]] + UniqueAfter(ws[1..], seen + {ws[0]})
  }

  /** `Series.unique()`. */
  function Unique(ws: seq<string>): seq<string> {
    UniqueAfter(ws, {})
  }

  /** The four stages of lines 4-7, composed. */
  function CleanVocabulary(rows: seq<Cell>): (vocabulary: seq<string>)
    ensures forall w :: w in vocabulary <==> Present(w) in rows && IsCleanWord(w)
    ensures forall w, i :: w in vocabulary && 0 <= i < |w| ==> IsWordChar(w[i]) && !IsDigit(w[i])
    ensures NoDuplicates(vocabulary)
  {
    Unique(KeepDigitFree(KeepWordCharsOnly(DropMissing(rows))))
  }

  /** `Series.unique` lists each value at the position of its first appearance:
      values appear in the order in which they first occur in the input. */
  lemma {:induction false} UniqueAfterKeepsFirstAppearanceOrder(ws: seq<string>, seen: set<string>, i: nat, j: nat)
    requires i < j < |UniqueAfter(ws, seen)|
    ensures FirstIndex(ws, UniqueAfter(ws, seen)[i]) < FirstIndex(ws, UniqueAfter(ws, seen)[j])
  {
    var r := UniqueAfter(ws, seen);
    var x, y := r[i], r[j];
    assert x in r && y in r;
    assert x in ws && y in ws;
    var a, t := ws[0], ws[1..];
    if a in seen {
      assert r == UniqueAfter(t, seen);
      assert x != a && y != a;
      UniqueAfterKeepsFirstAppearanceOrder(t, seen, i, j);
    } else {
      var rest := UniqueAfter(t, seen + {a});
      assert r == [a] + rest;
      assert y == rest[j - 1] && y in rest;
      assert y != a;
      if i > 0 {
        assert x == rest[i - 1] && x in rest;
        assert x != a;
        UniqueAfterKeepsFirstAppearanceOrder(t, seen + {a}, i - 1, j - 1);
      }
    }
  }

  /** Selecting by a mask keeps the relative order of first appearances. */
  lemma {:induction false} KeepReflectsOrder(ws: seq<string>, keep: string -> bool, x: string, y: string)
    requires x in Keep(ws, keep) && y in Keep(ws, keep)
    requires FirstIndex(Keep(ws, keep), x) < FirstIndex(Keep(ws, keep), y)
    ensures FirstIndex(ws, x) < FirstIndex(ws, y)
  {
    var a, t := ws[0], ws[1..];
    var r := Keep(ws, keep);
    assert ws == [a] + t;
    if keep(a) {
      assert r == [a] + Keep(t, keep);
      if x != a {
        assert y != a;
        KeepReflectsOrder(t, keep, x, y);
      }
    } else {
      assert r == Keep(t, keep);
      assert x != a && y != a;
      KeepReflectsOrder(t, keep, x, y);
    }
  }

  /** Dropping missing rows keeps the relative order of first appearances. */
  lemma {:induction false} DropMissingReflectsOrder(rows: seq<Cell>, x: string, y: string)
    requires x in DropMissing(rows) && y in DropMissing(rows)
    requires FirstIndex(DropMissing(rows), x) < FirstIndex(DropMissing(rows), y)
    ensures FirstIndex(rows, Present(x)) < FirstIndex(rows, Present(y))
  {
    var a, t := rows[0], rows[1..];
    var r := DropMissing(rows);
    assert rows == [a] + t;
    if a.Present? {
      assert r == [a.word] + DropMissing(t);
      if x != a.word {
        assert y != a.word;
        DropMissingReflectsOrder(t, x, y);
      }
    } else {
      assert r == DropMissing(t);
      DropMissingReflectsOrder(t, x, y);
    }
  }

  /** The cleaned vocabulary lists its words in the order in which they first
      occur among the rows of the word list. */
  lemma CleanVocabularyKeepsFirstAppearanceOrder(rows: seq<Cell>, i: nat, j: nat)
    requires i < j < |CleanVocabulary(rows)|
    ensures Present(CleanVocabulary(rows)[i]) in rows && Present(CleanVocabulary(rows)[j]) in rows
    ensures FirstIndex(rows, Present(CleanVocabulary(rows)[i])) < FirstIndex(rows, Present(CleanVocabulary(rows)[j]))
  {
    var present := DropMissing(rows);
    var words := KeepWordCharsOnly(present);
    var clean := KeepDigitFree(words);
    var r := CleanVocabulary(rows);
    var x, y := r[i], r[j];
    assert x in r && y in r;
    UniqueAfterKeepsFirstAppearanceOrder(clean, {}, i, j);
    KeepReflectsOrder(words, w => !HasDigit(w), x, y);
    KeepReflectsOrder(present, w => !HasNonWordChar(w), x, y);
    DropMissingReflectsOrder(rows, x, y);
  }
}
