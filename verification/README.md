# sator — a Dafny model of the magic-square search

`sator.py` searches a word list for SATOR-style word squares. The model
covers the whole engine: the text helpers `deaccent` and `invert`, the
`Word` token with its reverse-partner link, the `WordsList` index (its
`DictStorage`, the reverse-partner wiring of `setup`, and the positional
index behind `word_for_letters_in_position`), the `Sator` grid with mirror
placement, and the `Satorter` generator that fills a grid ring by ring
from the middle row outwards.

Modules, one per part of the program:

| file | module | models |
|---|---|---|
| wrappers.dfy | `Wrappers` | `Option`, `Result`, Python truthiness of an optional integer |
| text.dfy | `Text` | `deaccent`, `invert`, palindromes |
| words.dfy | `Words` | `Word`, `__eq__`, `__len__`, `is_symmetrical` |
| sorting.dfy | `Sorting` | `sorted` on strings (code-point lexicographic order) |
| seqs.dfy | `Subsequences` | order-preserving sub-sequences, to compare two outputs |
| words_list.dfy | `WordsLists` | `DictStorage`, `Inverted.__set__`, `WordsList` |
| sator.dfy | `Sators` | `Sator` |
| satorter.dfy | `Satorters` | `Satorter`, `iter_sator_for_central`, `generator` |

Design choices:

- Python objects are values. The partner link, which the `Inverted`
  descriptor stores as an object reference, is kept as the partner's
  de-accented key. Grids hold keys, not `Word` objects.
- The index keeps one word per key. The last stored string with a key wins,
  as in the dict assignment of `setup`.
- Python sets are iterated in hash order. Where the program iterates the
  set of a positional bucket, the model lists the hits in the dict's
  insertion order. Every property about the hits is stated over membership.
- The search is three mutually recursive functions returning the sequence
  of grids the Python generator yields, in order: `Search` places the
  partner, `Step` runs the candidate loop and the near-miss test, and
  `SearchAll` goes over the candidates.
- Raised exceptions become `Result` failures: the content-length assertion
  of `Sator`, the reversibility assertion of `__setitem__`, Python's
  `IndexError` (negative indices included), the `IndexError` of
  `letters[0]` on an empty pattern, and the missing length of `Satorter`.

A classical Sator square has rows equal to columns; the search enforces
less:

- A yielded square is not "rows equal columns". Each step only makes the
  middle letters of the new outer row spell a column of the inner rows
  (sator.py:216 and the slice test at sator.py:82). The ring corners are
  never compared. `Satorters.ColumnsMatch` states the rule the code enforces.
  `Satorters.InscribedNeverGenerated` shows the square as inscribed
  (SATOR AREPO TENET OPERA ROTAS) is never yielded.
  `Satorters.SwappedMeetsRules` shows the square with AREPO and OPERA
  swapped meets both rules the search enforces.
- Results are de-duplicated by object identity: `Sator` defines `__hash__`
  but no `__eq__`. Every yielded grid is a new object, so the check never
  skips one, and the model yields every grid.

## Model

| member | source | states |
|---|---|---|
| Text.Deaccent | sator.py:8-13 | de-accenting never changes the length of a string |
| Text.DeaccentPointwise | sator.py:8-13 | each character is rewritten by the nine-entry table on its own; a character changes exactly when it is one of the nine accented characters |
| Text.ReplacementsMatchTable | sator.py:10-12 | the replacements, applied one after another, act on a character as the reference table does |
| Text.DeaccentIdempotent | sator.py:8-13 | de-accenting an already de-accented string changes nothing |
| Text.DeaccentPlain | sator.py:8-13 | a string with none of the nine accented characters comes back unchanged |
| Text.DeaccentUpperAcute | sator.py:10-11 | upper-case 'Á' becomes lower-case 'a', the one case change the table makes |
| Text.Invert | sator.py:16-17 | the reversal of a string has its length |
| Text.InvertPermutes | sator.py:16-17 | the reversal holds the same characters as the string, each as many times |
| Text.InvertAt | sator.py:16-17 | position i of the reversal holds the character i places from the end |
| Text.InvertInvolution | sator.py:16-17 | reversing twice gives back the string |
| Text.InvertFixedIffPalindrome | sator.py:16-17 | a string equals its reversal exactly when it reads the same from both ends, position by position |
| Text.DeaccentInvert | sator.py:8-17 | de-accenting and reversing commute, so the partner of a de-accented key is the de-accented reversal |
| Words.NewWord | sator.py:102-106 | a new word keeps its text, its key is the de-accented text, and it is its own partner exactly when the key is a palindrome |
| Words.SymmetricalIffPalindrome | sator.py:123-125 | a word is symmetrical exactly when its de-accented form reads the same at each position from both ends |
| Words.Equals | sator.py:108-113 | a word never equals `None`, and a string or word equal to it has its length |
| Words.NewWordLen | sator.py:120-121 | the length of a word is the length of its original text |
| Words.EqualsStrIsEqualsWord | sator.py:108-113 | comparing with a raw string equals comparing with the word built from it |
| Words.EqualsIsEquivalence | sator.py:108-113 | word equality is reflexive, symmetric and transitive |
| Words.EqualsIgnoresAccents | sator.py:108-113 | two strings build equal words exactly when they agree position by position once de-accented |
| Sorting.StrLe | sator.py:51 | a prefix of a string is at most the string, and a non-empty string is at most only a non-empty string whose first character is not smaller |
| Sorting.StrLeTotal | sator.py:51 | any two strings are ordered one way or the other |
| Sorting.StrLeTransitive | sator.py:51 | the string order is transitive |
| Sorting.StrLeAntisymmetric | sator.py:51 | two strings each at most the other are equal |
| Sorting.InsertSorted | sator.py:51 | inserting into a sorted list keeps it sorted and adds exactly the one string |
| Sorting.Sort | sator.py:51 | `sorted` returns an ordered permutation of its input |
| Sorting.SortedPermutationUnique | sator.py:51 | two ordered permutations of one list are the same list, so the sorted order is determined |
| WordsLists.Get | sator.py:26-29 | a key is found exactly when it is stored, and in a keyed index the word found carries that key |
| WordsLists.GetAfterSet | sator.py:26-32 | reading a key just set gives the new word; reading any other key gives what it gave before |
| WordsLists.Set | sator.py:31-32 | a new key goes last in iteration order, an existing key keeps its place, the value is replaced |
| WordsLists.KeepFilter | sator.py:51 | every kept string has the requested length, or any length when the length is falsy |
| WordsLists.KeepFilterCount | sator.py:51 | the filter keeps every copy of a string of the right length and drops every other |
| WordsLists.KeepFilterSorted | sator.py:51 | filtering a sorted list leaves it sorted |
| WordsLists.KeptSorted | sator.py:51 | `_words` is sorted and holds, with multiplicity, exactly the input strings the length filter keeps |
| WordsLists.Store | sator.py:57-59 | storing `Word(s)` puts it under its de-accented key, with itself as partner for a palindrome and no partner otherwise, and changes no other key |
| WordsLists.RegisterFrom | sator.py:71-75 | each key is added to the bucket of each (letter, position) it has, and no bucket gains anything else |
| WordsLists.SetInverted | sator.py:87-94 | setting a partner writes it; when the other side has no partner it gets `obj` as its partner, and otherwise it keeps the partner it had; no other word and no text changes |
| WordsLists.Link | sator.py:61-63 | linking touches only the stored key and its reversal, and never replaces the partner another word already has |
| WordsLists.StoreKeepsInvariants | sator.py:57-59 | storing keeps every key-level invariant of the index except the partner presence at the stored key and its reversal |
| WordsLists.LinkRestoresPartners | sator.py:61-63 | after linking, every partner is the reversed key, and a word has one exactly when its reversed key is stored |
| WordsLists.AddWord | sator.py:57-63 | one pass of the `setup` loop stores the string under its key and keeps the original text of every other key |
| WordsLists.AddWordKeepsValid | sator.py:57-63 | one pass of the `setup` loop keeps keys, originals, partners and the positional index consistent |
| WordsLists.SetupFromKeys | sator.py:56-59 | the `setup` loop stores exactly the de-accented keys of the strings it goes over |
| WordsLists.SetupFrom | sator.py:56-63 | the `setup` loop keeps the storage consistent and never changes the length or the source list |
| WordsLists.SetupFromKeepsValid | sator.py:56-63 | the whole `setup` loop keeps every invariant of the index |
| WordsLists.SetupFromLastWriteWins | sator.py:57-59 | each key holds the word of the last string with that key, or its earlier word if none came |
| WordsLists.Setup | sator.py:56-63 | `setup` adds exactly the keys of the source strings and keeps a consistent index consistent |
| WordsLists.EmptyIndex | sator.py:49-53 | the freshly constructed index, before `setup`, satisfies every invariant |
| WordsLists.NewWordsList | sator.py:49-54 | the built index is consistent, keeps the length, has sorted filtered sources, and stores exactly their keys |
| WordsLists.NewWordsListLastWriteWins | sator.py:49-59 | each stored word is built from the last kept string, in sorted order, with its key |
| WordsLists.NewWordsListPartners | sator.py:56-63 | a stored word has a partner exactly when its reversed key is also stored, and the partner is that reversed key |
| WordsLists.PySliceMatch | sator.py:82 | the clamped slice comparison is exactly an occurrence test at the position |
| WordsLists.WordForLettersInPosition | sator.py:77-84 | the query fails exactly on empty letters; otherwise it yields exactly the stored words with the letters at the position and the given length |
| WordsLists.QueryHits | sator.py:77-84 | filtering the bucket of the first letter finds every matching stored key and nothing else |
| WordsLists.Values | sator.py:39-40 | iterating the storage yields the stored words in key insertion order |
| WordsLists.OfLengthWithPartnerMembers | sator.py:65-69 | the loop keeps exactly the words of the length that have a partner |
| WordsLists.IterForLength | sator.py:65-69 | `iter_for_length` yields exactly the stored words of the length that have a partner |
| Sators.NewSator | sator.py:142-145 | the constructor fails exactly when non-empty content has the wrong length; otherwise the grid keeps the content, or is all empty slots when none is given |
| Sators.EmptySator | sator.py:145 | `Sator(length)` has `length` rows, all empty |
| Sators.PyIndex | sator.py:149-151 | a Python list index addresses a slot exactly when it lies in `-len .. len-1`, counting from the end when negative |
| Sators.SetItem | sator.py:147-151 | placement succeeds exactly when the word has a partner and both written indices are valid; without a partner it fails with the reversibility error |
| Sators.SetItemPlacement | sator.py:147-151 | inside the grid, the word goes to `pos`, its partner to the mirror row off the centre, and nothing else changes |
| Sators.SetItemNegativeFails | sator.py:147-151 | a negative row never succeeds on a non-empty grid |
| Sators.Copy | sator.py:161-162 | copying a well-formed grid gives an equal grid |
| Sators.CopyWithWordInPos | sator.py:153-156 | placing into a copy is placing into the grid, whose own value is left as it was |
| Satorters.NewSatorter | sator.py:181-185 | the index's length wins when truthy, the argument is used otherwise, and construction fails when neither is truthy |
| Satorters.Middle | sator.py:227-229 | the middle row is the centre row for an odd length and the upper of the two middle rows for an even one |
| Satorters.Required | sator.py:216 | `required` is column `pos - 1` of rows `pos` to `length - pos - 1`, read downwards |
| Satorters.PartnerOfStored | sator.py:56-63 | the partner of a stored word is stored under the reversed key and points back to the word |
| Satorters.PartnerOf | sator.py:212 | the row placed at `pos` is the reversal of the running word, and its partner is the running word |
| Satorters.Place | sator.py:210-212 | placement writes the partner at `pos`, the running word at the mirror row off the centre, and keeps every other row |
| Satorters.PlaceFills | sator.py:210-216 | after placement every row from `pos` to the mirror row is a full-length word, so `required` is defined |
| Satorters.Candidates | sator.py:216-218 | the candidates are exactly the stored words of the row length carrying `required` at `pos` |
| Satorters.PlaceShape | sator.py:210-212 | placing a fitting running word around a grid in shape gives a grid in shape one ring further out |
| Satorters.CandidateFits | sator.py:216-218 | every candidate spells, at `pos`, the column its row closes |
| Satorters.SearchShape | sator.py:209-225 | every grid the search yields is filled from some ring inwards, each row a stored word, each filled row the reversal of its mirror row, its columns matched, and short of complete by no more rings than the tolerance |
| Satorters.SearchAllShape | sator.py:218-223 | every grid found from any candidate of a step is in that shape |
| Satorters.YieldStep | sator.py:213-225 | adding the partial grid under the tolerance rule keeps every yielded grid in shape |
| Satorters.SearchNearMiss | sator.py:217-225 | the partial grid is yielded exactly when no candidate has a partner and the tolerance reaches `pos`; every other yielded grid has the next ring filled |
| Satorters.InnerRowFilled | sator.py:213-225 | a grid yielded by a search one ring further out has that ring's row filled |
| Satorters.SearchMonotone | sator.py:209-225 | raising the tolerance only adds grids: the output is a sub-sequence, in the same order, of the output with the higher tolerance |
| Satorters.SearchAllMonotone | sator.py:218-223 | the same, for the candidate loop |
| Satorters.KeepMonotone | sator.py:224-225 | a partial grid kept under the lower tolerance is kept under the higher one |
| Satorters.CandidatesIgnoreTolerance | sator.py:216-218 | the candidates of a step do not depend on the tolerance |
| Satorters.CompleteCandidate | sator.py:216-221 | on a complete grid, the lower row of the ring just inside is a candidate of the step, and it has a partner |
| Satorters.StepIncludesLoop | sator.py:217-223 | every grid the candidate loop finds is yielded by the step |
| Satorters.SearchAllIncludes | sator.py:218-223 | every grid found from a partnered candidate is among the grids of the candidate loop |
| Satorters.SearchExplores | sator.py:212-223 | every grid found from a partnered candidate for the next ring is yielded by the step, whatever the tolerance |
| Satorters.CompleteExplores | sator.py:209-223 | on a complete grid, what the search finds from the next ring inwards is yielded by the step at this ring |
| Satorters.SearchComplete | sator.py:209-225 | started at any ring of a complete grid on its own lower row, with the outer rings cleared, the search finds the grid |
| Satorters.CentreSeed | sator.py:196-198 | the lower middle row of a complete grid is a seed of `generator` |
| Satorters.KeepCentral | sator.py:196-198 | the centre filter keeps exactly the words that may sit on the centre row |
| Satorters.Seeds | sator.py:196-198 | the searches start from exactly the stored words of the length with a partner, palindromes only when the length is odd |
| Satorters.StartArgs | sator.py:210-211 | a seed starts on the empty grid at the middle row, with the grid in shape |
| Satorters.GenerateShape | sator.py:195-204 | every grid `generator` yields is in shape for the index and the length |
| Satorters.GenerateComplete | sator.py:195-225 | without tolerance every yielded grid is complete: every row is a stored word |
| Satorters.GenerateFindsComplete | sator.py:195-225 | `generator` yields every complete grid of the search's length, whatever the tolerance |
| Satorters.GenerateExactly | sator.py:195-225 | without tolerance `generator` yields exactly the complete grids of the search's length |
| Satorters.GenerateMonotone | sator.py:195-225 | raising `near_miss` keeps every grid found before, in the same order |
| Satorters.InscribedNotYieldable | sator.py:216 | the inscribed square breaks the column rule: letter 1 of ROTAS is not letter 0 of AREPO |
| Satorters.InscribedNeverGenerated | sator.py:195-225 | `generator` never yields the inscribed square, whatever the word list and the tolerance |
| Satorters.SquareWordsReversed | sator.py:16-17 | SATOR and ROTAS, OPERA and AREPO are each other's reversals and TENET is its own |
| Satorters.SwappedMeetsRules | sator.py:209-225 | the square with AREPO and OPERA swapped meets both the mirror rule and the column rule |

## Left out

- The `__main__` driver (sator.py:232-241): file reading and printing.
- `Sator.__repr__` and `_fmt_word` (sator.py:164-171), `Word.__str__` and `Word.__repr__` (sator.py:134-138): text rendering.
- `Word.__lt__` and `Word.__hash__` (sator.py:115-118, 131-132): they only serve the de-duplication set.
- `Sator.__hash__`, `Sator.__iter__` and `Sator.__getitem__` (sator.py:158-159, 173-177): `__hash__` only serves the de-duplication set, and the model reads rows directly.
- The `results` set of `Satorter` (sator.py:186, 201-203): it compares grids by identity and never skips one, so the model yields every grid.
- The `try`/`except` around each seed (sator.py:199-207): it prints a traceback. In the model no search raises.
- `DictStorage.update` (sator.py:34-37): nothing calls it.
- `Satorter.__iter__` and `run` (sator.py:188-193): generator laziness and a consumer stopping early. `Satorters.Generate` is the full output sequence.
- The iteration order of the positional buckets (sator.py:74, 78): Python sets iterate in hash order. The model uses the dict's insertion order, and no contract depends on the order.
- Object identity in the `Inverted` descriptor and `cached_property`: partners are the de-accented keys. When two strings share a key, the partner is whichever word the index now holds under it.
- An absent and an empty `content` argument of `Sator` are both falsy and behave the same; both are written `[]`.
- Satorters.Search: carries no `ensures` of its own. Its shape, near-miss, tolerance and exhaustiveness properties are the lemmas `SearchShape`, `SearchNearMiss`, `SearchMonotone` and `SearchExplores`.
- Satorters.Step: carries no `ensures` of its own; `SearchUnfold` and `SearchEquation` state what one step computes.
- Satorters.SearchAll: carries no `ensures` of its own; `SearchAllShape` and `SearchAllMonotone` state its properties.
- Satorters.Generate: carries no `ensures` of its own; `GenerateShape`, `GenerateComplete`, `GenerateFindsComplete`, `GenerateExactly`, `GenerateMonotone` and `InscribedNeverGenerated` state its properties. It requires an index built by `setup`, which `NewWordsList` gives.
- Satorters.GenerateFindsComplete: stated for a length of at least 1. `Satorter` rejects a zero length, and a negative length gives a grid with no rows that `generator`, starting from the words of that length, never yields.
- Words.Len: carries no `ensures` of its own; `NewWordLen` states the length of a word.
- Words.IsSymmetrical: carries no `ensures` of its own; `SymmetricalIffPalindrome` states it.
- Satorters.SwappedMeetsRules: states the two rules of the search for that square, not that a particular word list yields it.
