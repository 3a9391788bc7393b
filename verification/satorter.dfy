/** The `Satorter` search of sator.py: grids are filled ring by ring from
    the middle row outwards, each new outer row chosen so that its middle
    letters spell the column the inner rows already fix. */
module Satorters {
  import opened Wrappers
  import opened Text
  import opened Words
  import opened WordsLists
  import opened Sators
  import opened Subsequences

  /** A search over an index, with the tolerance for incomplete grids and the
      row length the search fills. */
  datatype Satorter = Satorter(words: WordsList, nearMiss: int, length: int)

  /** The constructor's assertion: no row length could be found. */
  datatype SatorterError = NoLength

  /** `Satorter(words, length, near_miss)`: the index's own length wins when
      it is truthy, the argument is used otherwise, and one of them must be
      truthy. */
  function NewSatorter(words: WordsList, length: Option<int>, nearMiss: int): (r: Result<Satorter, SatorterError>)
    ensures r.Failure? <==> !Truthy(words.length) && !Truthy(length)
    ensures r.Success? ==> r.value.words == words && r.value.nearMiss == nearMiss && r.value.length != 0
    ensures r.Success? && Truthy(words.length) ==> r.value.length == words.length.value
    ensures r.Success? && !Truthy(words.length) ==> r.value.length == length.value
  {
    var l := if Truthy(words.length) then words.length else length;
    if Truthy(l) then Success(Satorter(words, nearMiss, l.value)) else Failure(NoLength)
  }

  /** `middle_pos`: the row the search starts from. For an odd length it is
      the centre row; for an even length, the upper of the two middle rows. */
  function Middle(n: int): (m: int)
    ensures n % 2 == 1 <==> 2 * m + 1 == n
    ensures n % 2 == 0 <==> 2 * m + 2 == n
    ensures n >= 1 ==> m >= 0
  {
    // Python's `//` floors; for the positive divisor 2 that is Dafny's `/`.
    (n + 1) / 2 - 1
  }

  /** Row `i` of a grid, with an empty slot (or a row out of range) read as "". */
  function Row(g: Sator, i: int): string
  {
    if 0 <= i < |g.content| && g.content[i].Some? then g.content[i].value else []
  }

  /** The letter at row `i`, column `j`, if there is one. */
  function Cell(g: Sator, i: int, j: int): Option<char>
  {
    if 0 <= j < |Row(g, i)| then Some(Row(g, i)[j]) else None
  }

  /** The word is the one the index holds under its key. */
  ghost predicate Stored(ix: WordsList, w: Word)
  {
    w.deaccented in ix.words.content && ix.words.content[w.deaccented] == w
  }

  /** What a search needs: a consistent index and a positive row length. */
  ghost predicate Ready(st: Satorter)
  {
    Searchable(st.words) && st.length >= 1
  }

  /** The `required` string of `iter_sator_for_central`: column `pos - 1` of
      rows `pos` to `length - pos - 1`, read downwards. */
  function Required(g: Sator, pos: int): (r: string)
    requires 1 <= pos && 2 * pos < g.length
    requires forall i :: pos <= i < g.length - pos ==> |Row(g, i)| >= pos
    ensures |r| == g.length - 2 * pos
    ensures forall j :: 0 <= j < |r| ==> Cell(g, pos + j, pos - 1) == Some(r[j])
  {
    seq(g.length - 2 * pos, j requires 0 <= j < g.length - 2 * pos => Row(g, pos + j)[pos - 1])
  }

  /** The partner of a stored word with a partner is stored under the
      reversed key, and its own partner is the word's key. */
  lemma PartnerOfStored(ix: WordsList, w: Word)
    requires Searchable(ix) && Stored(ix, w) && w.inverted.Some?
    ensures w.inverted.value == Invert(w.deaccented)
    ensures w.inverted.value in ix.words.content
    ensures ix.words.content[w.inverted.value].deaccented == w.inverted.value
    ensures ix.words.content[w.inverted.value].inverted == Some(w.deaccented)
  {
    var c := ix.words.content;
    var p := w.inverted.value;
    assert c[w.deaccented].inverted.Some?;
    InvertInvolution(w.deaccented);
    assert c[p].inverted.Some?;
  }

  /** The first step of `iter_sator_for_central`, which writes the running
      word's partner into a copy of the grid: the partner at `pos` and, off
      the centre, the partner's own partner at the mirror row. */
  function Place(g: Sator, partner: Word, pos: int): (placed: Sator)
    requires WellFormed(g) && Reversible(partner)
    requires 0 <= pos && 2 * pos < g.length
    ensures WellFormed(placed) && placed.length == g.length && |placed.content| == g.length
    ensures placed.content[pos] == Some(partner.deaccented)
    ensures 2 * pos + 1 != g.length ==> placed.content[g.length - 1 - pos] == partner.inverted
    ensures forall i :: 0 <= i < g.length && i != pos && i != g.length - 1 - pos ==>
      placed.content[i] == g.content[i]
  {
    SetItemPlacement(g, pos, partner);
    CopyWithWordInPos(g, partner, pos).value
  }

  /** After placement, the rows from `pos` to the mirror row are all full-length words. */
  lemma PlaceFills(g: Sator, partner: Word, pos: int)
    requires WellFormed(g) && Reversible(partner)
    requires |partner.deaccented| == g.length && |partner.inverted.value| == g.length
    requires 0 <= pos && 2 * pos < g.length
    requires InnerFull(g, pos)
    ensures InnerFull(Place(g, partner, pos), pos - 1)
  {
    var placed := Place(g, partner, pos);
    assert |placed.content| == |g.content| == g.length;
    forall i | pos <= i < g.length - pos
      ensures |Row(placed, i)| == g.length
    {
      if i == pos {
      } else if i == g.length - 1 - pos {
        assert 2 * pos + 1 != g.length;
      } else {
        assert placed.content[i] == g.content[i];
        assert Row(placed, i) == Row(g, i);
      }
    }
  }

  /** The partner of the running word, as the index holds it. */
  function PartnerOf(ix: WordsList, running: Word): (partner: Word)
    requires Searchable(ix) && Stored(ix, running) && running.inverted.Some?
    ensures partner.deaccented == Invert(running.deaccented)
    ensures partner.inverted == Some(running.deaccented)
  {
    PartnerOfStored(ix, running);
    ix.words.content[running.inverted.value]
  }

  /** The candidates of one step: `word_for_letters_in_position(required,
      pos, length)`, which lists exactly the stored words of the row length
      carrying `required` at `pos`. */
  function Candidates(st: Satorter, placed: Sator, pos: int): (cands: seq<Word>)
    requires Ready(st) && placed.length == st.length
    requires 1 <= pos && 2 * pos < st.length
    requires InnerFull(placed, pos - 1)
    ensures forall w {:trigger w in cands} :: w in cands <==>
      Stored(st.words, w) && |w.deaccented| == st.length && HasAt(w.deaccented, Required(placed, pos), pos)
  {
    WordForLettersInPosition(st.words, Required(placed, pos), pos, Some(st.length)).value
  }

  /** `no_words` after the candidate loop: no candidate has a partner. */
  predicate NoneReversible(cands: seq<Word>)
  {
    forall c :: c in cands ==> !Reversible(c)
  }

  /** The rows strictly inside ring `pos` are full-length words. */
  ghost predicate InnerFull(g: Sator, pos: int)
  {
    forall i :: pos < i < g.length - 1 - pos ==> |Row(g, i)| == g.length
  }

  /** A grid of the search's row length, with ring `pos` inside it and every
      row inside that ring filled. */
  ghost predicate GridArgs(st: Satorter, pos: int, g: Sator)
  {
    && 0 <= pos <= Middle(st.length)
    && WellFormed(g) && g.length == st.length
    && InnerFull(g, pos)
  }

  /** A word the index holds, of the row length, with a partner. */
  ghost predicate RunningArgs(st: Satorter, running: Word)
  {
    Stored(st.words, running) && running.inverted.Some? && |running.deaccented| == st.length
  }

  /** Every candidate is a stored word of the row length. */
  ghost predicate CandsArgs(st: Satorter, cands: seq<Word>)
  {
    forall c {:trigger c in cands} :: c in cands ==> Stored(st.words, c) && |c.deaccented| == st.length
  }

  /** `iter_sator_for_central(running, pos, g)`: place the running word's
      partner at `pos`; at row 0 the grid is finished; otherwise `Step`
      explores the next ring out. */
  function Search(st: Satorter, running: Word, pos: int, g: Sator): (res: seq<Sator>)
    requires Ready(st) && RunningArgs(st, running) && GridArgs(st, pos, g)
    decreases pos, 1, 0
  {
    var partner := PartnerOf(st.words, running);
    var placed := Place(g, partner, pos);
    if pos == 0 then [placed]
    else
      PlaceFills(g, partner, pos);
      Step(st, placed, pos)
  }

  /** The rest of one step of `iter_sator_for_central`, once the partner is
      placed: every reversible candidate for the next ring out is explored,
      and the partial grid itself is yielded when there was none and the
      tolerance reaches `pos`. */
  function Step(st: Satorter, placed: Sator, pos: int): (res: seq<Sator>)
    requires Ready(st) && 1 <= pos && 2 * pos < st.length && GridArgs(st, pos - 1, placed)
    decreases pos, 0, 0
  {
    var cands := Candidates(st, placed, pos);
    var inner := SearchAll(st, cands, pos - 1, placed);
    if NoneReversible(cands) && st.nearMiss >= pos then inner + [placed] else inner
  }

  /** The candidate loop of `iter_sator_for_central`: the searches one row
      further out for each reversible candidate, in order. */
  function SearchAll(st: Satorter, cands: seq<Word>, pos: int, g: Sator): (res: seq<Sator>)
    requires Ready(st) && CandsArgs(st, cands) && GridArgs(st, pos, g)
    decreases pos, 2, |cands|
  {
    if cands == [] then []
    else
      assert cands[0] in cands;
      assert forall c :: c in cands[1..] ==> c in cands;
      var first := if Reversible(cands[0]) then Search(st, cands[0], pos, g) else [];
      first + SearchAll(st, cands[1..], pos, g)
  }

  /** Rows `lo` to `length - 1 - lo` hold words and every other row is empty. */
  ghost predicate FilledExactly(g: Sator, lo: int)
  {
    forall i :: 0 <= i < |g.content| ==> (g.content[i].Some? <==> lo <= i < g.length - lo)
  }

  /** Every filled row is a key of the index of the grid's length. */
  ghost predicate RowsStored(ix: WordsList, g: Sator, lo: int)
  {
    forall i :: lo <= i < g.length - lo ==> Row(g, i) in ix.words.content && |Row(g, i)| == g.length
  }

  /** Row `i` is the reversal of its mirror row. */
  ghost predicate MirrorAt(g: Sator, i: int)
  {
    Row(g, g.length - 1 - i) == Invert(Row(g, i))
  }

  /** Each filled row is the reversal of its mirror row. */
  ghost predicate Mirrored(g: Sator, lo: int)
  {
    forall i :: lo <= i < g.length - lo ==> MirrorAt(g, i)
  }

  /** The vertical constraint the search enforces: for each ring `q`, the
      middle letters of the lower row `length - 1 - q` spell column `q` of the
      rows strictly inside the ring. Corners are never constrained. */
  ghost predicate ColumnsMatch(g: Sator, lo: int)
  {
    forall q, k :: lo <= q < k < g.length - 1 - q ==> ColumnAt(g, q, k)
  }

  /** Letter `k` of row `length - 1 - q` is letter `q` of row `k`. */
  ghost predicate ColumnAt(g: Sator, q: int, k: int)
  {
    Cell(g, g.length - 1 - q, k) == Cell(g, k, q)
  }

  /** A grid filled from ring `lo` inwards, as the search builds it. */
  ghost predicate Shape(ix: WordsList, g: Sator, lo: int)
  {
    && WellFormed(g)
    && FilledExactly(g, lo)
    && RowsStored(ix, g, lo)
    && Mirrored(g, lo)
    && ColumnsMatch(g, lo)
  }

  /** The word about to go to the mirror row of ring `pos` spells column
      `pos` of the rows inside that ring. */
  ghost predicate Fits(g: Sator, key: string, pos: int)
  {
    forall k :: 0 <= pos < k < g.length - 1 - pos ==> k < |key| && Cell(g, k, pos) == Some(key[k])
  }

  /** Every candidate fits the column of ring `pos`. */
  ghost predicate AllFit(g: Sator, cands: seq<Word>, pos: int)
  {
    forall c {:trigger c in cands} :: c in cands ==> Fits(g, c.deaccented, pos)
  }

  /** What a search that started at ring `pos` may yield: a grid filled from
      some ring `lo` inwards, complete (`lo == 0`) or incomplete by no more
      rings than the tolerance. */
  ghost predicate Yieldable(st: Satorter, r: Sator, pos: int)
  {
    && r.length == st.length
    && exists lo :: 0 <= lo <= pos && (lo == 0 || lo <= st.nearMiss) && Shape(st.words, r, lo)
  }

  /** Every grid of `rs` may be yielded by a search from ring `pos`. */
  ghost predicate AllYieldable(st: Satorter, rs: seq<Sator>, pos: int)
  {
    forall r :: r in rs ==> Yieldable(st, r, pos)
  }

  /** `placed` is `g` with `top` written at row `pos` and `bottom` at the
      mirror row (the same row at the centre). */
  ghost predicate PlacedFrom(g: Sator, placed: Sator, pos: int, top: string, bottom: string)
  {
    && placed.length == g.length && |placed.content| == |g.content| == g.length
    && 0 <= pos && 2 * pos < g.length
    && placed.content[pos] == Some(top)
    && placed.content[g.length - 1 - pos] == Some(bottom)
    && forall i :: 0 <= i < g.length && i != pos && i != g.length - 1 - pos ==> placed.content[i] == g.content[i]
  }

  lemma PlaceFilled(g: Sator, placed: Sator, pos: int, top: string, bottom: string)
    requires PlacedFrom(g, placed, pos, top, bottom) && FilledExactly(g, pos + 1)
    ensures FilledExactly(placed, pos)
  {
  }

  lemma PlaceStored(ix: WordsList, g: Sator, placed: Sator, pos: int, top: string, bottom: string)
    requires PlacedFrom(g, placed, pos, top, bottom) && RowsStored(ix, g, pos + 1)
    requires top in ix.words.content && bottom in ix.words.content && |top| == |bottom| == g.length
    ensures RowsStored(ix, placed, pos)
  {
    forall i | pos <= i < g.length - pos
      ensures Row(placed, i) in ix.words.content && |Row(placed, i)| == g.length
    {
      if i != pos && i != g.length - 1 - pos {
        assert Row(placed, i) == Row(g, i);
      }
    }
  }

  /** The rows of a placed grid: the new pair at `pos` and its mirror, the
      old rows elsewhere. */
  ghost predicate RowsPlaced(g: Sator, placed: Sator, pos: int, top: string, bottom: string)
  {
    && placed.length == g.length && 0 <= pos && 2 * pos < g.length
    && (2 * pos + 1 == g.length ==> top == bottom)
    && forall i :: 0 <= i < g.length ==>
      Row(placed, i) == if i == pos then top else if i == g.length - 1 - pos then bottom else Row(g, i)
  }

  lemma PlacedRows(g: Sator, placed: Sator, pos: int, top: string, bottom: string)
    requires PlacedFrom(g, placed, pos, top, bottom)
    ensures RowsPlaced(g, placed, pos, top, bottom)
  {
  }

  lemma PlaceMirrored(g: Sator, placed: Sator, pos: int, top: string, bottom: string)
    requires RowsPlaced(g, placed, pos, top, bottom) && Mirrored(g, pos + 1)
    requires bottom == Invert(top) && top == Invert(bottom)
    ensures Mirrored(placed, pos)
  {
    var n := g.length;
    forall i | pos <= i < n - pos
      ensures MirrorAt(placed, i)
    {
      if i != pos && i != n - 1 - pos {
        assert MirrorAt(g, i);
      }
    }
  }

  lemma PlaceColumns(g: Sator, placed: Sator, pos: int, top: string, bottom: string)
    requires RowsPlaced(g, placed, pos, top, bottom) && ColumnsMatch(g, pos + 1)
    requires |bottom| == g.length && Fits(g, bottom, pos)
    ensures ColumnsMatch(placed, pos)
  {
    var n := g.length;
    forall q, k | pos <= q < k < n - 1 - q
      ensures ColumnAt(placed, q, k)
    {
      if q != pos {
        assert ColumnAt(g, q, k);
      }
    }
  }

  /** Placing a partner pair keeps the grid in shape one ring further out,
      provided the running word fits the column it closes. */
  lemma PlaceShape(ix: WordsList, g: Sator, partner: Word, pos: int)
    requires WellFormed(g) && Reversible(partner)
    requires 0 <= pos && 2 * pos < g.length
    requires |partner.deaccented| == g.length
    requires partner.deaccented in ix.words.content && partner.inverted.value in ix.words.content
    requires partner.inverted.value == Invert(partner.deaccented)
    requires 2 * pos + 1 == g.length ==> partner.inverted.value == partner.deaccented
    requires Shape(ix, g, pos + 1)
    requires Fits(g, partner.inverted.value, pos)
    ensures Shape(ix, Place(g, partner, pos), pos)
  {
    var placed := Place(g, partner, pos);
    var top, bottom := partner.deaccented, partner.inverted.value;
    InvertInvolution(top);
    assert PlacedFrom(g, placed, pos, top, bottom);
    PlaceFilled(g, placed, pos, top, bottom);
    PlaceStored(ix, g, placed, pos, top, bottom);
    PlacedRows(g, placed, pos, top, bottom);
    PlaceMirrored(g, placed, pos, top, bottom);
    PlaceColumns(g, placed, pos, top, bottom);
  }

  /** A candidate of ring `pos` fits the column of the next ring out. */
  lemma CandidateFits(placed: Sator, pos: int, key: string)
    requires 1 <= pos && 2 * pos < placed.length
    requires InnerFull(placed, pos - 1)
    requires |key| == placed.length && HasAt(key, Required(placed, pos), pos)
    ensures Fits(placed, key, pos - 1)
  {
    var req := Required(placed, pos);
    forall k | 0 <= pos - 1 < k < placed.length - 1 - (pos - 1)
      ensures k < |key| && Cell(placed, k, pos - 1) == Some(key[k])
    {
      var j := k - pos;
      assert key[pos..pos + |req|][j] == key[k];
      assert Cell(placed, pos + j, pos - 1) == Some(req[j]);
    }
  }

  /** A yield bound for ring `pos` also bounds every ring further in. */
  lemma YieldableWiden(st: Satorter, r: Sator, pos: int, pos': int)
    requires Yieldable(st, r, pos) && pos <= pos'
    ensures Yieldable(st, r, pos')
  {
    var lo :| 0 <= lo <= pos && (lo == 0 || lo <= st.nearMiss) && Shape(st.words, r, lo);
    assert 0 <= lo <= pos';
  }

  /** The shape a search from ring `pos` starts from: the rings inside are
      in shape, the running word spells the column its partner closes, and a
      running word at the centre row reads the same both ways. */
  ghost predicate ShapeArgs(st: Satorter, running: Word, pos: int, g: Sator)
  {
    && Shape(st.words, g, pos + 1)
    && Fits(g, running.deaccented, pos)
    && (2 * pos + 1 == st.length ==> IsSymmetrical(running))
  }

  /** Every grid `iter_sator_for_central` yields is in shape: filled from some
      ring inwards, mirrored, its columns matched, and incomplete by no more
      rings than the tolerance. */
  lemma {:induction false} SearchShape(st: Satorter, running: Word, pos: int, g: Sator)
    requires Ready(st) && RunningArgs(st, running) && GridArgs(st, pos, g)
    requires ShapeArgs(st, running, pos, g)
    ensures forall r :: r in Search(st, running, pos, g) ==> Yieldable(st, r, pos)
    decreases pos, 0, 1
  {
    if pos == 0 {
      var partner := PartnerOf(st.words, running);
      PartnerOfStored(st.words, running);
      InvertInvolution(running.deaccented);
      var placed := Place(g, partner, pos);
      PlaceShape(st.words, g, partner, pos);
      assert Search(st, running, pos, g) == [placed];
      assert Shape(st.words, placed, 0);
    } else {
      SearchStepShape(st, running, pos, g);
    }
  }

  /** `SearchShape` for a ring with another ring outside it. */
  lemma {:induction false} SearchStepShape(st: Satorter, running: Word, pos: int, g: Sator)
    requires Ready(st) && RunningArgs(st, running) && GridArgs(st, pos, g)
    requires ShapeArgs(st, running, pos, g) && pos >= 1
    ensures AllYieldable(st, Search(st, running, pos, g), pos)
    decreases pos, 0, 0
  {
    var placed, cands := SearchStep(st, running, pos, g);
    SearchAllShape(st, cands, pos - 1, placed);
    YieldStep(st, SearchAll(st, cands, pos - 1, placed), placed, pos, NoneReversible(cands) && st.nearMiss >= pos);
  }

  /** What the candidate loop of ring `pos` starts from: a ready search over
      stored candidates, a grid in shape for the rings inside, and every
      candidate fitting the column it would close. */
  ghost predicate LoopReady(st: Satorter, cands: seq<Word>, pos: int, g: Sator)
  {
    && Ready(st) && CandsArgs(st, cands) && GridArgs(st, pos, g)
    && pos < Middle(st.length)
    && Shape(st.words, g, pos + 1)
    && AllFit(g, cands, pos)
  }

  /** One unfolding of `Search` for a ring with another ring outside it: the
      partner of the running word is placed, the candidates for the next ring
      are looked up in the placed grid, and the result is the candidate loop's,
      followed by the placed grid itself when it is kept. */
  lemma SearchUnfold(st: Satorter, running: Word, pos: int, g: Sator) returns (placed: Sator, cands: seq<Word>)
    requires Ready(st) && RunningArgs(st, running) && GridArgs(st, pos, g) && pos >= 1
    ensures placed == Place(g, PartnerOf(st.words, running), pos)
    ensures InnerFull(placed, pos - 1) && cands == Candidates(st, placed, pos)
    ensures CandsArgs(st, cands) && GridArgs(st, pos - 1, placed)
    ensures Search(st, running, pos, g) ==
      if NoneReversible(cands) && st.nearMiss >= pos then SearchAll(st, cands, pos - 1, placed) + [placed]
      else SearchAll(st, cands, pos - 1, placed)
  {
    placed, cands := StepArgs(st, running, pos, g);
    SearchEquation(st, running, pos, g, placed, cands);
  }

  /** The grid and the candidates of one step. */
  lemma StepArgs(st: Satorter, running: Word, pos: int, g: Sator) returns (placed: Sator, cands: seq<Word>)
    requires Ready(st) && RunningArgs(st, running) && GridArgs(st, pos, g) && pos >= 1
    ensures placed == Place(g, PartnerOf(st.words, running), pos)
    ensures InnerFull(placed, pos - 1) && cands == Candidates(st, placed, pos)
    ensures CandsArgs(st, cands) && GridArgs(st, pos - 1, placed)
  {
    var partner := PartnerOf(st.words, running);
    placed := Place(g, partner, pos);
    PlaceFills(g, partner, pos);
    cands := Candidates(st, placed, pos);
  }

  /** The result of one step in terms of its grid and its candidates. */
  lemma SearchEquation(st: Satorter, running: Word, pos: int, g: Sator, placed: Sator, cands: seq<Word>)
    requires Ready(st) && RunningArgs(st, running) && GridArgs(st, pos, g) && pos >= 1
    requires placed == Place(g, PartnerOf(st.words, running), pos)
    requires InnerFull(placed, pos - 1) && cands == Candidates(st, placed, pos)
    requires CandsArgs(st, cands) && GridArgs(st, pos - 1, placed)
    ensures Search(st, running, pos, g) ==
      if NoneReversible(cands) && st.nearMiss >= pos then SearchAll(st, cands, pos - 1, placed) + [placed]
      else SearchAll(st, cands, pos - 1, placed)
  {
  }

  /** `SearchUnfold` on a grid in shape: the placed grid is in shape for ring
      `pos`, and every candidate is a stored word that fits the column of the
      next ring. */
  lemma SearchStep(st: Satorter, running: Word, pos: int, g: Sator) returns (placed: Sator, cands: seq<Word>)
    requires Ready(st) && RunningArgs(st, running) && GridArgs(st, pos, g)
    requires ShapeArgs(st, running, pos, g) && pos >= 1
    ensures placed == Place(g, PartnerOf(st.words, running), pos)
    ensures LoopReady(st, cands, pos - 1, placed) && cands == Candidates(st, placed, pos)
    ensures Search(st, running, pos, g) ==
      if NoneReversible(cands) && st.nearMiss >= pos then SearchAll(st, cands, pos - 1, placed) + [placed]
      else SearchAll(st, cands, pos - 1, placed)
  {
    placed, cands := SearchUnfold(st, running, pos, g);
    var partner := PartnerOf(st.words, running);
    PartnerOfStored(st.words, running);
    InvertInvolution(running.deaccented);
    PlaceShape(st.words, g, partner, pos);
    forall c | c in cands ensures Fits(placed, c.deaccented, pos - 1) {
      CandidateFits(placed, pos, c.deaccented);
    }
  }

  /** One level of the yield policy: the grids found further out, then the
      partial grid when it is kept. */
  lemma YieldStep(st: Satorter, inner: seq<Sator>, placed: Sator, pos: int, keep: bool)
    requires 1 <= pos
    requires AllYieldable(st, inner, pos - 1)
    requires Shape(st.words, placed, pos) && placed.length == st.length
    requires keep ==> pos <= st.nearMiss
    ensures AllYieldable(st, if keep then inner + [placed] else inner, pos)
  {
    forall r | r in inner ensures Yieldable(st, r, pos) {
      YieldableWiden(st, r, pos - 1, pos);
    }
    if keep {
      assert Yieldable(st, placed, pos);
    }
  }

  lemma {:induction false} SearchAllShape(st: Satorter, cands: seq<Word>, pos: int, g: Sator)
    requires LoopReady(st, cands, pos, g)
    ensures AllYieldable(st, SearchAll(st, cands, pos, g), pos)
    decreases pos, 1, |cands|
  {
    if cands != [] {
      assert cands[0] in cands;
      assert forall c :: c in cands[1..] ==> c in cands;
      if Reversible(cands[0]) {
        SearchShape(st, cands[0], pos, g);
      }
      SearchAllShape(st, cands[1..], pos, g);
    }
  }

  /** The tolerance rule of one step: the partial grid of ring `pos` is
      yielded exactly when no candidate for the next ring has a partner and
      the tolerance reaches `pos`; every other grid the step yields has the
      next ring filled. */
  lemma SearchNearMiss(st: Satorter, running: Word, pos: int, g: Sator) returns (placed: Sator, cands: seq<Word>)
    requires Ready(st) && RunningArgs(st, running) && GridArgs(st, pos, g)
    requires ShapeArgs(st, running, pos, g) && pos >= 1
    ensures placed == Place(g, PartnerOf(st.words, running), pos)
    ensures InnerFull(placed, pos - 1) && cands == Candidates(st, placed, pos)
    ensures placed in Search(st, running, pos, g) <==> NoneReversible(cands) && st.nearMiss >= pos
    ensures forall r :: r in Search(st, running, pos, g) && r != placed ==>
      |r.content| == st.length && r.content[pos - 1].Some?
  {
    placed, cands := SearchStep(st, running, pos, g);
    NearMissStep(st, cands, pos, placed);
    var inner := SearchAll(st, cands, pos - 1, placed);
    forall r | r in Search(st, running, pos, g) && r != placed
      ensures |r.content| == st.length && r.content[pos - 1].Some?
    {
      assert r in inner;
    }
  }

  /** `SearchNearMiss` once the step is unfolded. */
  lemma NearMissStep(st: Satorter, cands: seq<Word>, pos: int, placed: Sator)
    requires pos >= 1 && LoopReady(st, cands, pos - 1, placed)
    ensures var inner := SearchAll(st, cands, pos - 1, placed);
      && placed !in inner
      && forall r :: r in inner ==> |r.content| == st.length && r.content[pos - 1].Some?
  {
    SearchAllShape(st, cands, pos - 1, placed);
    var inner := SearchAll(st, cands, pos - 1, placed);
    forall r | r in inner ensures |r.content| == st.length && r.content[pos - 1].Some? {
      InnerRowFilled(st, r, pos);
    }
    assert placed.content[pos - 1].None?;
  }

  /** A grid yielded from ring `pos - 1` has row `pos - 1` filled. */
  lemma InnerRowFilled(st: Satorter, r: Sator, pos: int)
    requires Yieldable(st, r, pos - 1) && 1 <= pos && 2 * pos < st.length
    ensures |r.content| == st.length && r.content[pos - 1].Some?
  {
    var lo :| 0 <= lo <= pos - 1 && (lo == 0 || lo <= st.nearMiss) && Shape(st.words, r, lo);
    assert lo <= pos - 1 < r.length - lo;
  }

  /** Raising the tolerance only adds grids: the search with the lower
      tolerance yields a sub-sequence, in the same order, of the search with
      the higher one. */
  lemma {:induction false} SearchMonotone(st: Satorter, m: int, running: Word, pos: int, g: Sator)
    requires Ready(st) && RunningArgs(st, running) && GridArgs(st, pos, g) && st.nearMiss <= m
    ensures IsSubsequence(Search(st, running, pos, g), Search(st.(nearMiss := m), running, pos, g))
    decreases pos, 0, 1
  {
    if pos == 0 {
      var found := ToleranceBase(st, m, running, g);
      SubsequenceReflexive(found);
    } else {
      MonotoneStep(st, m, running, pos, g);
    }
  }

  /** `SearchMonotone` for a ring with another ring outside it. */
  lemma {:induction false} MonotoneStep(st: Satorter, m: int, running: Word, pos: int, g: Sator)
    requires Ready(st) && RunningArgs(st, running) && GridArgs(st, pos, g) && st.nearMiss <= m && pos >= 1
    ensures IsSubsequence(Search(st, running, pos, g), Search(st.(nearMiss := m), running, pos, g))
    decreases pos, 0, 0
  {
    var placed, cands, inner, inner' := ToleranceStep(st, m, running, pos, g);
    SearchAllMonotone(st, m, cands, pos - 1, placed);
    KeepMonotone(inner, inner', placed, NoneReversible(cands) && st.nearMiss >= pos, NoneReversible(cands) && m >= pos);
  }

  /** At the outer ring the tolerance plays no part. */
  lemma ToleranceBase(st: Satorter, m: int, running: Word, g: Sator) returns (found: seq<Sator>)
    requires Ready(st) && RunningArgs(st, running) && GridArgs(st, 0, g)
    ensures found == Search(st, running, 0, g) && found == Search(st.(nearMiss := m), running, 0, g)
  {
    found := Search(st, running, 0, g);
  }

  /** One step under two tolerances: the same grid is placed and the same
      candidates are explored, and only the loops and the keeping of the
      partial grid can differ. */
  lemma ToleranceStep(st: Satorter, m: int, running: Word, pos: int, g: Sator)
    returns (placed: Sator, cands: seq<Word>, inner: seq<Sator>, inner': seq<Sator>)
    requires Ready(st) && RunningArgs(st, running) && GridArgs(st, pos, g) && pos >= 1
    ensures CandsArgs(st, cands) && GridArgs(st, pos - 1, placed)
    ensures inner == SearchAll(st, cands, pos - 1, placed)
    ensures inner' == SearchAll(st.(nearMiss := m), cands, pos - 1, placed)
    ensures Search(st, running, pos, g) ==
      if NoneReversible(cands) && st.nearMiss >= pos then inner + [placed] else inner
    ensures Search(st.(nearMiss := m), running, pos, g) ==
      if NoneReversible(cands) && m >= pos then inner' + [placed] else inner'
  {
    placed, cands := SearchUnfold(st, running, pos, g);
    CandidatesIgnoreTolerance(st, m, placed, pos);
    SearchEquation(st.(nearMiss := m), running, pos, g, placed, cands);
    inner, inner' := SearchAll(st, cands, pos - 1, placed), SearchAll(st.(nearMiss := m), cands, pos - 1, placed);
  }

  /** The candidates of a step do not depend on the tolerance. */
  lemma CandidatesIgnoreTolerance(st: Satorter, m: int, placed: Sator, pos: int)
    requires Ready(st) && placed.length == st.length
    requires 1 <= pos && 2 * pos < st.length && InnerFull(placed, pos - 1)
    ensures Candidates(st.(nearMiss := m), placed, pos) == Candidates(st, placed, pos)
  {
  }

  /** Keeping the partial grid under the lower tolerance means keeping it
      under the higher one too. */
  lemma KeepMonotone(inner: seq<Sator>, inner': seq<Sator>, placed: Sator, keep: bool, keep': bool)
    requires IsSubsequence(inner, inner') && (keep ==> keep')
    ensures IsSubsequence(if keep then inner + [placed] else inner, if keep' then inner' + [placed] else inner')
  {
    if keep {
      SubsequenceReflexive([placed]);
      SubsequenceConcat(inner, inner', [placed], [placed]);
    } else if keep' {
      SubsequenceConcat(inner, inner', [], [placed]);
      assert inner + [] == inner;
    }
  }

  lemma {:induction false} SearchAllMonotone(st: Satorter, m: int, cands: seq<Word>, pos: int, g: Sator)
    requires Ready(st) && CandsArgs(st, cands) && GridArgs(st, pos, g) && st.nearMiss <= m
    ensures IsSubsequence(SearchAll(st, cands, pos, g), SearchAll(st.(nearMiss := m), cands, pos, g))
    decreases pos, 1, |cands|
  {
    var st' := st.(nearMiss := m);
    if cands == [] {
      assert SearchAll(st, cands, pos, g) == [];
    } else {
      assert cands[0] in cands;
      assert forall c :: c in cands[1..] ==> c in cands;
      var first := if Reversible(cands[0]) then Search(st, cands[0], pos, g) else [];
      var first' := if Reversible(cands[0]) then Search(st', cands[0], pos, g) else [];
      if Reversible(cands[0]) {
        SearchMonotone(st, m, cands[0], pos, g);
      } else {
        SubsequenceReflexive(first);
      }
      SearchAllMonotone(st, m, cands[1..], pos, g);
      SubsequenceConcat(first, first', SearchAll(st, cands[1..], pos, g), SearchAll(st', cands[1..], pos, g));
    }
  }

  /** A finished grid as the search would build it: every row a stored word
      of the search's length, mirrored, with its columns matched. */
  ghost predicate Complete(st: Satorter, r: Sator)
  {
    r.length == st.length && Shape(st.words, r, 0)
  }

  /** The rings of `r` from `lo` inwards, with every other row emptied: the
      grid a search that ends in `r` holds once ring `lo` is placed. */
  function Restrict(r: Sator, lo: int): (g: Sator)
    requires WellFormed(r)
    ensures WellFormed(g) && g.length == r.length && |g.content| == |r.content|
    ensures forall i :: 0 <= i < |g.content| ==>
      g.content[i] == if lo <= i < r.length - lo then r.content[i] else None
  {
    r.(content := seq(|r.content|, i requires 0 <= i < |r.content| =>
      if lo <= i < r.length - lo then r.content[i] else None))
  }

  /** The stored word whose key is row `i`. */
  function RowWord(ix: WordsList, r: Sator, i: int): Word
    requires Row(r, i) in ix.words.content
  {
    ix.words.content[Row(r, i)]
  }

  /** The lower row of each ring of a complete grid is a stored word with a
      partner, and the upper row is its reversal. */
  lemma RowWordRuns(st: Satorter, r: Sator, pos: int)
    requires Ready(st) && Complete(st, r) && 0 <= pos && 2 * pos < st.length
    ensures Row(r, st.length - 1 - pos) in st.words.words.content
    ensures RunningArgs(st, RowWord(st.words, r, st.length - 1 - pos))
    ensures Reversible(RowWord(st.words, r, st.length - 1 - pos))
    ensures Row(r, pos) == Invert(Row(r, st.length - 1 - pos))
  {
    var n, c := st.length, st.words.words.content;
    var k := Row(r, n - 1 - pos);
    assert k in c && |k| == n;
    assert MirrorAt(r, n - 1 - pos);
    assert Row(r, pos) in c;
    assert c[k].inverted.Some? <==> Invert(k) in c;
  }

  /** Restricted to the rings inside `pos`, a complete grid is a valid start
      for a search at ring `pos`. */
  lemma RestrictArgs(st: Satorter, r: Sator, pos: int)
    requires Ready(st) && Complete(st, r) && 0 <= pos <= Middle(st.length)
    ensures GridArgs(st, pos, Restrict(r, pos + 1))
  {
    var g := Restrict(r, pos + 1);
    forall i | pos < i < st.length - 1 - pos ensures |Row(g, i)| == g.length {
      assert Row(g, i) == Row(r, i);
    }
  }

  /** Placing the partner of ring `pos`'s lower row on the restricted grid
      restores ring `pos` of the complete grid. */
  lemma RestrictPlace(st: Satorter, r: Sator, pos: int)
    requires Ready(st) && Complete(st, r) && 0 <= pos <= Middle(st.length)
    ensures Row(r, st.length - 1 - pos) in st.words.words.content
    ensures RunningArgs(st, RowWord(st.words, r, st.length - 1 - pos))
    ensures GridArgs(st, pos, Restrict(r, pos + 1))
    ensures Place(Restrict(r, pos + 1), PartnerOf(st.words, RowWord(st.words, r, st.length - 1 - pos)), pos)
      == Restrict(r, pos)
  {
    RestrictArgs(st, r, pos);
    RingEnds(st, r, pos);
    PlaceRestores(r, PartnerOf(st.words, RowWord(st.words, r, st.length - 1 - pos)), pos);
  }

  /** The two rows of ring `pos` of a complete grid are the partner of the
      lower row and, off the centre, the lower row itself. */
  lemma RingEnds(st: Satorter, r: Sator, pos: int)
    requires Ready(st) && Complete(st, r) && 0 <= pos <= Middle(st.length)
    ensures Row(r, st.length - 1 - pos) in st.words.words.content
    ensures RunningArgs(st, RowWord(st.words, r, st.length - 1 - pos))
    ensures r.content[pos] == Some(PartnerOf(st.words, RowWord(st.words, r, st.length - 1 - pos)).deaccented)
    ensures 2 * pos + 1 != r.length ==>
      r.content[r.length - 1 - pos] == PartnerOf(st.words, RowWord(st.words, r, st.length - 1 - pos)).inverted
  {
    RowWordRuns(st, r, pos);
    InvertInvolution(Row(r, pos));
    assert r.content[pos].Some? && r.content[st.length - 1 - pos].Some?;
  }

  /** Placing a partner whose rows are those of ring `pos` of `r` on the rings
      inside it gives the rings from `pos` inwards. */
  lemma PlaceRestores(r: Sator, partner: Word, pos: int)
    requires WellFormed(r) && Reversible(partner) && 0 <= pos && 2 * pos < r.length
    requires r.content[pos] == Some(partner.deaccented)
    requires 2 * pos + 1 != r.length ==> r.content[r.length - 1 - pos] == partner.inverted
    ensures Place(Restrict(r, pos + 1), partner, pos) == Restrict(r, pos)
  {
    var placed, want := Place(Restrict(r, pos + 1), partner, pos), Restrict(r, pos);
    forall i | 0 <= i < r.length ensures placed.content[i] == want.content[i] {
    }
    assert placed.content == want.content;
  }

  /** The lower row of ring `pos - 1` of a complete grid carries, at `pos`,
      the letters the step at ring `pos` requires. */
  lemma CompleteRowFits(st: Satorter, r: Sator, pos: int)
    requires Complete(st, r) && 1 <= pos <= Middle(st.length)
    requires InnerFull(Restrict(r, pos), pos - 1)
    ensures HasAt(Row(r, st.length - pos), Required(Restrict(r, pos), pos), pos)
  {
    var n := st.length;
    var placed := Restrict(r, pos);
    var req := Required(placed, pos);
    var key := Row(r, n - pos);
    assert |key| == n;
    forall j | 0 <= j < |req| ensures key[pos + j] == req[j] {
      assert Cell(placed, pos + j, pos - 1) == Some(req[j]);
      assert Row(placed, pos + j) == Row(r, pos + j);
      assert ColumnAt(r, pos - 1, pos + j);
    }
    assert key[pos..pos + |req|] == req;
  }

  /** The lower row of ring `pos - 1` of a complete grid is a candidate of
      the step at ring `pos`, and it has a partner. */
  lemma CompleteCandidate(st: Satorter, r: Sator, pos: int)
    requires Ready(st) && Complete(st, r) && 1 <= pos <= Middle(st.length)
    requires InnerFull(Restrict(r, pos), pos - 1)
    ensures Row(r, st.length - pos) in st.words.words.content
    ensures RowWord(st.words, r, st.length - pos) in Candidates(st, Restrict(r, pos), pos)
    ensures Reversible(RowWord(st.words, r, st.length - pos))
  {
    RowBelowRuns(st, r, pos);
    CompleteRowFits(st, r, pos);
  }

  /** `RowWordRuns` for the ring just inside ring `pos`. */
  lemma RowBelowRuns(st: Satorter, r: Sator, pos: int)
    requires Ready(st) && Complete(st, r) && 1 <= pos <= Middle(st.length)
    ensures Row(r, st.length - pos) in st.words.words.content
    ensures Reversible(RowWord(st.words, r, st.length - pos))
  {
    RowWordRuns(st, r, pos - 1);
  }

  /** Every grid of `a` is among the grids of `b`. */
  ghost predicate Includes(a: seq<Sator>, b: seq<Sator>)
  {
    forall r :: r in a ==> r in b
  }

  /** Every grid a reversible candidate's search finds is among the grids of
      the candidate loop, and so among the grids of anything that includes
      the loop's. */
  lemma {:induction false} SearchAllIncludes(st: Satorter, cands: seq<Word>, pos: int, g: Sator, c: Word)
    requires Ready(st) && CandsArgs(st, cands) && GridArgs(st, pos, g)
    requires c in cands && Reversible(c)
    ensures Includes(Search(st, c, pos, g), SearchAll(st, cands, pos, g))
    ensures forall x :: Includes(SearchAll(st, cands, pos, g), x) ==> Includes(Search(st, c, pos, g), x)
    decreases |cands|
  {
    assert cands[0] in cands;
    assert forall d :: d in cands[1..] ==> d in cands;
    if cands[0] != c {
      assert c in cands[1..];
      SearchAllIncludes(st, cands[1..], pos, g, c);
    }
  }

  /** Every grid of the candidate loop is yielded by the step. */
  lemma StepIncludesLoop(st: Satorter, running: Word, pos: int, g: Sator) returns (placed: Sator, cands: seq<Word>)
    requires Ready(st) && RunningArgs(st, running) && GridArgs(st, pos, g) && pos >= 1
    ensures placed == Place(g, PartnerOf(st.words, running), pos)
    ensures InnerFull(placed, pos - 1) && cands == Candidates(st, placed, pos)
    ensures CandsArgs(st, cands) && GridArgs(st, pos - 1, placed)
    ensures Includes(SearchAll(st, cands, pos - 1, placed), Search(st, running, pos, g))
  {
    placed, cands := SearchUnfold(st, running, pos, g);
  }

  /** The search explores every candidate: each grid found from a reversible
      candidate `c` for the next ring is yielded by the step. */
  lemma SearchExplores(st: Satorter, running: Word, pos: int, g: Sator, placed: Sator, c: Word)
    requires Ready(st) && RunningArgs(st, running) && GridArgs(st, pos, g) && pos >= 1
    requires placed == Place(g, PartnerOf(st.words, running), pos) && InnerFull(placed, pos - 1)
    requires c in Candidates(st, placed, pos) && Reversible(c)
    ensures RunningArgs(st, c) && GridArgs(st, pos - 1, placed)
    ensures Includes(Search(st, c, pos - 1, placed), Search(st, running, pos, g))
  {
    var placed', cands := StepIncludesLoop(st, running, pos, g);
    SearchAllIncludes(st, cands, pos - 1, placed', c);
  }

  /** The search from ring `pos` of `r`, started from the lower row of the
      ring on the rings inside it, yields `r`. */
  ghost predicate Finds(st: Satorter, r: Sator, pos: int)
    requires WellFormed(r)
  {
    FoundReady(st, r, pos) && r in Search(st, RowWord(st.words, r, st.length - 1 - pos), pos, Restrict(r, pos + 1))
  }

  /** The search from ring `pos` of `r` can start: the lower row of the ring
      is a stored word with a partner, and the rings inside are full. */
  ghost predicate FoundReady(st: Satorter, r: Sator, pos: int)
    requires WellFormed(r)
  {
    && Ready(st) && Row(r, st.length - 1 - pos) in st.words.words.content
    && RunningArgs(st, RowWord(st.words, r, st.length - 1 - pos)) && GridArgs(st, pos, Restrict(r, pos + 1))
  }

  /** On a complete grid, the search at ring `pos` explores the lower row of
      ring `pos - 1`, so every grid found from there is yielded at `pos`. */
  lemma CompleteExplores(st: Satorter, r: Sator, pos: int)
    requires Ready(st) && Complete(st, r) && 1 <= pos <= Middle(st.length)
    ensures Row(r, st.length - 1 - pos) in st.words.words.content && Row(r, st.length - pos) in st.words.words.content
    ensures RunningArgs(st, RowWord(st.words, r, st.length - 1 - pos)) && GridArgs(st, pos, Restrict(r, pos + 1))
    ensures RunningArgs(st, RowWord(st.words, r, st.length - pos)) && GridArgs(st, pos - 1, Restrict(r, pos))
    ensures Includes(Search(st, RowWord(st.words, r, st.length - pos), pos - 1, Restrict(r, pos)),
                     Search(st, RowWord(st.words, r, st.length - 1 - pos), pos, Restrict(r, pos + 1)))
  {
    RestrictPlace(st, r, pos);
    RestrictArgsBelow(st, r, pos);
    CompleteCandidate(st, r, pos);
    SearchExplores(st, RowWord(st.words, r, st.length - 1 - pos), pos, Restrict(r, pos + 1),
      Restrict(r, pos), RowWord(st.words, r, st.length - pos));
  }

  /** `RestrictArgs` for the ring outside `pos`. */
  lemma RestrictArgsBelow(st: Satorter, r: Sator, pos: int)
    requires Ready(st) && Complete(st, r) && 1 <= pos <= Middle(st.length)
    ensures GridArgs(st, pos - 1, Restrict(r, pos))
  {
    RestrictArgs(st, r, pos - 1);
  }

  /** On a complete grid the search from ring `pos` can start. */
  lemma FoundArgs(st: Satorter, r: Sator, pos: int)
    requires Ready(st) && Complete(st, r) && 0 <= pos <= Middle(st.length)
    ensures FoundReady(st, r, pos)
  {
    RowWordRuns(st, r, pos);
    RestrictArgs(st, r, pos);
  }

  /** The search from ring `pos - 1` of `r` can start, in the terms of ring
      `pos`: its running word is the lower row of ring `pos - 1` and its grid
      holds the rings from `pos` inwards. */
  lemma ReadyBelow(st: Satorter, r: Sator, pos: int)
    requires WellFormed(r) && FoundReady(st, r, pos - 1)
    ensures Ready(st) && Row(r, st.length - pos) in st.words.words.content
    ensures RunningArgs(st, RowWord(st.words, r, st.length - pos)) && GridArgs(st, pos - 1, Restrict(r, pos))
  {
    assert st.length - 1 - (pos - 1) == st.length - pos && pos - 1 + 1 == pos;
  }

  /** `Finds` at ring `pos - 1`, in the terms of ring `pos`. */
  lemma FoundBelow(st: Satorter, r: Sator, pos: int, running: Word, g: Sator)
    requires WellFormed(r) && Ready(st) && Row(r, st.length - pos) in st.words.words.content
    requires running == RowWord(st.words, r, st.length - pos) && 1 <= pos <= r.length && g == Restrict(r, pos)
    requires RunningArgs(st, running) && GridArgs(st, pos - 1, g)
    requires Finds(st, r, pos - 1)
    ensures r in Search(st, running, pos - 1, g)
  {
    assert st.length - 1 - (pos - 1) == st.length - pos && pos - 1 + 1 == pos;
  }

  /** One ring of `SearchComplete`: if the search from ring `pos - 1` finds
      the complete grid, so does the search from ring `pos`. */
  lemma CompleteStep(st: Satorter, r: Sator, pos: int)
    requires Ready(st) && Complete(st, r) && 1 <= pos <= Middle(st.length)
    requires Finds(st, r, pos - 1)
    ensures Finds(st, r, pos)
  {
    ReadyBelow(st, r, pos);
    FoundBelow(st, r, pos, RowWord(st.words, r, st.length - pos), Restrict(r, pos));
    CompleteExplores(st, r, pos);
    FoundArgs(st, r, pos);
  }

  /** At the outer ring the search yields the placed grid and nothing else. */
  lemma SearchOuter(st: Satorter, running: Word, g: Sator)
    requires Ready(st) && RunningArgs(st, running) && GridArgs(st, 0, g)
    ensures Search(st, running, 0, g) == [Place(g, PartnerOf(st.words, running), 0)]
  {
  }

  /** At the outer ring the search yields the placed grid, which is the
      complete grid itself. */
  lemma CompleteBase(st: Satorter, r: Sator, pos: int)
    requires Ready(st) && Complete(st, r) && pos == 0
    ensures Finds(st, r, pos)
  {
    RestrictPlace(st, r, pos);
    FoundArgs(st, r, pos);
    RestrictWhole(r);
    OuterFound(st, r, pos);
  }

  /** Restricted to every ring, a grid is itself. */
  lemma RestrictWhole(r: Sator)
    requires WellFormed(r)
    ensures Restrict(r, 0) == r
  {
    assert Restrict(r, 0).content == r.content;
  }

  /** If placing the partner of the last row on the inner rings gives back
      the whole grid, the search from the outer ring finds it. */
  lemma OuterFound(st: Satorter, r: Sator, pos: int)
    requires WellFormed(r) && FoundReady(st, r, pos) && pos == 0
    requires Place(Restrict(r, pos + 1), PartnerOf(st.words, RowWord(st.words, r, st.length - 1 - pos)), pos) == r
    ensures r in Search(st, RowWord(st.words, r, st.length - 1 - pos), pos, Restrict(r, pos + 1))
  {
    SearchOuter(st, RowWord(st.words, r, st.length - 1 - pos), Restrict(r, pos + 1));
  }

  /** A search started inside a complete grid from the rows of that grid
      finds the grid, whatever the tolerance: started at ring `pos` from the
      lower row of the ring, on the rings inside it, it yields the grid. */
  lemma {:induction false} SearchComplete(st: Satorter, r: Sator, pos: int)
    requires Ready(st) && Complete(st, r) && 0 <= pos <= Middle(st.length)
    ensures Finds(st, r, pos)
    decreases pos, 1
  {
    if pos == 0 {
      CompleteBase(st, r, pos);
    } else {
      CompleteInduct(st, r, pos);
    }
  }

  /** `SearchComplete` for a ring with another ring outside it. */
  lemma {:induction false} CompleteInduct(st: Satorter, r: Sator, pos: int)
    requires Ready(st) && Complete(st, r) && 1 <= pos <= Middle(st.length)
    ensures Finds(st, r, pos)
    decreases pos, 0
  {
    SearchComplete(st, r, pos - 1);
    CompleteStep(st, r, pos);
  }

  /** The centre filter of `generator`: when the length is odd, only a
      symmetrical word can sit on the centre row. */
  predicate CentralOk(length: int, w: Word)
  {
    // Python's `%` by 2 is never negative, like Dafny's.
    length % 2 == 0 || IsSymmetrical(w)
  }

  /** The words of `ws` that pass the centre filter, in order. */
  function KeepCentral(ws: seq<Word>, length: int): (r: seq<Word>)
    ensures forall w {:trigger w in r} :: w in r <==> w in ws && CentralOk(length, w)
  {
    if ws == [] then []
    else
      var rest := KeepCentral(ws[1..], length);
      assert forall w :: w in ws <==> w == ws[0] || w in ws[1..];
      if CentralOk(length, ws[0]) then [ws[0]] + rest else rest
  }

  /** The central words `generator` starts from: `iter_for_length(length)`
      without the non-symmetrical words when the length is odd. */
  function Seeds(st: Satorter): (seeds: seq<Word>)
    requires Keyed(st.words.words)
    ensures forall w {:trigger w in seeds} :: w in seeds <==>
      RunningArgs(st, w) && CentralOk(st.length, w)
  {
    KeepCentral(IterForLength(st.words, st.length), st.length)
  }

  /** A central word of a non-zero length starts a search on the empty grid
      from the middle row, in shape. */
  lemma StartArgs(st: Satorter, w: Word)
    requires Searchable(st.words) && st.length != 0 && RunningArgs(st, w)
    ensures Ready(st) && GridArgs(st, Middle(st.length), EmptySator(st.length))
    ensures CentralOk(st.length, w) ==> ShapeArgs(st, w, Middle(st.length), EmptySator(st.length))
  {
    var n, m, g := st.length, Middle(st.length), EmptySator(st.length);
    assert n >= 1;
    assert m + 1 >= n - 1 - m;
    assert FilledExactly(g, m + 1) by {
      forall i | 0 <= i < |g.content| ensures (g.content[i].Some? <==> m + 1 <= i < n - (m + 1)) {
        assert g.content[i].None?;
      }
    }
  }

  /** The `generator` loop over the central words `seeds`, one search from the
      middle row of the empty grid per word. The set of results it checks
      against holds grids compared by identity, so it never skips one. */
  function GenerateFrom(st: Satorter, seeds: seq<Word>): (res: seq<Sator>)
    requires Searchable(st.words) && st.length != 0
    requires forall w {:trigger w in seeds} :: w in seeds ==> RunningArgs(st, w)
  {
    if seeds == [] then []
    else
      assert seeds[0] in seeds;
      assert forall w :: w in seeds[1..] ==> w in seeds;
      StartArgs(st, seeds[0]);
      Search(st, seeds[0], Middle(st.length), EmptySator(st.length)) + GenerateFrom(st, seeds[1..])
  }

  /** `generator`: every grid found from every central word, in order. */
  function Generate(st: Satorter): (res: seq<Sator>)
    requires Searchable(st.words) && st.length != 0
  {
    GenerateFrom(st, Seeds(st))
  }

  lemma {:induction false} GenerateFromShape(st: Satorter, seeds: seq<Word>)
    requires Searchable(st.words) && st.length != 0
    requires forall w {:trigger w in seeds} :: w in seeds ==> RunningArgs(st, w) && CentralOk(st.length, w)
    ensures AllYieldable(st, GenerateFrom(st, seeds), Middle(st.length))
  {
    if seeds != [] {
      assert seeds[0] in seeds;
      assert forall w :: w in seeds[1..] ==> w in seeds;
      StartArgs(st, seeds[0]);
      SearchShape(st, seeds[0], Middle(st.length), EmptySator(st.length));
      GenerateFromShape(st, seeds[1..]);
    }
  }

  /** Every grid `generator` yields has the search's length and is in shape:
      filled from some ring inwards, each row a stored word, mirrored, its
      columns matched, and short of complete by no more rings than the
      tolerance. */
  lemma GenerateShape(st: Satorter)
    requires Searchable(st.words) && st.length != 0
    ensures forall r :: r in Generate(st) ==> Yieldable(st, r, Middle(st.length))
  {
    GenerateFromShape(st, Seeds(st));
  }

  /** Without tolerance every yielded grid is complete: every row holds a
      stored word. */
  lemma GenerateComplete(st: Satorter)
    requires Searchable(st.words) && st.length != 0 && st.nearMiss <= 0
    ensures forall r :: r in Generate(st) ==> r.length == st.length && Shape(st.words, r, 0)
  {
    GenerateShape(st);
    forall r | r in Generate(st) ensures r.length == st.length && Shape(st.words, r, 0) {
      var lo :| 0 <= lo <= Middle(st.length) && (lo == 0 || lo <= st.nearMiss) && Shape(st.words, r, lo);
    }
  }

  /** Every grid found from a central word in `seeds` is yielded by the loop
      over `seeds`. */
  lemma {:induction false} GenerateFromIncludes(st: Satorter, seeds: seq<Word>, w: Word)
    requires Searchable(st.words) && st.length != 0
    requires forall v {:trigger v in seeds} :: v in seeds ==> RunningArgs(st, v)
    requires w in seeds
    ensures Ready(st) && GridArgs(st, Middle(st.length), EmptySator(st.length))
    ensures Includes(Search(st, w, Middle(st.length), EmptySator(st.length)), GenerateFrom(st, seeds))
  {
    assert seeds[0] in seeds;
    assert forall v :: v in seeds[1..] ==> v in seeds;
    StartArgs(st, w);
    StartArgs(st, seeds[0]);
    if seeds[0] != w {
      assert w in seeds[1..];
      GenerateFromIncludes(st, seeds[1..], w);
    }
  }

  /** Emptied outside the middle row, a grid of a positive length is the empty
      grid the generator starts from. */
  lemma RestrictMiddle(st: Satorter, r: Sator)
    requires WellFormed(r) && r.length == st.length && st.length >= 1
    ensures Restrict(r, Middle(st.length) + 1) == EmptySator(st.length)
  {
    assert Restrict(r, Middle(st.length) + 1).content == EmptySator(st.length).content;
  }

  /** For an odd length the middle row of a complete grid reads the same
      both ways, since it is its own mirror. */
  lemma CentreSymmetric(st: Satorter, r: Sator)
    requires Complete(st, r) && st.length >= 1
    ensures st.length % 2 == 1 ==>
      Row(r, st.length - 1 - Middle(st.length)) == Invert(Row(r, st.length - 1 - Middle(st.length)))
  {
    var n, m := st.length, Middle(st.length);
    if n % 2 == 1 {
      assert n - 1 - m == m;
      assert MirrorAt(r, m);
    }
  }

  /** The lower middle row of a complete grid is a central word: a stored word
      with a partner that passes the centre filter. */
  lemma CentreSeed(st: Satorter, r: Sator)
    requires Ready(st) && Complete(st, r)
    ensures Row(r, st.length - 1 - Middle(st.length)) in st.words.words.content
    ensures RowWord(st.words, r, st.length - 1 - Middle(st.length)) in Seeds(st)
  {
    RowWordRuns(st, r, Middle(st.length));
    CentreSymmetric(st, r);
  }

  /** The search from the central word of a complete grid, on the empty grid,
      finds the grid. */
  lemma CentreFinds(st: Satorter, r: Sator) returns (w: Word)
    requires Ready(st) && Complete(st, r)
    ensures w in Seeds(st) && RunningArgs(st, w) && GridArgs(st, Middle(st.length), EmptySator(st.length))
    ensures r in Search(st, w, Middle(st.length), EmptySator(st.length))
  {
    SearchComplete(st, r, Middle(st.length));
    CentreSeed(st, r);
    RestrictMiddle(st, r);
    w := RowWord(st.words, r, st.length - 1 - Middle(st.length));
    CentreFound(st, r, w, Restrict(r, Middle(st.length) + 1));
  }

  /** Inside the middle ring a grid is empty, so if the search from the middle
      ring of `r` finds `r`, so does the search from its lower middle row on
      the empty grid. */
  lemma CentreFound(st: Satorter, r: Sator, w: Word, g: Sator)
    requires WellFormed(r) && FoundReady(st, r, Middle(st.length))
    requires w == RowWord(st.words, r, st.length - 1 - Middle(st.length)) && g == Restrict(r, Middle(st.length) + 1)
    requires g == EmptySator(st.length)
    requires r in Search(st, w, Middle(st.length), g)
    ensures RunningArgs(st, w) && GridArgs(st, Middle(st.length), EmptySator(st.length))
    ensures r in Search(st, w, Middle(st.length), EmptySator(st.length))
  {
  }

  /** The search is exhaustive: every complete grid of the search's length,
      with every row a stored word, mirrored and with its columns matched, is
      yielded by `generator`, whatever the tolerance. */
  lemma GenerateFindsComplete(st: Satorter, r: Sator)
    requires Searchable(st.words) && st.length >= 1 && Complete(st, r)
    ensures r in Generate(st)
  {
    var w := CentreFinds(st, r);
    GenerateFromIncludes(st, Seeds(st), w);
  }

  /** Without tolerance `generator` yields exactly the complete grids of the
      search's length. */
  lemma GenerateExactly(st: Satorter, r: Sator)
    requires Searchable(st.words) && st.length >= 1 && st.nearMiss <= 0
    ensures r in Generate(st) <==> Complete(st, r)
  {
    GenerateComplete(st);
    if Complete(st, r) {
      GenerateFindsComplete(st, r);
    }
  }

  lemma {:induction false} GenerateFromMonotone(st: Satorter, m: int, seeds: seq<Word>)
    requires Searchable(st.words) && st.length != 0 && st.nearMiss <= m
    requires forall w {:trigger w in seeds} :: w in seeds ==> RunningArgs(st, w)
    ensures IsSubsequence(GenerateFrom(st, seeds), GenerateFrom(st.(nearMiss := m), seeds))
  {
    var st' := st.(nearMiss := m);
    if seeds == [] {
      SubsequenceReflexive(GenerateFrom(st, seeds));
    } else {
      assert seeds[0] in seeds;
      assert forall w :: w in seeds[1..] ==> w in seeds;
      StartArgs(st, seeds[0]);
      var n, mid, g := st.length, Middle(st.length), EmptySator(st.length);
      SearchMonotone(st, m, seeds[0], mid, g);
      GenerateFromMonotone(st, m, seeds[1..]);
      SubsequenceConcat(Search(st, seeds[0], mid, g), Search(st', seeds[0], mid, g),
        GenerateFrom(st, seeds[1..]), GenerateFrom(st', seeds[1..]));
    }
  }

  /** Raising `near_miss` keeps every grid found before, in the same order. */
  lemma GenerateMonotone(st: Satorter, m: int)
    requires Searchable(st.words) && st.length != 0 && st.nearMiss <= m
    ensures IsSubsequence(Generate(st), Generate(st.(nearMiss := m)))
  {
    assert Seeds(st) == Seeds(st.(nearMiss := m));
    GenerateFromMonotone(st, m, Seeds(st));
  }

  /** The square as inscribed, rows SATOR AREPO TENET OPERA ROTAS. */
  const Inscribed := Sator(5, [Some("sator"), Some("arepo"), Some("tenet"), Some("opera"), Some("rotas")])

  /** The same words with AREPO and OPERA swapped. */
  const Swapped := Sator(5, [Some("sator"), Some("opera"), Some("tenet"), Some("arepo"), Some("rotas")])

  /** The inscribed square breaks the column rule: letter 1 of ROTAS is "o",
      letter 0 of AREPO is "a". */
  lemma InscribedNotYieldable(st: Satorter, pos: int)
    ensures !ColumnsMatch(Inscribed, 0)
    ensures !Yieldable(st, Inscribed, pos)
  {
    assert !ColumnAt(Inscribed, 0, 1);
    assert Inscribed.content[0].Some?;
  }

  /** So `generator` never yields the inscribed square, whatever the word
      list and the tolerance. */
  lemma InscribedNeverGenerated(st: Satorter)
    requires Searchable(st.words) && st.length != 0
    ensures Inscribed !in Generate(st)
  {
    GenerateShape(st);
    InscribedNotYieldable(st, Middle(st.length));
  }

  /** The reversals the swapped square relies on. */
  lemma SquareWordsReversed()
    ensures Invert("sator") == "rotas" && Invert("rotas") == "sator"
    ensures Invert("opera") == "arepo" && Invert("arepo") == "opera"
    ensures Invert("tenet") == "tenet"
  {
    Reversed("sator", "rotas");
    Reversed("opera", "arepo");
    Reversed("tenet", "tenet");
  }

  /** Two five-letter words are each other's reversal when their letters
      match end to end. */
  lemma Reversed(a: string, b: string)
    requires |a| == 5 && |b| == 5
    requires a[0] == b[4] && a[1] == b[3] && a[2] == b[2] && a[3] == b[1] && a[4] == b[0]
    ensures Invert(a) == b && Invert(b) == a
  {
    InvertAt(a);
    InvertAt(b);
  }

  /** The square with AREPO and OPERA swapped meets both the mirror rule and
      the column rule. */
  lemma SwappedMeetsRules()
    ensures Mirrored(Swapped, 0) && ColumnsMatch(Swapped, 0)
  {
    SquareWordsReversed();
    forall i | 0 <= i < 5 ensures MirrorAt(Swapped, i) {
      assert i == 0 || i == 1 || i == 2 || i == 3 || i == 4;
    }
    forall q, k | 0 <= q < k < 4 - q ensures ColumnAt(Swapped, q, k) {
      assert (q == 0 && (k == 1 || k == 2 || k == 3)) || (q == 1 && k == 2);
    }
  }
}
