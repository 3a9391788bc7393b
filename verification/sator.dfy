/** The `Sator` grid of sator.py: a row array of fixed length in which
    placing a word at one row also places its partner at the mirror row. */
module Sators {
  import opened Wrappers
  import opened Words

  /** A grid: its declared `length` and its rows, each a de-accented key or
      an empty slot. */
  datatype Sator = Sator(length: int, content: seq<Option<string>>)

  /** What `Sator` raises: the constructor's length assertion, the
      reversibility assertion of `__setitem__`, and an out-of-range index. */
  datatype SatorError = BadContentLength | NotReversible | IndexError

  /** The number of empty slots a new grid gets: its length, or none for a
      negative length. */
  function Clamp(n: int): nat
  {
    if n < 0 then 0 else n
  }

  /** What the constructor guarantees about every grid it builds. */
  predicate WellFormed(g: Sator)
  {
    |g.content| == Clamp(g.length)
  }

  /** `Sator(length, content)`. An absent and an empty `content` are both
      falsy, and both are written `[]` here. */
  function NewSator(length: int, content: seq<Option<string>>): (r: Result<Sator, SatorError>)
    ensures r.Failure? <==> content != [] && |content| != length
    ensures r.Success? ==> WellFormed(r.value) && r.value.length == length
    ensures r.Success? && content != [] ==> r.value.content == content
    ensures r.Success? && content == [] ==> forall i :: 0 <= i < |r.value.content| ==> r.value.content[i].None?
  {
    if content != [] && |content| != length then Failure(BadContentLength)
    else if content != [] then Success(Sator(length, content))
    else Success(Sator(length, seq(Clamp(length), _ => None)))
  }

  /** The empty grid `Sator(length)`. */
  function EmptySator(length: int): (g: Sator)
    ensures WellFormed(g) && g.length == length
    ensures forall i :: 0 <= i < |g.content| ==> g.content[i].None?
  {
    NewSator(length, []).value
  }

  /** Python list indexing: `i` addresses slot `i` when `0 <= i < len` and
      slot `len + i` when `-len <= i < 0`; anything else is an `IndexError`. */
  function PyIndex(i: int, len: nat): (r: Option<nat>)
    ensures r.Some? <==> 0 <= len + i && i < len
    ensures r.Some? ==> r.value < len && (r.value as int == i || r.value as int == len + i)
  {
    if 0 <= i < len then Some(i) else if 0 <= len + i && i < 0 then Some(len + i) else None
  }

  /** `__setitem__(pos, word)`: fails unless the word has a (non-empty)
      partner, then writes the word at `pos` and, off the centre, its partner
      at `length - pos - 1`, each with Python's indexing rules. */
  function SetItem(g: Sator, pos: int, w: Word): (r: Result<Sator, SatorError>)
    ensures r.Success? <==>
      && Reversible(w)
      && PyIndex(pos, |g.content|).Some?
      && (2 * pos + 1 == g.length || PyIndex(g.length - pos - 1, |g.content|).Some?)
    ensures r.Failure? && !Reversible(w) ==> r.error == NotReversible
    ensures r.Success? ==> r.value.length == g.length && |r.value.content| == |g.content|
  {
    if !Reversible(w) then Failure(NotReversible)
    else match PyIndex(pos, |g.content|)
      case None => Failure(IndexError)
      case Some(i) =>
        var c := g.content[i := Some(w.deaccented)];
        if 2 * pos + 1 == g.length then Success(g.(content := c))
        else match PyIndex(g.length - pos - 1, |c|)
          case None => Failure(IndexError)
          case Some(j) => Success(g.(content := c[j := w.inverted]))
  }

  /** Placing at a row inside the grid: the word lands at `pos`, its partner
      at the mirror row unless `pos` is the centre, and no other row changes. */
  lemma SetItemPlacement(g: Sator, pos: int, w: Word)
    requires WellFormed(g) && 0 <= pos < g.length && Reversible(w)
    ensures SetItem(g, pos, w).Success?
    ensures var c := SetItem(g, pos, w).value.content;
      && c[pos] == Some(w.deaccented)
      && (2 * pos + 1 != g.length ==> c[g.length - 1 - pos] == w.inverted)
      && forall i :: 0 <= i < |c| && i != pos && i != g.length - 1 - pos ==> c[i] == g.content[i]
  {
  }

  /** A negative row never succeeds on a non-empty grid: if the row itself is
      in range, the mirror row `length - pos - 1` is past the end. */
  lemma SetItemNegativeFails(g: Sator, pos: int, w: Word)
    requires WellFormed(g) && g.length > 0 && pos < 0
    ensures SetItem(g, pos, w).Failure?
  {
  }

  /** `__copy__`: a new grid built from the same length and a copy of the rows. */
  function Copy(g: Sator): (r: Result<Sator, SatorError>)
    ensures WellFormed(g) ==> r == Success(g)
  {
    NewSator(g.length, g.content)
  }

  /** `copy_with_word_in_pos(word, pos)`: place into a copy. Values are
      immutable, so the grid it was called on is left as it was. */
  function CopyWithWordInPos(g: Sator, w: Word, pos: int): (r: Result<Sator, SatorError>)
    requires WellFormed(g)
    ensures r == SetItem(g, pos, w)
  {
    match Copy(g)
    case Failure(e) => Failure(e)
    case Success(c) => SetItem(c, pos, w)
  }
}
