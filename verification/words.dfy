/** The `Word` class of sator.py: a token compared by its de-accented form.
    The reverse partner that the `Inverted` descriptor stores as an object
    reference is kept here as the partner's de-accented key. */
module Words {
  import opened Wrappers
  import opened Text

  /** `inverted` is `None` until a partner is linked; it then holds the
      partner's de-accented form. */
  datatype Word = Word(original: string, deaccented: string, inverted: Option<string>)

  /** The cached `is_symmetrical` property: the de-accented form equals its reversal. */
  predicate IsSymmetrical(w: Word)
  {
    w.deaccented == Invert(w.deaccented)
  }

  /** A word is symmetrical exactly when its de-accented form reads the same
      at each position from either end. */
  lemma SymmetricalIffPalindrome(w: Word)
    ensures IsSymmetrical(w) <==> IsPalindrome(w.deaccented)
  {
    InvertFixedIffPalindrome(w.deaccented);
  }

  /** `Word(original)`: de-accents the text and, for a palindrome, links the
      word to itself as its own partner. */
  function NewWord(original: string): (w: Word)
    ensures w.original == original
    ensures w.deaccented == Deaccent(original)
    ensures |w.deaccented| == |original|
    ensures forall i :: 0 <= i < |original| ==> w.deaccented[i] == DeaccentChar(original[i])
    ensures w.inverted.Some? <==> IsPalindrome(w.deaccented)
    ensures w.inverted.Some? ==> w.inverted.value == w.deaccented
  {
    var d := Deaccent(original);
    DeaccentPointwise(original);
    InvertFixedIffPalindrome(d);
    var w := Word(original, d, None);
    if IsSymmetrical(w) then w.(inverted := Some(d)) else w
  }

  /** `len(word)`: the length of the de-accented form, which is also the
      length of the original text. */
  function Len(w: Word): (n: nat)
  {
    |w.deaccented|
  }

  /** Python truthiness of `w.inverted`: a partner is linked and, since a
      `Word` is as true as its length, its de-accented form is not empty. */
  predicate Reversible(w: Word)
  {
    w.inverted.Some? && w.inverted.value != []
  }

  lemma NewWordLen(original: string)
    ensures Len(NewWord(original)) == |original|
  {
  }

  /** The right-hand operand of `Word.__eq__`: `None`, a raw string, or a `Word`. */
  datatype Operand = NoneOperand | Str(s: string) | Obj(w: Word)

  /** `Word.__eq__`: never equal to `None`; a raw string is de-accented before
      comparing; another word is compared by its de-accented form. */
  function Equals(w: Word, other: Operand): (b: bool)
    ensures other.NoneOperand? ==> !b
    ensures other.Str? && b ==> Len(w) == |other.s|
    ensures other.Obj? && b ==> Len(w) == Len(other.w)
  {
    match other
    case NoneOperand => false
    case Str(s) => w.deaccented == Deaccent(s)
    case Obj(v) => w.deaccented == v.deaccented
  }

  /** Comparing with a raw string is comparing with the word built from it. */
  lemma EqualsStrIsEqualsWord(w: Word, s: string)
    ensures Equals(w, Str(s)) <==> Equals(w, Obj(NewWord(s)))
  {
  }

  /** Word equality is an equivalence relation on words. */
  lemma EqualsIsEquivalence(u: Word, v: Word, w: Word)
    ensures Equals(u, Obj(u))
    ensures Equals(u, Obj(v)) ==> Equals(v, Obj(u))
    ensures Equals(u, Obj(v)) && Equals(v, Obj(w)) ==> Equals(u, Obj(w))
  {
  }

  /** Two raw strings build equal words exactly when, read position by
      position through the reference table, they agree. */
  lemma EqualsIgnoresAccents(a: string, b: string)
    ensures Equals(NewWord(a), Obj(NewWord(b))) <==>
      (|a| == |b| && forall i :: 0 <= i < |a| ==> DeaccentChar(a[i]) == DeaccentChar(b[i]))
  {
    var wa, wb := NewWord(a), NewWord(b);
    ImagesAgree(a, b, wa.deaccented, wb.deaccented);
  }

  /** Two strings read letter by letter through the reference table are equal
      exactly when the strings have the same length and agree letter by
      letter under the table. */
  lemma ImagesAgree(a: string, b: string, da: string, db: string)
    requires |da| == |a| && forall i :: 0 <= i < |a| ==> da[i] == DeaccentChar(a[i])
    requires |db| == |b| && forall i :: 0 <= i < |b| ==> db[i] == DeaccentChar(b[i])
    ensures da == db <==> (|a| == |b| && forall i :: 0 <= i < |a| ==> DeaccentChar(a[i]) == DeaccentChar(b[i]))
  {
    if |a| == |b| && forall i :: 0 <= i < |a| ==> DeaccentChar(a[i]) == DeaccentChar(b[i]) {
      assert forall i :: 0 <= i < |a| ==> da[i] == db[i];
    }
  }
}
