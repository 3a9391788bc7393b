/** The text helpers of sator.py: `deaccent` and `invert`. */
module Text {

  /** The replacements `deaccent` applies, in the order its loop applies them. */
  const Replacements: seq<(char, char)> :=
    [('á', 'a'), ('é', 'e'), ('í', 'i'), ('ó', 'o'), ('ú', 'u'),
     ('ü', 'u'), ('î', 'i'), ('ö', 'o'), ('Á', 'a')]

  /** The nine characters `deaccent` rewrites. */
  const Accented: set<char> := {'á', 'é', 'í', 'ó', 'ú', 'ü', 'î', 'ö', 'Á'}

  /** Reference table: what one character becomes after de-accenting. */
  function DeaccentChar(c: char): char
  {
    match c
    case 'á' => 'a'
    case 'é' => 'e'
    case 'í' => 'i'
    case 'ó' => 'o'
    case 'ú' => 'u'
    case 'ü' => 'u'
    case 'î' => 'i'
    case 'ö' => 'o'
    case 'Á' => 'a'
    case _ => c
  }

  /** String replacement of one character by another: every occurrence of `x` becomes `y`. */
  function ReplaceChar(s: string, x: char, y: char): (r: string)
    ensures |r| == |s|
    ensures forall i :: 0 <= i < |s| ==> r[i] == (if s[i] == x then y else s[i])
  {
    if s == [] then [] else [if s[0] == x then y else s[0]] + ReplaceChar(s[1..], x, y)
  }

  /** The loop of `deaccent`: apply each replacement in turn to the whole string. */
  function ReplaceAll(s: string, pairs: seq<(char, char)>): string
    decreases |pairs|
  {
    if pairs == [] then s else ReplaceAll(ReplaceChar(s, pairs[0].0, pairs[0].1), pairs[1..])
  }

  /** What the replacement loop does to a single character. */
  function ReplaceAllChar(c: char, pairs: seq<(char, char)>): char
    decreases |pairs|
  {
    if pairs == [] then c
    else ReplaceAllChar(if c == pairs[0].0 then pairs[0].1 else c, pairs[1..])
  }

  /** `deaccent`: the replacement loop over the whole string. */
  function Deaccent(s: string): (r: string)
    ensures |r| == |s|
  {
    ReplaceAllPointwise(s, Replacements);
    ReplaceAll(s, Replacements)
  }

  /** `deaccent` rewrites each character by the reference table, and so
      changes exactly the nine accented characters. */
  lemma DeaccentPointwise(s: string)
    ensures forall i :: 0 <= i < |s| ==> Deaccent(s)[i] == DeaccentChar(s[i])
    ensures forall i :: 0 <= i < |s| ==> (Deaccent(s)[i] == s[i] <==> s[i] !in Accented)
  {
    ReplaceAllPointwise(s, Replacements);
    forall i | 0 <= i < |s|
      ensures Deaccent(s)[i] == DeaccentChar(s[i])
      ensures Deaccent(s)[i] == s[i] <==> s[i] !in Accented
    {
      ReplacementsMatchTable(s[i]);
      DeaccentCharChanges(s[i]);
    }
  }

  /** The reference table moves exactly the nine accented characters, and
      never onto an accented character. */
  lemma DeaccentCharChanges(c: char)
    ensures DeaccentChar(c) == c <==> c !in Accented
    ensures DeaccentChar(c) !in Accented
  {
  }

  /** The replacement loop acts on each position independently. */
  lemma {:induction false} ReplaceAllPointwise(s: string, pairs: seq<(char, char)>)
    ensures |ReplaceAll(s, pairs)| == |s|
    ensures forall i :: 0 <= i < |s| ==> ReplaceAll(s, pairs)[i] == ReplaceAllChar(s[i], pairs)
    decreases |pairs|
  {
    if pairs != [] {
      var s' := ReplaceChar(s, pairs[0].0, pairs[0].1);
      ReplaceAllPointwise(s', pairs[1..]);
    }
  }

  /** Applied in order, the nine replacements agree with the reference table. */
  lemma ReplacementsMatchTable(c: char)
    ensures ReplaceAllChar(c, Replacements) == DeaccentChar(c)
  {
  }

  /** De-accenting twice is the same as de-accenting once. */
  lemma DeaccentIdempotent(s: string)
    ensures Deaccent(Deaccent(s)) == Deaccent(s)
  {
    var d := Deaccent(s);
    DeaccentPointwise(s);
    DeaccentPointwise(d);
    forall i | 0 <= i < |d| ensures Deaccent(d)[i] == d[i] {
      DeaccentCharChanges(s[i]);
    }
  }

  /** A string without any of the nine accented characters is left as it is. */
  lemma DeaccentPlain(s: string)
    requires forall i :: 0 <= i < |s| ==> s[i] !in Accented
    ensures Deaccent(s) == s
  {
    DeaccentPointwise(s);
  }

  /** The one case-folding asymmetry: upper-case 'Á' becomes lower-case 'a'. */
  lemma DeaccentUpperAcute()
    ensures Deaccent("Á") == "a"
    ensures Deaccent("a") == "a"
  {
    DeaccentPointwise("Á");
    DeaccentPointwise("a");
    assert Deaccent("Á")[0] == 'a';
    assert Deaccent("a")[0] == 'a';
  }

  /** `invert`: the word read backwards. */
  function Invert(s: string): (r: string)
    ensures |r| == |s|
  {
    if s == [] then [] else Invert(s[1..]) + [s[0]]
  }

  /** Position `i` of the reversal holds the character `i` places from the end.
      (Kept out of `Invert`'s contract: as an always-on fact it makes the
      solver loop on palindromes.) */
  lemma {:induction false} InvertAt(s: string)
    ensures forall i :: 0 <= i < |s| ==> Invert(s)[i] == s[|s| - 1 - i]
  {
    if s != [] {
      InvertAt(s[1..]);
    }
  }

  /** The reversal holds the same characters, as many times each. */
  lemma {:induction false} InvertPermutes(s: string)
    ensures multiset(Invert(s)) == multiset(s)
  {
    if s != [] {
      InvertPermutes(s[1..]);
      assert s == [s[0]] + s[1..];
    }
  }

  /** `invert` is an involution. */
  lemma InvertInvolution(s: string)
    ensures Invert(Invert(s)) == s
  {
    InvertAt(s);
    InvertAt(Invert(s));
  }

  /** Reads the same forwards and backwards, stated position by position. */
  predicate IsPalindrome(s: string)
  {
    forall i :: 0 <= i < |s| ==> s[i] == s[|s| - 1 - i]
  }

  /** Equality with the reversal is exactly the positional palindrome property. */
  lemma InvertFixedIffPalindrome(s: string)
    ensures s == Invert(s) <==> IsPalindrome(s)
  {
    InvertAt(s);
    if IsPalindrome(s) {
      assert forall i :: 0 <= i < |s| ==> Invert(s)[i] == s[i];
    }
  }

  /** De-accenting commutes with reversal, so reverse partners stay partners. */
  lemma DeaccentInvert(s: string)
    ensures Deaccent(Invert(s)) == Invert(Deaccent(s))
  {
    InvertAt(s);
    InvertAt(Deaccent(s));
    DeaccentPointwise(s);
    DeaccentPointwise(Invert(s));
  }
}
