/** The `WordsList` index of sator.py (with its `DictStorage`): a map from
    de-accented key to `Word`, reverse partners wired while filling it, and
    a positional index from (letter, position) to the keys having that
    letter there. */
module WordsLists {
  import opened Wrappers
  import opened Text
  import opened Words
  import opened Sorting

  /** `DictStorage`: a Python dict, which iterates its keys in order of first
      insertion; assigning to an existing key keeps that key's place. */
  datatype DictStorage = DictStorage(order: seq<string>, content: map<string, Word>)

  const EmptyDict := DictStorage([], map[])

  /** The order lists each stored key exactly once. */
  ghost predicate DictOk(d: DictStorage)
  {
    && (forall i, j :: 0 <= i < j < |d.order| ==> d.order[i] != d.order[j])
    && (forall k :: k in d.content <==> k in d.order)
  }

  /** `DictStorage.get(item)` with the default `None`. */
  function Get(d: DictStorage, item: string): (r: Option<Word>)
    ensures r.Some? <==> item in d.content
    ensures Keyed(d) && r.Some? ==> r.value.deaccented == item
  {
    if item in d.content then Some(d.content[item]) else None
  }

  /** `DictStorage.set(item, value)`: a new key goes last, an existing key keeps its place. */
  function Set(d: DictStorage, item: string, value: Word): (r: DictStorage)
    requires DictOk(d)
    ensures DictOk(r)
    ensures r.content == d.content[item := value]
    ensures item in d.content ==> r.order == d.order
    ensures item !in d.content ==> r.order == d.order + [item]
  {
    if item in d.content then d.(content := d.content[item := value])
    else DictStorage(d.order + [item], d.content[item := value])
  }

  /** Setting a key adds it to the keys and leaves every other entry alone. */
  lemma SetKeeps(d: DictStorage, item: string, value: Word)
    requires DictOk(d)
    ensures Set(d, item, value).content.Keys == d.content.Keys + {item}
    ensures Set(d, item, value).content[item] == value
    ensures forall j :: j in d.content && j != item ==> Set(d, item, value).content[j] == d.content[j]
  {
  }

  /** Reading a key after setting it gives the value set; every other key
      reads as before. */
  lemma GetAfterSet(d: DictStorage, item: string, value: Word, j: string)
    requires DictOk(d)
    ensures Get(Set(d, item, value), j) == if j == item then Some(value) else Get(d, j)
  {
  }

  /** A key index in which every stored word sits under its own de-accented form. */
  ghost predicate Keyed(d: DictStorage)
  {
    && DictOk(d)
    && forall k {:trigger d.content[k]} :: k in d.content ==> d.content[k].deaccented == k
  }

  /** The stored words whose keys are in `hits`, in the dict's iteration order. */
  function Pick(order: seq<string>, content: map<string, Word>, hits: set<string>): (r: seq<Word>)
    requires forall k :: k in order ==> k in content && content[k].deaccented == k
    ensures forall w {:trigger w in r} :: w in r <==>
      (w.deaccented in order && w.deaccented in hits && content[w.deaccented] == w)
  {
    if order == [] then []
    else
      var rest := Pick(order[1..], content, hits);
      assert forall k :: k in order <==> k == order[0] || k in order[1..];
      if order[0] in hits then [content[order[0]]] + rest else rest
  }

  /** Python set for a missing (letter, position): empty. */
  function Bucket(lp: map<(char, int), set<string>>, key: (char, int)): set<string>
  {
    if key in lp then lp[key] else {}
  }

  /** The index object. `source` is the filtered, sorted `_words` list. */
  datatype WordsList = WordsList(
    length: Option<int>,
    source: seq<string>,
    words: DictStorage,
    lAndP: map<(char, int), set<string>>)

  /** Every stored word's key is the de-accented form of its original text. */
  ghost predicate OriginalsOk(c: map<string, Word>)
  {
    forall k :: k in c ==> Deaccent(c[k].original) == k
  }

  /** A partner, when present, is the reversed key, and it is present exactly
      when the reversed key is stored. */
  ghost predicate PartnersOk(c: map<string, Word>)
  {
    && (forall k {:trigger c[k]} :: k in c && c[k].inverted.Some? ==> c[k].inverted.value == Invert(k))
    && (forall k {:trigger c[k]} :: k in c ==> (c[k].inverted.Some? <==> Invert(k) in c))
  }

  /** Every key in a bucket of the positional index is stored and has that
      letter at that position. */
  ghost predicate BucketsSound(lp: map<(char, int), set<string>>, c: map<string, Word>)
  {
    forall key, s {:trigger s in lp[key]} :: key in lp && s in lp[key] ==> s in c && 0 <= key.1 < |s| && s[key.1] == key.0
  }

  /** Every stored key is in the bucket of each of its (letter, position) pairs. */
  ghost predicate BucketsComplete(lp: map<(char, int), set<string>>, c: map<string, Word>)
  {
    forall s, p {:trigger (s[p], p)} :: s in c && 0 <= p < |s| ==> (s[p], p) in lp && s in lp[(s[p], p)]
  }

  /** The part of the invariant the queries rely on: keys, partners and an
      exact positional index. */
  ghost predicate Searchable(ix: WordsList)
  {
    && Keyed(ix.words)
    && PartnersOk(ix.words.content)
    && BucketsSound(ix.lAndP, ix.words.content)
    && BucketsComplete(ix.lAndP, ix.words.content)
  }

  /** What `setup` maintains. */
  ghost predicate Valid(ix: WordsList)
  {
    Searchable(ix) && OriginalsOk(ix.words.content)
  }

  /** `register_word_letter_and_position`, from position `i` on: adds `k` to
      the bucket of each of its (letter, position) pairs. */
  function RegisterFrom(lp: map<(char, int), set<string>>, k: string, i: nat): (r: map<(char, int), set<string>>)
    requires i <= |k|
    ensures forall key :: key in r <==> key in lp || (i <= key.1 < |k| && k[key.1] == key.0)
    ensures forall key :: key in r ==>
      r[key] == Bucket(lp, key) + (if i <= key.1 < |k| && k[key.1] == key.0 then {k} else {})
    decreases |k| - i
  {
    if i == |k| then lp
    else RegisterFrom(lp[(k[i], i) := Bucket(lp, (k[i], i)) + {k}], k, i + 1)
  }

  /** `Inverted.__set__` on the stored word at `obj`, with the stored word at
      `value` as the new partner: the link is written, and the reciprocal link
      only if the other side has none yet. */
  function SetInverted(d: DictStorage, obj: string, value: string): (r: DictStorage)
    requires DictOk(d) && obj in d.content && value in d.content
    ensures DictOk(r) && r.order == d.order && r.content.Keys == d.content.Keys
    ensures r.content[obj].inverted == Some(value)
    ensures r.content[value].inverted.Some?
    ensures d.content[value].inverted.None? ==> r.content[value].inverted == Some(obj)
    ensures d.content[value].inverted.Some? ==> r.content[value] == d.content[value] || value == obj
    ensures forall j :: j in d.content && j != obj && j != value ==> r.content[j] == d.content[j]
    ensures forall j :: j in d.content ==>
      r.content[j].original == d.content[j].original && r.content[j].deaccented == d.content[j].deaccented
  {
    var d1 := Set(d, obj, d.content[obj].(inverted := Some(value)));
    var v := d1.content[value];
    if v.inverted.None? then Set(d1, value, v.(inverted := Some(obj))) else d1
  }

  /** The linking step of the `setup` loop for the just-stored key `k`: if a
      non-empty word is stored under the reversed key, it becomes `k`'s partner. */
  function Link(d: DictStorage, k: string): (r: DictStorage)
    requires DictOk(d) && k in d.content
    ensures DictOk(r) && r.order == d.order && r.content.Keys == d.content.Keys
    ensures forall j :: j in d.content ==>
      r.content[j].original == d.content[j].original && r.content[j].deaccented == d.content[j].deaccented
    ensures forall j :: j in d.content && j != k && j != Invert(k) ==> r.content[j] == d.content[j]
    ensures forall j :: j in d.content && j != k && d.content[j].inverted.Some? ==>
      r.content[j].inverted == d.content[j].inverted
  {
    var found := Get(d, Invert(k));
    if found.Some? && Len(found.value) > 0 then SetInverted(d, k, Invert(k)) else d
  }

  /** `PartnersOk` apart from the presence of a partner at `k` and at its reversal. */
  ghost predicate PartnersOkExcept(c: map<string, Word>, k: string)
  {
    && (forall j {:trigger c[j]} :: j in c && c[j].inverted.Some? ==> c[j].inverted.value == Invert(j))
    && (forall j {:trigger c[j]} :: j in c && j != k && j != Invert(k) ==> (c[j].inverted.Some? <==> Invert(j) in c))
  }

  /** Storing a freshly built word leaves every other key's partner state consistent. */
  lemma StoreKeepsPartners(c: map<string, Word>, k: string, w: Word)
    requires PartnersOk(c)
    requires w.deaccented == k
    requires w.inverted == (if k == Invert(k) then Some(k) else None)
    ensures PartnersOkExcept(c[k := w], k)
  {
    var c1 := c[k := w];
    forall j | j in c1 && j != k && j != Invert(k)
      ensures c1[j].inverted.Some? <==> Invert(j) in c1
    {
      InvertInvolution(j);
    }
  }

  /** After the linking step every partner clause holds again. */
  lemma LinkRestoresPartners(d: DictStorage, k: string)
    requires Keyed(d) && k in d.content
    requires PartnersOkExcept(d.content, k)
    requires d.content[k].inverted == (if k == Invert(k) then Some(k) else None)
    ensures PartnersOk(Link(d, k).content)
  {
    var c0, c := d.content, Link(d, k).content;
    var rk := Invert(k);
    InvertInvolution(k);
    var found := Get(d, rk);
    if found.Some? && Len(found.value) > 0 {
      assert c == SetInverted(d, k, rk).content;
      forall j | j in c
        ensures c[j].inverted.Some? ==> c[j].inverted.value == Invert(j)
        ensures c[j].inverted.Some? <==> Invert(j) in c
      {
        if j == k {
        } else if j == rk {
          assert c[j].inverted.Some?;
        } else {
          assert c[j] == c0[j];
        }
      }
    } else {
      assert c == c0;
      if rk in c0 {
        assert |rk| == 0 && |k| == 0;
        assert k == rk;
      }
    }
  }

  /** Registering a newly stored key keeps the positional index exact. */
  lemma RegisterKeepsBuckets(lp: map<(char, int), set<string>>, c: map<string, Word>, k: string, c': map<string, Word>)
    requires BucketsSound(lp, c) && BucketsComplete(lp, c)
    requires c'.Keys == c.Keys + {k}
    ensures BucketsSound(RegisterFrom(lp, k, 0), c')
    ensures BucketsComplete(RegisterFrom(lp, k, 0), c')
  {
  }

  /** The storing step of the `setup` loop: a new `Word` of the string goes in
      under its de-accented key, replacing any word stored there before. */
  function Store(d: DictStorage, s: string): (r: DictStorage)
    requires DictOk(d)
    ensures DictOk(r)
    ensures r.content.Keys == d.content.Keys + {Deaccent(s)}
    ensures r.content[Deaccent(s)].original == s
    ensures r.content[Deaccent(s)].inverted ==
      (if Deaccent(s) == Invert(Deaccent(s)) then Some(Deaccent(s)) else None)
    ensures forall j :: j in d.content && j != Deaccent(s) ==> r.content[j] == d.content[j]
  {
    var word := NewWord(s);
    var k := word.deaccented;
    assert word.inverted == if k == Invert(k) then Some(k) else None by {
      InvertFixedIffPalindrome(k);
    }
    SetKeeps(d, k, word);
    Set(d, k, word)
  }

  /** Storing keeps every key-level invariant except the partner presence at
      the stored key and its reversal. */
  lemma StoreKeepsInvariants(d: DictStorage, s: string)
    requires Keyed(d) && OriginalsOk(d.content) && PartnersOk(d.content)
    ensures Keyed(Store(d, s)) && OriginalsOk(Store(d, s).content)
    ensures PartnersOkExcept(Store(d, s).content, Deaccent(s))
  {
    var word := NewWord(s);
    InvertFixedIffPalindrome(word.deaccented);
    StoreKeepsPartners(d.content, word.deaccented, word);
    StoreKeepsOriginals(d, word);
  }

  lemma StoreKeepsOriginals(d: DictStorage, w: Word)
    requires Keyed(d) && OriginalsOk(d.content)
    requires w.deaccented == Deaccent(w.original)
    ensures Keyed(Set(d, w.deaccented, w)) && OriginalsOk(Set(d, w.deaccented, w).content)
  {
    var c := Set(d, w.deaccented, w).content;
    forall j | j in c
      ensures Deaccent(c[j].original) == j && c[j].deaccented == j
    {
      if j != w.deaccented {
        assert c[j] == d.content[j];
      }
    }
  }

  /** One pass of the `setup` loop for the raw string `s`. */
  function AddWord(ix: WordsList, s: string): (r: WordsList)
    requires DictOk(ix.words)
    ensures DictOk(r.words)
    ensures r.length == ix.length && r.source == ix.source
    ensures r.words.content.Keys == ix.words.content.Keys + {Deaccent(s)}
    ensures r.words.content[Deaccent(s)].original == s
    ensures forall j :: j in ix.words.content && j != Deaccent(s) ==>
      r.words.content[j].original == ix.words.content[j].original
    ensures forall j :: j in ix.words.content && j != Deaccent(s) && j != Invert(Deaccent(s)) ==>
      r.words.content[j] == ix.words.content[j]
    ensures forall j :: j in ix.words.content && j != Deaccent(s) && ix.words.content[j].inverted.Some? ==>
      r.words.content[j].inverted == ix.words.content[j].inverted
  {
    var k := Deaccent(s);
    var words1 := Store(ix.words, s);
    ix.(words := Link(words1, k), lAndP := RegisterFrom(ix.lAndP, k, 0))
  }

  /** One pass of the `setup` loop keeps every invariant of the index. */
  lemma AddWordKeepsValid(ix: WordsList, s: string)
    requires Valid(ix)
    ensures Valid(AddWord(ix, s))
  {
    var k := Deaccent(s);
    var words1 := Store(ix.words, s);
    StoreKeepsInvariants(ix.words, s);
    LinkRestoresPartners(words1, k);
    LinkKeepsOriginals(words1, k);
    RegisterKeepsBuckets(ix.lAndP, ix.words.content, k, Link(words1, k).content);
  }

  lemma LinkKeepsOriginals(d: DictStorage, k: string)
    requires Keyed(d) && OriginalsOk(d.content) && k in d.content
    ensures Keyed(Link(d, k)) && OriginalsOk(Link(d, k).content)
  {
    var c := Link(d, k).content;
    forall j | j in c
      ensures Deaccent(c[j].original) == j && c[j].deaccented == j
    {
      assert c[j].original == d.content[j].original;
    }
  }

  /** The de-accented keys of a list of raw strings. */
  function KeysOf(ws: seq<string>): (r: set<string>)
  {
    if ws == [] then {} else {Deaccent(ws[0])} + KeysOf(ws[1..])
  }

  /** A key is among `KeysOf(ws)` exactly when some string of `ws` de-accents to it. */
  lemma {:induction false} KeysOfMembers(ws: seq<string>, k: string)
    ensures k in KeysOf(ws) <==> exists w :: w in ws && Deaccent(w) == k
  {
    if ws != [] {
      KeysOfMembers(ws[1..], k);
      assert forall w :: w in ws <==> w == ws[0] || w in ws[1..];
    }
  }

  /** The last string of `ws` whose de-accented form is `k`: the one whose
      `Word` survives in the index under `k` (later stores overwrite earlier). */
  function LastWith(ws: seq<string>, k: string): (r: Option<string>)
    ensures r.Some? <==> k in KeysOf(ws)
    ensures r.Some? ==> r.value in ws && Deaccent(r.value) == k
  {
    if ws == [] then None
    else
      var rest := LastWith(ws[1..], k);
      if rest.Some? then rest
      else if Deaccent(ws[0]) == k then Some(ws[0])
      else None
  }

  /** The `setup` loop over the remaining strings `ws`. */
  function SetupFrom(ix: WordsList, ws: seq<string>): (r: WordsList)
    requires DictOk(ix.words)
    ensures DictOk(r.words)
    ensures r.length == ix.length && r.source == ix.source
    decreases |ws|
  {
    if ws == [] then ix
    else SetupFrom(AddWord(ix, ws[0]), ws[1..])
  }

  /** The `setup` loop stores exactly the keys of the strings it goes over. */
  lemma {:induction false} SetupFromKeys(ix: WordsList, ws: seq<string>)
    requires DictOk(ix.words)
    ensures SetupFrom(ix, ws).words.content.Keys == ix.words.content.Keys + KeysOf(ws)
    decreases |ws|
  {
    if ws != [] {
      var ix1 := AddWord(ix, ws[0]);
      assert ix1.words.content.Keys == ix.words.content.Keys + {Deaccent(ws[0])};
      SetupFromKeys(ix1, ws[1..]);
    }
  }

  /** The `setup` loop keeps every invariant of the index. */
  lemma {:induction false} SetupFromKeepsValid(ix: WordsList, ws: seq<string>)
    requires Valid(ix)
    ensures Valid(SetupFrom(ix, ws))
    decreases |ws|
  {
    if ws != [] {
      AddWordKeepsValid(ix, ws[0]);
      SetupFromKeepsValid(AddWord(ix, ws[0]), ws[1..]);
    }
  }

  /** Last write wins: each key ends up holding the word built from the last
      string of `ws` with that key, or keeps its earlier word if `ws` has none. */
  lemma {:induction false} SetupFromLastWriteWins(ix: WordsList, ws: seq<string>, k: string)
    requires DictOk(ix.words)
    ensures var r := SetupFrom(ix, ws);
      k in r.words.content ==>
      match LastWith(ws, k)
      case Some(w) => r.words.content[k].original == w
      case None => k in ix.words.content && r.words.content[k].original == ix.words.content[k].original
    decreases |ws|
  {
    if ws != [] {
      var ix1 := AddWord(ix, ws[0]);
      SetupFromLastWriteWins(ix1, ws[1..], k);
    }
  }

  /** The state `__init__` starts `setup` from. */
  function EmptyIndex(length: Option<int>, source: seq<string>): (r: WordsList)
    ensures Valid(r)
  {
    WordsList(length, source, EmptyDict, map[])
  }

  /** `setup`: run the loop over the filtered, sorted `_words`. */
  function Setup(ix: WordsList): (r: WordsList)
    requires DictOk(ix.words)
    ensures r.length == ix.length && r.source == ix.source
    ensures r.words.content.Keys == ix.words.content.Keys + KeysOf(ix.source)
    ensures Valid(ix) ==> Valid(r)
  {
    SetupFromKeys(ix, ix.source);
    SetupFromValidIf(ix, ix.source);
    SetupFrom(ix, ix.source)
  }

  /** `SetupFromKeepsValid` for an index that may not be valid yet. */
  lemma SetupFromValidIf(ix: WordsList, ws: seq<string>)
    requires DictOk(ix.words)
    ensures Valid(ix) ==> Valid(SetupFrom(ix, ws))
  {
    if Valid(ix) {
      SetupFromKeepsValid(ix, ws);
    }
  }

  /** The filter of `__init__`: a falsy `length` keeps every string. */
  predicate Keeps(length: Option<int>, w: string)
  {
    !Truthy(length) || |w| == length.value
  }

  /** The length filter of the `WordsList` constructor: the words of the
      requested length, in order, or every word when the length is absent or
      zero. */
  function KeepFilter(ws: seq<string>, length: Option<int>): (r: seq<string>)
    ensures forall w :: w in r ==> Keeps(length, w)
  {
    if ws == [] then []
    else
      var rest := KeepFilter(ws[1..], length);
      if Keeps(length, ws[0]) then [ws[0]] + rest else rest
  }

  /** The filter keeps every occurrence of a kept string and drops every other. */
  lemma {:induction false} KeepFilterCount(ws: seq<string>, length: Option<int>, w: string)
    ensures multiset(KeepFilter(ws, length))[w] == (if Keeps(length, w) then multiset(ws)[w] else 0)
  {
    if ws != [] {
      assert ws == [ws[0]] + ws[1..];
      KeepFilterCount(ws[1..], length, w);
    }
  }

  lemma {:induction false} KeepFilterMembers(ws: seq<string>, length: Option<int>)
    ensures forall w :: w in KeepFilter(ws, length) ==> w in ws
  {
    if ws != [] {
      KeepFilterMembers(ws[1..], length);
      assert forall w :: w in ws[1..] ==> w in ws;
    }
  }

  /** Filtering a sorted list leaves it sorted. */
  lemma {:induction false} KeepFilterSorted(ws: seq<string>, length: Option<int>)
    requires Sorted(ws)
    ensures Sorted(KeepFilter(ws, length))
  {
    if ws != [] {
      var rest := KeepFilter(ws[1..], length);
      KeepFilterSorted(ws[1..], length);
      KeepFilterMembers(ws[1..], length);
      forall j | 0 <= j < |rest| ensures StrLe(ws[0], rest[j]) {
        assert rest[j] in ws[1..];
        var i :| 0 <= i < |ws[1..]| && ws[1..][i] == rest[j];
        assert ws[i + 1] == rest[j];
      }
    }
  }

  /** The `_words` list `__init__` keeps: the strings of the requested length
      (all of them when `length` is falsy), sorted. */
  function KeptSorted(words: seq<string>, length: Option<int>): (source: seq<string>)
    ensures Sorted(source)
    ensures forall w :: multiset(source)[w] == (if Keeps(length, w) then multiset(words)[w] else 0)
  {
    KeepFilterSorted(Sort(words), length);
    KeptCounts(Sort(words), length);
    KeepFilter(Sort(words), length)
  }

  lemma KeptCounts(ws: seq<string>, length: Option<int>)
    ensures forall w :: multiset(KeepFilter(ws, length))[w] == (if Keeps(length, w) then multiset(ws)[w] else 0)
  {
    forall w ensures multiset(KeepFilter(ws, length))[w] == (if Keeps(length, w) then multiset(ws)[w] else 0) {
      KeepFilterCount(ws, length, w);
    }
  }

  /** `WordsList(words, length)`: filter, sort, then `setup`. The index keeps
      one word per de-accented form of the kept strings, the last in sorted
      order, and a word has a partner exactly when its reversed key is kept too. */
  function NewWordsList(words: seq<string>, length: Option<int>): (ix: WordsList)
    ensures Valid(ix)
    ensures ix.length == length
    ensures Sorted(ix.source)
    ensures forall w :: multiset(ix.source)[w] == (if Keeps(length, w) then multiset(words)[w] else 0)
    ensures ix.words.content.Keys == KeysOf(ix.source)
  {
    var source := KeptSorted(words, length);
    var ix0 := EmptyIndex(length, source);
    SetupFromKeepsValid(ix0, source);
    SetupFromKeys(ix0, source);
    Setup(ix0)
  }

  /** Last write wins: the word under each key is built from the last kept
      string, in sorted order, with that key. */
  lemma NewWordsListLastWriteWins(words: seq<string>, length: Option<int>, k: string)
    ensures var ix := NewWordsList(words, length);
      k in ix.words.content ==> LastWith(ix.source, k) == Some(ix.words.content[k].original)
  {
    var source := KeptSorted(words, length);
    SetupFromLastWriteWins(EmptyIndex(length, source), source, k);
  }

  /** A stored word has a partner exactly when its reversed key is among the
      kept strings' keys, and the partner is then that reversed key. */
  lemma NewWordsListPartners(words: seq<string>, length: Option<int>, k: string)
    ensures var ix := NewWordsList(words, length);
      k in ix.words.content ==>
      && (ix.words.content[k].inverted.Some? <==> Invert(k) in KeysOf(ix.source))
      && (ix.words.content[k].inverted.Some? ==> ix.words.content[k].inverted.value == Invert(k))
  {
  }

  /** Python slicing `s[lo:hi]` for `0 <= lo <= hi`: bounds past the end are clamped. */
  function PySlice(s: string, lo: int, hi: int): (r: string)
    requires 0 <= lo <= hi
  {
    var a := if lo < |s| then lo else |s|;
    var b := if hi < |s| then hi else |s|;
    s[a..b]
  }

  /** `letters` occurs in `s` starting at `position`. */
  predicate HasAt(s: string, letters: string, position: int)
  {
    0 <= position && position + |letters| <= |s| && s[position..position + |letters|] == letters
  }

  /** The clamped slice check of `word_for_letters_in_position` is exactly an
      occurrence test. */
  lemma PySliceMatch(s: string, letters: string, position: int)
    requires 0 <= position && letters != []
    ensures PySlice(s, position, position + |letters|) == letters <==> HasAt(s, letters, position)
  {
  }

  /** The `IndexError` of `letters[0]` on an empty pattern. */
  datatype QueryError = EmptyLetters

  /** `word_for_letters_in_position`: the stored words having `letters` at
      `position`, and the given length when one is given. Python iterates a
      set here; the model lists hits in the dict's order. */
  function WordForLettersInPosition(ix: WordsList, letters: string, position: int, length: Option<int>)
    : (r: Result<seq<Word>, QueryError>)
    requires Searchable(ix)
    ensures r.Failure? <==> letters == []
    ensures r.Success? ==> forall w {:trigger w in r.value} :: w in r.value <==>
      (&& w.deaccented in ix.words.content
       && ix.words.content[w.deaccented] == w
       && HasAt(w.deaccented, letters, position)
       && Keeps(length, w.deaccented))
  {
    if letters == [] then Failure(EmptyLetters)
    else
      var c := ix.words.content;
      var bucket := Bucket(ix.lAndP, (letters[0], position));
      if position < 0 then
        // A negative position never occurs among the registered positions.
        assert Bucket(ix.lAndP, (letters[0], position)) == {};
        Success([])
      else
      var hits := set item | item in bucket && Keeps(length, item)
        && PySlice(c[item].deaccented, position, position + |letters|) == letters;
      QueryHits(ix.lAndP, c, letters, position, length, hits);
      Success(Pick(ix.words.order, c, hits))
  }

  /** The hits of the query are exactly the matching stored keys. */
  lemma QueryHits(lp: map<(char, int), set<string>>, c: map<string, Word>, letters: string, position: int,
                  length: Option<int>, hits: set<string>)
    requires BucketsSound(lp, c) && BucketsComplete(lp, c)
    requires forall k :: k in c ==> c[k].deaccented == k
    requires letters != [] && 0 <= position
    requires forall k :: k in hits <==>
      (k in Bucket(lp, (letters[0], position)) && Keeps(length, k)
       && PySlice(c[k].deaccented, position, position + |letters|) == letters)
    ensures forall k :: k in hits <==> k in c && HasAt(k, letters, position) && Keeps(length, k)
  {
    forall k
      ensures k in hits <==> k in c && HasAt(k, letters, position) && Keeps(length, k)
    {
      if k in c && HasAt(k, letters, position) {
        assert k[position] == letters[0];
        PySliceMatch(k, letters, position);
      }
      if k in hits {
        PySliceMatch(k, letters, position);
      }
    }
  }

  /** `DictStorage.__iter__`: the stored words in key order. */
  function Values(order: seq<string>, content: map<string, Word>): (r: seq<Word>)
    requires forall k :: k in order ==> k in content
    ensures |r| == |order|
    ensures forall i :: 0 <= i < |order| ==> r[i] == content[order[i]]
  {
    if order == [] then [] else [content[order[0]]] + Values(order[1..], content)
  }

  /** The loop body of `iter_for_length` over a list of words. */
  function OfLengthWithPartner(ws: seq<Word>, length: int): (r: seq<Word>)
  {
    if ws == [] then []
    else if Len(ws[0]) != length || ws[0].inverted.None? then OfLengthWithPartner(ws[1..], length)
    else [ws[0]] + OfLengthWithPartner(ws[1..], length)
  }

  lemma {:induction false} OfLengthWithPartnerMembers(ws: seq<Word>, length: int)
    ensures forall w :: w in OfLengthWithPartner(ws, length) <==>
      w in ws && Len(w) == length && w.inverted.Some?
  {
    if ws != [] {
      OfLengthWithPartnerMembers(ws[1..], length);
      assert forall w :: w in ws <==> w == ws[0] || w in ws[1..];
    }
  }

  /** `iter_for_length`: exactly the stored words of the given length that have
      a partner, in the dict's order. */
  function IterForLength(ix: WordsList, length: int): (r: seq<Word>)
    requires Keyed(ix.words)
    ensures forall w {:trigger w in r} :: w in r <==>
      (&& w.deaccented in ix.words.content
       && ix.words.content[w.deaccented] == w
       && |w.deaccented| == length
       && w.inverted.Some?)
  {
    var vs := Values(ix.words.order, ix.words.content);
    OfLengthWithPartnerMembers(vs, length);
    assert forall w :: w in vs <==> w.deaccented in ix.words.content && ix.words.content[w.deaccented] == w by {
      forall w ensures w in vs <==> w.deaccented in ix.words.content && ix.words.content[w.deaccented] == w {
        if w.deaccented in ix.words.content && ix.words.content[w.deaccented] == w {
          var i :| 0 <= i < |ix.words.order| && ix.words.order[i] == w.deaccented;
          assert vs[i] == w;
        }
      }
    }
    OfLengthWithPartner(vs, length)
  }
}
