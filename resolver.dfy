/*
  The word-level resolver of the Cunia central vowel ã
  (deployment/utils/text_processing.py:192-238, 267-273).

  The two n-gram count tables and the dictionary are loaded from files
  when the program starts; here they are immutable maps given as
  parameters. Python's lower() and upper() are parameters too, applied
  one character at a time, so they never change a word's length.
*/
module Resolver {
  import opened Orthography
  import opened Diaro

  /** Per-character case mappings. */
  datatype Casing = Casing(lower: char -> char, upper: char -> char)

  /** word.lower(), one character at a time. */
  function Lowered(word: string, casing: Casing): (r: string)
    ensures |r| == |word| && forall k | 0 <= k < |word| :: r[k] == casing.lower(word[k])
  {
    seq(|word|, k requires 0 <= k < |word| => casing.lower(word[k]))
  }

  /** The character `j` positions into `s`, a space outside it. */
  function Around(s: string, j: int): char
  {
    if 0 <= j < |s| then s[j] else ' '
  }

  /** get_mask: the two characters before `index` and the two after it,
      a space standing in for each position outside the word. */
  function GetMask(s: string, index: nat): (mask: string)
    requires index <= |s|
    ensures mask == [Around(s, index - 2), Around(s, index - 1), Around(s, index + 1), Around(s, index + 2)]
  {
    var before :=
      if index >= 2 then s[index - 2..index]
      else if index >= 1 then " " + s[index - 1..index]
      else "  ";
    var after :=
      if index + 2 < |s| then s[index + 1..index + 3]
      else if index + 1 < |s| then s[index + 1..index + 2] + " "
      else "  ";
    before + after
  }

  /** FAH.get(mask, 0) and FUH.get(mask, 0): how often a mask was seen
      around â and around ă; an unseen mask counts zero. */
  function Count(table: map<string, int>, mask: string): int
  {
    if mask in table then table[mask] else 0
  }

  /** The first loop of resolve_with_ngrams at position `i` of the
      lowered word: an ã at the start is î; any other ã is â exactly when
      its mask was seen more often around â than around ă, so a tie or an
      unseen mask gives ă. Every other character is kept. */
  function Transduced(low: string, i: nat, fah: map<string, int>, fuh: map<string, int>): (c: char)
    requires i < |low|
    ensures low[i] != 'ã' ==> c == low[i]
    ensures low[i] == 'ã' && i == 0 ==> c == 'î'
    ensures low[i] == 'ã' && i > 0 ==>
      (c == 'â' || c == 'ă') &&
      (c == 'â' <==> Count(fah, GetMask(low, i)) > Count(fuh, GetMask(low, i)))
  {
    if low[i] == 'ã' && i == 0 then 'î'
    else if low[i] == 'ã' then
      var mask := GetMask(low, i);
      if Count(fah, mask) > Count(fuh, mask) then 'â' else 'ă'
    else low[i]
  }

  /** The second loop at position `i`: upper case where the word's own
      character was not lower case. */
  function Recased(word: string, low: string, t: char, i: nat, casing: Casing): char
    requires i < |word| == |low|
  {
    if low[i] != word[i] then casing.upper(t) else t
  }

  /** What resolve_with_ngrams returns, position by position. */
  function NgramResolution(word: string, fah: map<string, int>, fuh: map<string, int>, casing: Casing): (r: string)
    ensures |r| == |word|
  {
    var low := Lowered(word, casing);
    seq(|word|, i requires 0 <= i < |word| => Recased(word, low, Transduced(low, i, fah, fuh), i, casing))
  }

  /** The first loop of resolve_with_ngrams: each ã of the lowered word
      resolved, every other character copied. */
  method TransduceVowels(low: string, fah: map<string, int>, fuh: map<string, int>) returns (transduced: string)
    ensures |transduced| == |low|
    ensures forall k | 0 <= k < |low| :: transduced[k] == Transduced(low, k, fah, fuh)
  {
    transduced := "";
    for i := 0 to |low|
      invariant |transduced| == i
      invariant forall k | 0 <= k < i :: transduced[k] == Transduced(low, k, fah, fuh)
    {
      var ch := low[i];
      if ch == 'ã' && i == 0 {
        transduced := transduced + ['î'];
      } else if ch == 'ã' {
        var mask := GetMask(low, i);
        if Count(fah, mask) > Count(fuh, mask) {
          transduced := transduced + ['â'];
        } else {
          transduced := transduced + ['ă'];
        }
      } else {
        transduced := transduced + [ch];
      }
    }
  }

  /** The second loop of resolve_with_ngrams: upper case restored where
      the word's character differs from its lowered form. */
  method RestoreCase(word: string, low: string, transduced: string, casing: Casing) returns (out: string)
    requires |word| == |low| == |transduced|
    ensures |out| == |low|
    ensures forall k | 0 <= k < |low| :: out[k] == Recased(word, low, transduced[k], k, casing)
  {
    out := "";
    for i := 0 to |low|
      invariant |out| == i
      invariant forall k | 0 <= k < i :: out[k] == Recased(word, low, transduced[k], k, casing)
    {
      if i < |transduced| && low[i] != word[i] {
        out := out + [casing.upper(transduced[i])];
      } else {
        out := out + [transduced[i]];
      }
    }
  }

  /** resolve_with_ngrams: the lowered word with each ã resolved, then
      upper case restored where the word had it. */
  method ResolveWithNgrams(word: string, fah: map<string, int>, fuh: map<string, int>, casing: Casing)
    returns (out: string)
    ensures out == NgramResolution(word, fah, fuh, casing)
  {
    var low := Lowered(word, casing);
    var transduced := TransduceVowels(low, fah, fuh);
    out := RestoreCase(word, low, transduced, casing);
  }

  /** Case mappings that change nothing. */
  const KEEP_CASE := Casing(c => c, c => c)

  /** Neighbouring ã are seen unresolved: in "ããã" the middle one reads
      the mask " ãã " and the last one "ãã  ", whatever its neighbours
      turned into. */
  lemma {:induction false} NeighboursSeenUnresolved()
    ensures NgramResolution("ããã", map[" ãã " := 1], map[], KEEP_CASE) == "îâă"
  {
    var word := "ããã";
    var fah: map<string, int> := map[" ãã " := 1];
    var fuh: map<string, int> := map[];
    var low := Lowered(word, KEEP_CASE);
    assert low == word;
    assert GetMask(low, 1) == " ãã ";
    assert GetMask(low, 2) == "ãã  ";
    var r := NgramResolution(word, fah, fuh, KEEP_CASE);
    assert r[0] == 'î' && r[1] == 'â' && r[2] == 'ă';
  }

  /** resolve_with_dictionary: the dictionary entry for the lowered word
      taken through DIARO to Cunia, and "" without one. */
  function ResolveWithDictionary(word: string, dictionary: map<string, string>, casing: Casing): (r: string)
    ensures r != "" ==> DiaroToCunia(Lowered(word, casing)) in dictionary &&
                        r == dictionary[DiaroToCunia(Lowered(word, casing))]
    ensures DiaroToCunia(Lowered(word, casing)) in dictionary ==>
              r == dictionary[DiaroToCunia(Lowered(word, casing))]
    ensures DiaroToCunia(Lowered(word, casing)) !in dictionary ==> r == ""
  {
    var key := DiaroToCunia(Lowered(word, casing));
    if key in dictionary then dictionary[key] else ""
  }

  /** An entry under a key that is not in Cunia form is never looked up. */
  lemma NonCuniaKeyUnused(word: string, dictionary: map<string, string>, casing: Casing, key: string)
    requires key in dictionary && !InCuniaForm(key)
    ensures DiaroToCunia(Lowered(word, casing)) != key
  {
  }

  /** A word that resolves through the dictionary finds an entry under a
      key in Cunia form. */
  lemma FoundKeyInCuniaForm(word: string, dictionary: map<string, string>, casing: Casing)
    requires ResolveWithDictionary(word, dictionary, casing) != ""
    ensures exists key | key in dictionary ::
              InCuniaForm(key) && dictionary[key] == ResolveWithDictionary(word, dictionary, casing)
  {
    var key := DiaroToCunia(Lowered(word, casing));
    assert key in dictionary && InCuniaForm(key);
  }

  /** Words that lower to the same text look up the same entry. */
  lemma DictionaryIgnoresCase(a: string, b: string, dictionary: map<string, string>, casing: Casing)
    requires |a| == |b|
    requires forall k | 0 <= k < |a| :: casing.lower(a[k]) == casing.lower(b[k])
    ensures ResolveWithDictionary(a, dictionary, casing) == ResolveWithDictionary(b, dictionary, casing)
  {
    var la, lb := Lowered(a, casing), Lowered(b, casing);
    assert la == lb by {
      forall k | 0 <= k < |a| ensures la[k] == lb[k] { }
    }
    var key := DiaroToCunia(la);
    assert ResolveWithDictionary(a, dictionary, casing) == if key in dictionary then dictionary[key] else "";
    assert ResolveWithDictionary(b, dictionary, casing) == if key in dictionary then dictionary[key] else "";
  }
}
