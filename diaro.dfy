/*
  The DIARO side of the orthography converter
  (deployment/utils/text_processing.py:41-57, 241-264): the digraph table
  that writes Cunia consonants as DIARO letters, and the normalisation
  that goes through it on the way back to Cunia.
*/
module Diaro {
  import opened Replace
  import opened Orthography

  /** The consonants a DIARO table key starts with. */
  predicate DigraphLead(c: char)
  {
    c == 'S' || c == 's' || c == 'T' || c == 't' || c == 'L' || c == 'l' ||
    c == 'N' || c == 'n' || c == 'D' || c == 'd'
  }

  /** The letters a DIARO table key ends with. */
  predicate DigraphTail(c: char)
  {
    c == 'h' || c == 'H' || c == 's' || c == 'S' || c == 'j' || c == 'J' || c == 'z' || c == 'Z'
  }

  /** The characters DIARO consonants are written with: s, t with comma
      below, l, n with caron and acute, d followed by a combining comma. */
  predicate DiaroLetter(c: char)
  {
    c == 'Ș' || c == 'ș' || c == 'Ț' || c == 'ț' || c == 'Ľ' || c == 'ľ' ||
    c == 'Ń' || c == 'ń' || c == 'D' || c == 'd' || c == '\U{0326}'
  }

  /** A step of the pass towards DIARO: a two-letter key, and one or two
      DIARO characters that neither contain a key's second letter nor end
      in a key's first letter. */
  type DiaroRule = r: Rule |
    |r.pat| == 2 && DigraphLead(r.pat[0]) && DigraphTail(r.pat[1]) &&
    (|r.rep| == 1 || |r.rep| == 2) &&
    DiaroLetter(r.rep[0]) && DiaroLetter(r.rep[|r.rep| - 1]) &&
    !DigraphTail(r.rep[0]) && !DigraphTail(r.rep[|r.rep| - 1]) && !DigraphLead(r.rep[|r.rep| - 1])
    witness Rule("sh", "ș")

  /** CUNIA2DIARO, in its insertion order, one group of keys per consonant. */
  const SH_KEYS: seq<DiaroRule> := [Rule("Sh", "Ș"), Rule("SH", "Ș"), Rule("sh", "ș")]
  const TS_KEYS: seq<DiaroRule> := [Rule("Ts", "Ț"), Rule("TS", "Ț"), Rule("ts", "ț")]
  const LJ_KEYS: seq<DiaroRule> := [Rule("LJ", "Ľ"), Rule("Lj", "Ľ"), Rule("lj", "ľ")]
  const NJ_KEYS: seq<DiaroRule> := [Rule("NJ", "Ń"), Rule("Nj", "Ń"), Rule("nj", "ń")]
  const DZ_KEYS: seq<DiaroRule> := [Rule("DZ", "D\U{0326}"), Rule("Dz", "D\U{0326}"), Rule("dz", "d\U{0326}")]

  const CUNIA2DIARO: seq<DiaroRule> := SH_KEYS + TS_KEYS + LJ_KEYS + NJ_KEYS + DZ_KEYS

  /** No key of `rules` occurs in `s`. */
  predicate Keyless(s: string, rules: seq<DiaroRule>)
  {
    forall r <- rules :: Absent(s, r.pat)
  }

  /** No key of the table occurs in `s`. */
  predicate InDiaroForm(s: string)
  {
    Keyless(s, CUNIA2DIARO)
  }

  /** No DIARO replacement can create a DIARO key. */
  lemma DiaroRulesNonInterfering(rules: seq<DiaroRule>)
    ensures WellFormed(rules) && ShortPatterns(rules) && NonInterfering(rules)
  {
    forall r <- rules, r' <- rules ensures Inert(r'.rep, r.pat) {
      var rep := r'.rep;
      assert rep == [rep[0]] || rep == [rep[0], rep[1]];
    }
  }

  /** A DIARO pass keeps a non-empty text non-empty. */
  lemma DiaroKeepsNonEmpty(text: string, rules: seq<DiaroRule>)
    ensures WellFormed(rules)
    ensures |text| > 0 ==> |ApplyRules(text, rules)| > 0
  {
    DiaroRulesNonInterfering(rules);
    if |text| > 0 {
      ApplyRulesNonEmpty(text, rules);
    }
  }

  /** A pass over DIARO steps: the result holds no key, text holding none
      is left alone, and every character of the result is from the text
      or is a DIARO letter. */
  lemma DiaroPass(text: string, rules: seq<DiaroRule>)
    ensures WellFormed(rules)
    ensures Keyless(ApplyRules(text, rules), rules)
    ensures Keyless(text, rules) ==> ApplyRules(text, rules) == text
    ensures forall c <- ApplyRules(text, rules) :: c in text || DiaroLetter(c)
  {
    DiaroRulesNonInterfering(rules);
    ApplyRulesRemovesAll(text, rules);
    if Keyless(text, rules) {
      ApplyRulesAbsentIsIdentity(text, rules);
    }
    forall c <- ApplyRules(text, rules) ensures c in text || DiaroLetter(c) {
      ApplyRulesChars(text, rules, c);
      if c !in text {
        var r :| r in rules && c in r.rep;
        assert r.rep == [r.rep[0]] || r.rep == [r.rep[0], r.rep[1]];
      }
    }
  }

  /** convert_consonants_diaro: the table's steps in turn, over the text. */
  method ConvertConsonantsDiaro(text: string) returns (out: string)
    ensures out == ApplyRules(text, CUNIA2DIARO)
    ensures InDiaroForm(out)
    ensures InDiaroForm(text) ==> out == text
    ensures forall c <- out :: c in text || DiaroLetter(c)
  {
    DiaroRulesNonInterfering(CUNIA2DIARO);
    out := text;
    for i := 0 to |CUNIA2DIARO|
      invariant ApplyRules(out, CUNIA2DIARO[i..]) == ApplyRules(text, CUNIA2DIARO)
    {
      var step := CUNIA2DIARO[i];
      assert CUNIA2DIARO[i..][1..] == CUNIA2DIARO[i + 1..];
      out := ReplaceAll(out, step.pat, step.rep);
    }
    assert CUNIA2DIARO[|CUNIA2DIARO|..] == [];
    DiaroPass(text, CUNIA2DIARO);
  }

  /** normalize_diaro: consonants to Cunia, other characters standardised,
      consonants back to DIARO. No DIARO key survives. */
  function NormalizeDiaro(text: string): (r: string)
    ensures InDiaroForm(r)
    ensures forall c <- r :: c in ConvertOtherChars(ConvertConsonantsCunia(text)) || DiaroLetter(c)
  {
    var standard := ConvertOtherChars(ConvertConsonantsCunia(text));
    DiaroPass(standard, CUNIA2DIARO);
    ApplyRules(standard, CUNIA2DIARO)
  }

  /** diaro_to_cunia: normalise, then convert to Cunia. */
  function DiaroToCunia(text: string): (r: string)
    ensures InCuniaForm(r)
    ensures r == ConvertToCunia(r)
  {
    ConvertToCunia(NormalizeDiaro(text))
  }

  /** A single character holds no two-letter key. */
  lemma LetterIsKeyless(c: char, rules: seq<DiaroRule>)
    ensures Keyless([c], rules)
  {
  }

  /** A pass over five groups is the first group's pass followed by one
      over the other four. */
  lemma FirstGroupFirst(s: string, a: seq<DiaroRule>, b: seq<DiaroRule>, c: seq<DiaroRule>,
                        d: seq<DiaroRule>, e: seq<DiaroRule>)
    ensures WellFormed(b + c + d + e)
    ensures ApplyRules(s, a + b + c + d + e) == ApplyRules(ApplyRules(s, a), b + c + d + e)
  {
    assert a + b + c + d + e == a + (b + c + d + e);
    DiaroRulesNonInterfering(a);
    DiaroRulesNonInterfering(b + c + d + e);
    ApplyRulesAppend(s, a, b + c + d + e);
  }

  /** The first group turns "SH" into Ș. */
  lemma UpperDigraphFirstGroup()
    ensures ApplyRules("SH", SH_KEYS) == "Ș"
  {
    DiaroRulesNonInterfering(SH_KEYS);
    ApplyRulesFirstMatch("SH", SH_KEYS, 1);
  }

  /** "SH" normalises to the DIARO letter Ș. */
  lemma NormalizeUpperDigraph()
    ensures NormalizeDiaro("SH") == "Ș"
  {
    PlainPassUnchanged("SH", CONSONANT_RULES);
    PlainPassUnchanged("SH", OTHER_CHAR_RULES);
    FirstGroupFirst("SH", SH_KEYS, TS_KEYS, LJ_KEYS, NJ_KEYS, DZ_KEYS);
    UpperDigraphFirstGroup();
    LetterIsKeyless('Ș', TS_KEYS + LJ_KEYS + NJ_KEYS + DZ_KEYS);
    DiaroPass("Ș", TS_KEYS + LJ_KEYS + NJ_KEYS + DZ_KEYS);
  }

  /** Ș converts to Cunia as "Sh". */
  lemma CommaSToCunia()
    ensures ConvertToCunia("Ș") == "Sh"
  {
    PassOnLetter('Ș', CONSONANT_RULES, 5);
    PlainPassUnchanged("Sh", CENTRAL_VOWEL_RULES);
    PlainPassUnchanged("Sh", OTHER_CHAR_RULES);
  }

  /** The normalisation is case-lossy on digraphs: "SH" comes back from
      DIARO as "Sh", although "SH" is already in Cunia form. */
  lemma UpperDigraphQuirk()
    ensures ConvertToCunia("SH") == "SH"
    ensures DiaroToCunia("SH") == "Sh"
  {
    PlainTextUnchanged("SH");
    NormalizeUpperDigraph();
    CommaSToCunia();
  }
}
