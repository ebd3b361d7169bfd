/*
  The replacement passes between the two Aromanian spellings.

  Cunia writes the consonants as ASCII digraphs ("sh", "ts", "lj", "nj",
  "dz") and the central vowel as the placeholder "ã"; DIARO writes the
  consonants with diacritic letters. Each pass below is a fixed, ordered
  table of literal replace-all steps (deployment/utils/text_processing.py).

  Every Cunia pattern is either one letter outside the Cunia alphabet or a
  consonant followed by an apostrophe or a combining comma, and every
  Cunia replacement is written in the Cunia alphabet and does not end in
  such a consonant. That shape is what makes the Cunia passes idempotent.
*/
module Orthography {
  import opened Replace

  // ---------------------------------------------------------------------
  // The alphabets

  /** A character Cunia text is written with: ASCII without the
      apostrophe, plus the central-vowel placeholders ã and Ã. */
  predicate Plain(c: char)
  {
    (c as int < 128 && c != '\'') || c == 'ã' || c == 'Ã'
  }

  /** The consonants a two-character Cunia pattern starts with. */
  predicate DigraphBase(c: char)
  {
    c == 'l' || c == 'L' || c == 'd' || c == 'D' || c == 'n' || c == 'N'
  }

  /** The marks a two-character Cunia pattern ends with: ASCII apostrophe,
      right single quotation mark, combining comma below. */
  predicate DigraphMark(c: char)
  {
    c == '\'' || c == '’' || c == '\U{0326}'
  }

  predicate CuniaPattern(p: string)
  {
    (|p| == 1 && !Plain(p[0]) && !DigraphMark(p[0])) || (|p| == 2 && DigraphBase(p[0]) && DigraphMark(p[1]))
  }

  /** One or two characters of the Cunia alphabet, not ending in a
      consonant a two-character pattern starts with. */
  predicate CuniaOutput(r: string)
  {
    (|r| == 1 || |r| == 2) && Plain(r[0]) && Plain(r[|r| - 1]) && !DigraphBase(r[|r| - 1])
  }

  /** A step of a pass towards Cunia. */
  type CuniaRule = r: Rule | CuniaPattern(r.pat) && CuniaOutput(r.rep) witness Rule("ş", "sh")

  /** The single letters the consonant pass replaces. */
  predicate ConsonantLetter(c: char)
  {
    c == 'ş' || c == 'ș' || c == 'ţ' || c == 'ț' || c == 'Ş' || c == 'Ș' || c == 'Ţ' || c == 'Ț' ||
    c == 'ľ' || c == 'Ľ' || c == 'ḑ' || c == 'Ḑ' || c == 'ḍ' || c == 'Ḍ' ||
    c == 'ń' || c == 'Ń' || c == 'ñ' || c == 'Ñ'
  }

  /** A step of the consonant pass: a consonant letter or a digraph. */
  type ConsonantRule = r: CuniaRule | |r.pat| == 2 || ConsonantLetter(r.pat[0]) witness Rule("ş", "sh")

  // ---------------------------------------------------------------------
  // The Cunia tables, in source order (duplicates kept)

  /** s and t with cedilla or comma below. */
  const SIBILANT_RULES: seq<ConsonantRule> := [
    Rule("ş", "sh"), Rule("ș", "sh"), Rule("ţ", "ts"), Rule("ț", "ts"),
    Rule("Ş", "Sh"), Rule("Ș", "Sh"), Rule("Ţ", "Ts"), Rule("Ț", "Ts")
  ]

  /** The palatal lateral. */
  const LATERAL_RULES: seq<ConsonantRule> := [
    Rule("ľ", "lj"), Rule("Ľ", "Lj"), Rule("l'", "lj"), Rule("l’", "lj"),
    Rule("L'", "Lj"), Rule("L’", "Lj")
  ]

  /** The voiced affricate; Ḑ goes to lower-case "dz". */
  const AFFRICATE_RULES: seq<ConsonantRule> := [
    Rule("ḑ", "dz"), Rule("Ḑ", "dz"), Rule("ḍ", "dz"), Rule("Ḍ", "Dz"),
    Rule("d\U{0326}", "dz"), Rule("D\U{0326}", "Dz")
  ]

  /** The palatal nasal; "n’" and "N'" each appear twice, "n'" not at all. */
  const NASAL_RULES: seq<ConsonantRule> := [
    Rule("ń", "nj"), Rule("Ń", "Nj"), Rule("ñ", "nj"), Rule("Ñ", "Nj"),
    Rule("n’", "nj"), Rule("n’", "nj"), Rule("N'", "Nj"), Rule("N'", "Nj")
  ]

  const CONSONANT_RULES: seq<ConsonantRule> := SIBILANT_RULES + LATERAL_RULES + AFFRICATE_RULES + NASAL_RULES

  /** Letters used for the mid central vowel; Ӑ and Ǎ go to lower-case ã. */
  const MID_CENTRAL_RULES: seq<CuniaRule> := [
    Rule("ă", "ã"), Rule("Ă", "Ã"), Rule("ӑ", "ã"), Rule("Ӑ", "ã"),
    Rule("Ǎ", "ã"), Rule("ǎ", "ã")
  ]

  /** The close central vowel. */
  const CLOSE_CENTRAL_RULES: seq<CuniaRule> := [
    Rule("Â", "Ã"), Rule("â", "ã"), Rule("Î", "Ã"), Rule("î", "ã")
  ]

  /** Accents removed from a. */
  const ACCENTED_A_RULES: seq<CuniaRule> := [
    Rule("á", "a"), Rule("à", "a"), Rule("Á", "A"), Rule("À", "A")
  ]

  const CENTRAL_VOWEL_RULES: seq<CuniaRule> := MID_CENTRAL_RULES + CLOSE_CENTRAL_RULES + ACCENTED_A_RULES

  /** Greek letters and other accented vowels, in two halves. */
  const OTHER_CHAR_RULES_FIRST: seq<CuniaRule> := [
    Rule("ŭ", "u"), Rule("ς", "c"), Rule("é", "e"), Rule("í", "i"),
    Rule("ū", "u"), Rule("ì", "i"), Rule("ā", "a"), Rule("ĭ", "i")
  ]

  const OTHER_CHAR_RULES_SECOND: seq<CuniaRule> := [
    Rule("γ", "y"), Rule("Γ", "Y"), Rule("ï", "i"), Rule("ó", "o"),
    Rule("θ", "th"), Rule("Θ", "Th"), Rule("δ", "dh"), Rule("Δ", "Dh")
  ]

  const OTHER_CHAR_RULES: seq<CuniaRule> := OTHER_CHAR_RULES_FIRST + OTHER_CHAR_RULES_SECOND

  /** The three Cunia passes in the order convert_to_cunia runs them. */
  const CUNIA_RULES: seq<CuniaRule> := CONSONANT_RULES + CENTRAL_VOWEL_RULES + OTHER_CHAR_RULES

  /** No step of `rules` finds anything to replace in `s`. */
  predicate Settled(s: string, rules: seq<CuniaRule>)
  {
    forall r <- rules :: Absent(s, r.pat)
  }

  /** Text in Cunia form: no pattern of any Cunia pass occurs in it. */
  predicate InCuniaForm(s: string)
  {
    Settled(s, CUNIA_RULES)
  }

  /** No letter that a single-letter Cunia step replaces occurs in `s`. */
  predicate NoCuniaLetter(s: string)
  {
    forall q <- CUNIA_RULES | |q.pat| == 1 :: q.pat[0] !in s
  }

  // ---------------------------------------------------------------------
  // Facts about every table of Cunia rules

  /** No Cunia replacement can create a Cunia pattern. */
  lemma CuniaRulesNonInterfering(rules: seq<CuniaRule>)
    ensures WellFormed(rules) && ShortPatterns(rules) && NonInterfering(rules)
  {
    forall r <- rules, r' <- rules ensures Inert(r'.rep, r.pat) {
      var rep := r'.rep;
      assert rep == [rep[0]] || rep == [rep[0], rep[1]];
      if |r.pat| == 2 {
        assert !Plain(r.pat[1]);
      } else {
        assert !Plain(r.pat[0]);
      }
    }
  }

  /** Text written in the Cunia alphabet holds no Cunia pattern. */
  lemma PlainIsSettled(s: string, rules: seq<CuniaRule>)
    requires forall c <- s :: Plain(c)
    ensures Settled(s, rules)
  {
    forall r <- rules ensures Absent(s, r.pat) {
      if |r.pat| == 2 {
        assert !Plain(r.pat[1]);
        forall k | 0 <= k < |s| - 1 ensures !(s[k] == r.pat[0] && s[k + 1] == r.pat[1]) {
          assert s[k + 1] in s;
        }
      } else {
        assert !Plain(r.pat[0]);
      }
    }
  }

  /** A pass over `rules` leaves no pattern of `rules` behind, and leaves
      alone the text it has nothing to replace in. */
  lemma PassSettles(s: string, rules: seq<CuniaRule>)
    ensures Settled(ApplyRules(s, rules), rules)
    ensures Settled(s, rules) ==> ApplyRules(s, rules) == s
  {
    CuniaRulesNonInterfering(rules);
    ApplyRulesRemovesAll(s, rules);
    if Settled(s, rules) {
      ApplyRulesAbsentIsIdentity(s, rules);
    }
  }

  /** A pass leaves text in the Cunia alphabet unchanged. */
  lemma PlainPassUnchanged(s: string, rules: seq<CuniaRule>)
    requires forall c <- s :: Plain(c)
    ensures ApplyRules(s, rules) == s
  {
    PlainIsSettled(s, rules);
    PassSettles(s, rules);
  }

  /** A pass over `rules` keeps absent any pattern no replacement of
      `rules` can create. */
  lemma PassKeepsSettled(s: string, rules: seq<CuniaRule>, other: seq<CuniaRule>)
    requires Settled(s, other)
    ensures Settled(ApplyRules(s, rules), other)
  {
    CuniaRulesNonInterfering(rules + other);
    forall q <- other ensures Absent(ApplyRules(s, rules), q.pat) {
      forall r <- rules ensures Inert(r.rep, q.pat) {
        assert r in rules + other && q in rules + other;
      }
      ApplyRulesKeepsAbsent(s, rules, q.pat);
    }
  }

  /** The first step of `rules` that matches the one-letter text [c]
      decides the result: the later steps find nothing in its output. */
  lemma {:induction false} PassOnLetter(c: char, rules: seq<CuniaRule>, j: nat)
    requires j < |rules| && rules[j].pat == [c]
    requires forall i | 0 <= i < j :: rules[i].pat != [c]
    ensures ApplyRules([c], rules) == rules[j].rep
    decreases j
  {
    if j == 0 {
      var rep := rules[0].rep;
      assert ReplaceAll([c], [c], rep) == rep + ReplaceAll([], [c], rep) == rep;
      assert ApplyRules([c], rules) == ApplyRules(rep, rules[1..]);
      PlainIsSettled(rules[0].rep, rules[1..]);
      PassSettles(rules[0].rep, rules[1..]);
    } else {
      assert rules[0].pat != [c];
      ReplaceAbsentIsIdentity([c], rules[0].pat, rules[0].rep);
      PassOnLetter(c, rules[1..], j - 1);
    }
  }

  /** A one-letter text no step of `rules` matches passes unchanged. */
  lemma PassMissesLetter(c: char, rules: seq<CuniaRule>)
    requires forall r <- rules :: r.pat != [c]
    ensures ApplyRules([c], rules) == [c]
  {
    ApplyRulesUnmatchedChar(c, rules);
  }

  /** The consonant pass leaves every other single letter alone. */
  lemma ConsonantPassMissesLetter(c: char, rules: seq<ConsonantRule>)
    requires !ConsonantLetter(c)
    ensures ApplyRules([c], rules) == [c]
  {
    forall r <- rules ensures r.pat != [c] {
      if |r.pat| == 1 {
        assert ConsonantLetter(r.pat[0]);
      }
    }
    ApplyRulesUnmatchedChar(c, rules);
  }

  // ---------------------------------------------------------------------
  // The passes (deployment/utils/text_processing.py)

  /** convert_consonants_cunia: diacritic consonants to digraphs. */
  function ConvertConsonantsCunia(text: string): (r: string)
    ensures Settled(r, CONSONANT_RULES)
    ensures Settled(text, CONSONANT_RULES) ==> r == text
  {
    PassSettles(text, CONSONANT_RULES);
    ApplyRules(text, CONSONANT_RULES)
  }

  /** convert_central_vowel_cunia: central vowels to the placeholder. */
  function ConvertCentralVowelCunia(text: string): (r: string)
    ensures Settled(r, CENTRAL_VOWEL_RULES)
    ensures Settled(text, CENTRAL_VOWEL_RULES) ==> r == text
  {
    PassSettles(text, CENTRAL_VOWEL_RULES);
    ApplyRules(text, CENTRAL_VOWEL_RULES)
  }

  /** convert_other_chars: Greek letters and stray accents. */
  function ConvertOtherChars(text: string): (r: string)
    ensures Settled(r, OTHER_CHAR_RULES)
    ensures Settled(text, OTHER_CHAR_RULES) ==> r == text
  {
    PassSettles(text, OTHER_CHAR_RULES);
    ApplyRules(text, OTHER_CHAR_RULES)
  }

  /** convert_to_cunia: the three passes in turn; the result is in Cunia
      form, and text already in Cunia form is returned unchanged. */
  function ConvertToCunia(text: string): (r: string)
    ensures InCuniaForm(r)
    ensures InCuniaForm(text) ==> r == text
  {
    ConvertToCuniaIsOnePass(text);
    PassSettles(text, CUNIA_RULES);
    ConvertOtherChars(ConvertCentralVowelCunia(ConvertConsonantsCunia(text)))
  }

  /** Three passes in turn are one pass over the joined table. */
  lemma PassesCompose(text: string, a: seq<CuniaRule>, b: seq<CuniaRule>, c: seq<CuniaRule>)
    ensures ApplyRules(ApplyRules(ApplyRules(text, a), b), c) == ApplyRules(text, a + b + c)
  {
    CuniaRulesNonInterfering(a);
    CuniaRulesNonInterfering(b);
    CuniaRulesNonInterfering(c);
    CuniaRulesNonInterfering(a + b);
    ApplyRulesAppend(text, a, b);
    ApplyRulesAppend(text, a + b, c);
  }

  /** The three passes compose into one pass over the joined table. */
  lemma ConvertToCuniaIsOnePass(text: string)
    ensures ConvertOtherChars(ConvertCentralVowelCunia(ConvertConsonantsCunia(text)))
         == ApplyRules(text, CUNIA_RULES)
  {
    PassesCompose(text, CONSONANT_RULES, CENTRAL_VOWEL_RULES, OTHER_CHAR_RULES);
  }

  /** convert_to_cunia is idempotent. */
  lemma ConvertToCuniaIdempotent(text: string)
    ensures ConvertToCunia(ConvertToCunia(text)) == ConvertToCunia(text)
  {
  }

  /** The fixed points of convert_to_cunia are exactly the texts in Cunia form. */
  lemma ConvertToCuniaFixedPoints(text: string)
    ensures ConvertToCunia(text) == text <==> InCuniaForm(text)
  {
  }

  /** Text in the Cunia alphabet (ASCII without the apostrophe, ã, Ã)
      passes through convert_to_cunia unchanged. */
  lemma PlainTextUnchanged(text: string)
    requires forall c <- text :: Plain(c)
    ensures ConvertToCunia(text) == text
  {
    PlainIsSettled(text, CUNIA_RULES);
  }

  /** Ӑ (Cyrillic) becomes lower-case ã. */
  lemma CyrillicBreveQuirk()
    ensures ConvertToCunia("Ӑ") == "ã"
  {
    ConsonantPassMissesLetter('Ӑ', CONSONANT_RULES);
    PassOnLetter('Ӑ', CENTRAL_VOWEL_RULES, 3);
    PlainPassUnchanged("ã", OTHER_CHAR_RULES);
  }

  /** Ǎ becomes lower-case ã. */
  lemma CaronQuirk()
    ensures ConvertToCunia("Ǎ") == "ã"
  {
    ConsonantPassMissesLetter('Ǎ', CONSONANT_RULES);
    PassOnLetter('Ǎ', CENTRAL_VOWEL_RULES, 4);
    PlainPassUnchanged("ã", OTHER_CHAR_RULES);
  }

  /** Ă keeps its case and becomes Ã. */
  lemma BreveKeepsCase()
    ensures ConvertToCunia("Ă") == "Ã"
  {
    ConsonantPassMissesLetter('Ă', CONSONANT_RULES);
    PassOnLetter('Ă', CENTRAL_VOWEL_RULES, 1);
    PlainPassUnchanged("Ã", OTHER_CHAR_RULES);
  }

  /** Ḑ becomes lower-case "dz". */
  lemma CedillaAffricateQuirk()
    ensures ConvertToCunia("Ḑ") == "dz"
  {
    PassOnLetter('Ḑ', CONSONANT_RULES, 15);
    PlainPassUnchanged("dz", CENTRAL_VOWEL_RULES);
    PlainPassUnchanged("dz", OTHER_CHAR_RULES);
  }

  /** Ḍ keeps its case and becomes "Dz". */
  lemma DotAffricateKeepsCase()
    ensures ConvertToCunia("Ḍ") == "Dz"
  {
    PassOnLetter('Ḍ', CONSONANT_RULES, 17);
    PlainPassUnchanged("Dz", CENTRAL_VOWEL_RULES);
    PlainPassUnchanged("Dz", OTHER_CHAR_RULES);
  }
}
