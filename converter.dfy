/*
  cunia_to_diaro (deployment/utils/text_processing.py:293-307): the text is
  put in Cunia form, split into tokens, each token with an ã is resolved
  by the dictionary or, failing that, by the n-gram tables, its consonants
  are written in DIARO, and the tokens are joined again.

  The tokenizer is a parameter returning the text's tokens.
*/
module Converter {
  import opened Replace
  import opened Orthography
  import opened Diaro
  import opened Resolver
  import opened Joiner

  /** The resources the resolver reads: the two n-gram count tables, the
      Cunia-to-DIARO dictionary, and the case mappings. */
  datatype Resources = Resources(fah: map<string, int>, fuh: map<string, int>,
                                 dictionary: map<string, string>, casing: Casing)

  /** The token with its ã resolved: the dictionary entry when there is a
      non-empty one, otherwise the n-gram resolution. A token without a
      lower-case ã is kept. */
  function Resolved(word: string, res: Resources): (r: string)
    ensures 'ã' !in word ==> r == word
    ensures |r| == 0 ==> |word| == 0
  {
    if 'ã' in word then
      var cached := ResolveWithDictionary(word, res.dictionary, res.casing);
      if cached != "" then cached else NgramResolution(word, res.fah, res.fuh, res.casing)
    else word
  }

  /** One token of cunia_to_diaro: resolved, then its consonants in DIARO.
      A non-empty token stays non-empty. */
  function TokenToDiaro(word: string, res: Resources): (r: string)
    ensures |word| > 0 ==> |r| > 0
  {
    var resolved := Resolved(word, res);
    DiaroKeepsNonEmpty(resolved, CUNIA2DIARO);
    ApplyRules(resolved, CUNIA2DIARO)
  }

  /** No DIARO key is left in a converted token. */
  lemma TokenKeyless(word: string, res: Resources)
    ensures InDiaroForm(TokenToDiaro(word, res))
  {
    DiaroPass(Resolved(word, res), CUNIA2DIARO);
  }

  /** `f` applied to every token. */
  function MapTokens(words: seq<string>, f: string -> string): (r: seq<string>)
    ensures |r| == |words|
  {
    seq(|words|, k requires 0 <= k < |words| => f(words[k]))
  }

  /** Mapping one more token appends its image. */
  lemma MapTokensSnoc(words: seq<string>, i: nat, f: string -> string)
    requires i < |words|
    ensures MapTokens(words[..i + 1], f) == MapTokens(words[..i], f) + [f(words[i])]
  {
    var longer, shorter := MapTokens(words[..i + 1], f), MapTokens(words[..i], f);
    forall k | 0 <= k < i ensures longer[k] == shorter[k] {
      assert words[..i + 1][k] == words[..i][k];
    }
  }

  /** Every token of `words` taken to DIARO. */
  function TokensToDiaro(words: seq<string>, res: Resources): (r: seq<string>)
    ensures |r| == |words|
  {
    MapTokens(words, w => TokenToDiaro(w, res))
  }

  /** The tokens of the text once in Cunia form. */
  function CuniaTokens(text: string, tokenize: string -> seq<string>): seq<string>
  {
    tokenize(ConvertToCunia(text))
  }

  /** The tokenizer yields non-empty tokens for this text. */
  predicate TokensNonEmpty(text: string, tokenize: string -> seq<string>)
  {
    forall k | 0 <= k < |CuniaTokens(text, tokenize)| :: |CuniaTokens(text, tokenize)[k]| > 0
  }

  /** What cunia_to_diaro returns: the tokens taken to DIARO, glued as
      smart_join_words glues them. */
  function CuniaToDiaroSpec(text: string, tokenize: string -> seq<string>, res: Resources): string
    requires TokensNonEmpty(text, tokenize)
  {
    var converted := TokensToDiaro(CuniaTokens(text, tokenize), res);
    assert Joinable(converted);
    Glued(converted)
  }

  /** Glued text ends with its last token. */
  lemma {:induction false} GluedEndsWithLast(words: seq<string>)
    requires Joinable(words) && |words| > 0
    ensures EndsWith(Glued(words), words[|words| - 1])
  {
    var g := Glued(words);
    var w := words[|words| - 1];
    if |words| > 1 {
      var prefix := words[..|words| - 1];
      assert Joinable(prefix);
      var sep := if SpaceBefore(words, |words| - 1) then " " else "";
      assert g == (Glued(prefix) + sep) + w;
      assert g[|g| - |w|..] == w;
    }
  }

  /** Gluing never puts the two letters of a DIARO key side by side: a
      space is neither, a clinging token starts with punctuation, and an
      opening token ends in ( or -. */
  lemma {:induction false} GluedKeepsKeyless(words: seq<string>, rules: seq<DiaroRule>)
    requires Joinable(words)
    requires forall k | 0 <= k < |words| :: Keyless(words[k], rules)
    ensures Keyless(Glued(words), rules)
    decreases |words|
  {
    if |words| > 1 {
      var n := |words|;
      var prefix := words[..n - 1];
      var w := words[n - 1];
      assert Joinable(prefix);
      assert prefix[n - 2] == words[n - 2];
      GluedKeepsKeyless(prefix, rules);
      GluedEndsWithLast(prefix);
      var g := Glued(prefix);
      var sep := if SpaceBefore(words, n - 1) then " " else "";
      assert Keyless(w, rules);
      forall r <- rules ensures Absent(Glued(words), r.pat) {
        var a, b := r.pat[0], r.pat[1];
        if |g| > 0 && |words[n - 2]| > 0 {
          assert g[|g| - 1] == words[n - 2][|words[n - 2]| - 1];
        }
        NoPairConcat(g, sep, a, b);
        NoPairConcat(g + sep, w, a, b);
      }
    }
  }

  /** The body of the loop of cunia_to_diaro: a token with an ã is
      looked up in the dictionary and, without an entry, resolved by the
      n-gram tables; then its consonants are written in DIARO. */
  method ConvertToken(word: string, res: Resources) returns (diaro: string)
    ensures diaro == TokenToDiaro(word, res)
  {
    var resolved := word;
    if 'ã' in word {
      resolved := ResolveWithDictionary(word, res.dictionary, res.casing);
      if resolved == "" {
        resolved := ResolveWithNgrams(word, res.fah, res.fuh, res.casing);
      }
    }
    diaro := ConvertConsonantsDiaro(resolved);
  }

  /** Converting one more token appends its conversion. */
  lemma TokensSnoc(words: seq<string>, i: nat, res: Resources)
    requires i < |words|
    ensures TokensToDiaro(words[..i + 1], res) == TokensToDiaro(words[..i], res) + [TokenToDiaro(words[i], res)]
  {
    MapTokensSnoc(words, i, w => TokenToDiaro(w, res));
  }

  /** Non-empty tokens stay non-empty, so the converted tokens can be
      joined. */
  lemma ConvertedJoinable(text: string, tokenize: string -> seq<string>, res: Resources)
    requires TokensNonEmpty(text, tokenize)
    ensures Joinable(TokensToDiaro(CuniaTokens(text, tokenize), res))
  {
    var words := CuniaTokens(text, tokenize);
    var converted := TokensToDiaro(words, res);
    forall k | 0 < k < |converted| ensures |converted[k]| > 0 {
      assert converted[k] == TokenToDiaro(words[k], res);
    }
  }

  /** No DIARO key is left in what cunia_to_diaro returns. */
  lemma SpecKeyless(text: string, tokenize: string -> seq<string>, res: Resources)
    requires TokensNonEmpty(text, tokenize)
    ensures InDiaroForm(CuniaToDiaroSpec(text, tokenize, res))
  {
    var words := CuniaTokens(text, tokenize);
    var arr := TokensToDiaro(words, res);
    ConvertedJoinable(text, tokenize, res);
    forall k | 0 <= k < |arr| ensures Keyless(arr[k], CUNIA2DIARO) {
      assert arr[k] == TokenToDiaro(words[k], res);
      TokenKeyless(words[k], res);
    }
    GluedKeepsKeyless(arr, CUNIA2DIARO);
  }

  /** The loop of cunia_to_diaro: every token converted, in order. */
  method ConvertTokens(words: seq<string>, res: Resources) returns (arr: seq<string>)
    ensures arr == TokensToDiaro(words, res)
  {
    arr := [];
    for i := 0 to |words|
      invariant arr == TokensToDiaro(words[..i], res)
    {
      var diaro := ConvertToken(words[i], res);
      TokensSnoc(words, i, res);
      arr := arr + [diaro];
    }
    assert words[..|words|] == words;
  }

  /** cunia_to_diaro: Cunia form first, then token by token, then joined.
      No DIARO key survives, neither inside a token nor across a join. */
  method CuniaToDiaro(text: string, tokenize: string -> seq<string>, res: Resources) returns (out: string)
    requires TokensNonEmpty(text, tokenize)
    ensures out == CuniaToDiaroSpec(text, tokenize, res)
    ensures InDiaroForm(out)
  {
    var cunia := ConvertToCunia(text);
    var words := tokenize(cunia);
    var arr := ConvertTokens(words, res);
    ConvertedJoinable(text, tokenize, res);
    out := SmartJoinWords(arr);
    SpecKeyless(text, tokenize, res);
  }

  /** A token whose only central vowel is the upper-case Ã has no
      lower-case ã, so it is not resolved: "Ã" comes out as "Ã" whatever
      the dictionary and the tables say. */
  lemma UpperVowelUnresolved(res: Resources)
    ensures TokenToDiaro("Ã", res) == "Ã"
  {
    LetterIsKeyless('Ã', CUNIA2DIARO);
    DiaroPass("Ã", CUNIA2DIARO);
  }

  /** The dictionary takes precedence: with a non-empty entry under the
      token's key, that entry is the resolution and the n-gram tables play
      no part. */
  lemma DictionaryFirst(word: string, res: Resources, fah: map<string, int>, fuh: map<string, int>)
    requires 'ã' in word
    requires DiaroToCunia(Lowered(word, res.casing)) in res.dictionary
    requires res.dictionary[DiaroToCunia(Lowered(word, res.casing))] != ""
    ensures Resolved(word, res) == res.dictionary[DiaroToCunia(Lowered(word, res.casing))]
    ensures TokenToDiaro(word, res) == TokenToDiaro(word, res.(fah := fah, fuh := fuh))
  {
  }

  /** Without a non-empty entry, the token is resolved by the n-gram
      tables. */
  lemma NgramsOtherwise(word: string, res: Resources)
    requires 'ã' in word && ResolveWithDictionary(word, res.dictionary, res.casing) == ""
    ensures Resolved(word, res) == NgramResolution(word, res.fah, res.fuh, res.casing)
    ensures |Resolved(word, res)| == |word|
  {
  }
}
