/*
  The part of the translation service around the model
  (deployment/services/translation_service.py:21-59): the orthography
  dispatch, the input length check, the slicing of the sentences into
  batches and the joining of the translated sentences.

  The sentence splitter, the subword tokenizer of the source language and
  the translation of one batch by the model are parameters.
*/
module Translation {
  import opened Orthography
  import opened Diaro
  import opened Cleaning
  import opened Joiner
  import opened Converter

  /** convert_diacritics_from_orthography: "cunia" selects the conversion
      to DIARO; every other name, known or not, the conversion to Cunia. */
  method ConvertDiacriticsFromOrthography(orthography: string, text: string,
                                          tokenize: string -> seq<string>, res: Resources)
    returns (out: string)
    requires orthography == "cunia" ==> TokensNonEmpty(text, tokenize)
    ensures orthography == "cunia" ==> out == CuniaToDiaroSpec(text, tokenize, res) && InDiaroForm(out)
    ensures orthography != "cunia" ==> out == DiaroToCunia(text) && InCuniaForm(out)
  {
    if orthography == "cunia" {
      out := CuniaToDiaro(text, tokenize, res);
      return;
    }
    out := DiaroToCunia(text);
  }

  /** The number of batches: the length of range(0, n, size). */
  function BatchCount(n: nat, size: nat): nat
    requires size > 0
  {
    (n + size - 1) / size
  }

  /** What the batch count covers: every batch starts inside the list and
      the batches reach its end. */
  lemma BatchCountBounds(n: nat, size: nat)
    requires size > 0
    ensures BatchCount(n, size) * size >= n
    ensures forall j | 0 <= j < BatchCount(n, size) :: j * size < n
  {
    var q, r := (n + size - 1) / size, (n + size - 1) % size;
    assert q * size + r == n + size - 1 && 0 <= r < size;
    forall j | 0 <= j < q ensures j * size < n {
      MulStep(j, q, size);
    }
  }

  /** A smaller factor gives a product at least one `size` smaller. */
  lemma {:induction false} MulStep(j: nat, q: nat, size: nat)
    requires j < q
    ensures j * size + size <= q * size
    decreases q - j
  {
    assert (j + 1) * size == j * size + size;
    if j + 1 < q {
      MulStep(j + 1, q, size);
    }
  }

  /** The end of batch `j`, where the slice stops at the list's end. */
  function BatchEnd(j: nat, n: nat, size: nat): nat
  {
    if (j + 1) * size < n then (j + 1) * size else n
  }

  /** sents_batches: sents[i:i + size] for i in range(0, len(sents), size). */
  function Batches<T>(sents: seq<T>, size: nat): (batches: seq<seq<T>>)
    requires size > 0
    ensures |batches| == BatchCount(|sents|, size)
  {
    BatchCountBounds(|sents|, size);
    seq(BatchCount(|sents|, size), j requires 0 <= j < BatchCount(|sents|, size) =>
      sents[j * size..BatchEnd(j, |sents|, size)])
  }

  /** The batches one after the other. */
  function Flatten<T>(batches: seq<seq<T>>): seq<T>
    decreases |batches|
  {
    if |batches| == 0 then [] else Flatten(batches[..|batches| - 1]) + batches[|batches| - 1]
  }

  /** Every batch is non-empty and has at most `size` sentences; all but
      the last have exactly `size`. */
  lemma BatchSizes<T>(sents: seq<T>, size: nat)
    requires size > 0
    ensures forall j | 0 <= j < |Batches(sents, size)| ::
      0 < |Batches(sents, size)[j]| <= size &&
      (j < |Batches(sents, size)| - 1 ==> |Batches(sents, size)[j]| == size)
  {
    var batches := Batches(sents, size);
    var n := |sents|;
    BatchCountBounds(n, size);
    forall j | 0 <= j < |batches|
      ensures 0 < |batches[j]| <= size && (j < |batches| - 1 ==> |batches[j]| == size)
    {
      assert |batches[j]| == BatchEnd(j, n, size) - j * size;
      assert (j + 1) * size == j * size + size;
      if j < |batches| - 1 {
        assert (j + 1) * size < n;
      }
    }
  }

  /** The first `m` batches cover the first sentences up to the end of
      batch m - 1. */
  lemma {:induction false} BatchPrefix<T>(sents: seq<T>, size: nat, m: nat)
    requires size > 0 && 0 < m <= |Batches(sents, size)|
    ensures Flatten(Batches(sents, size)[..m]) == sents[..BatchEnd(m - 1, |sents|, size)]
    decreases m
  {
    var batches := Batches(sents, size);
    var n := |sents|;
    BatchCountBounds(n, size);
    assert batches[..m][..m - 1] == batches[..m - 1];
    assert batches[..m][m - 1] == sents[(m - 1) * size..BatchEnd(m - 1, n, size)];
    if m == 1 {
      assert batches[..0] == [];
    } else {
      BatchPrefix(sents, size, m - 1);
      assert (m - 1) * size == (m - 2 + 1) * size;
      assert BatchEnd(m - 2, n, size) == (m - 1) * size;
    }
  }

  /** The batches, one after the other, are the sentences in order. */
  lemma BatchesFlatten<T>(sents: seq<T>, size: nat)
    requires size > 0
    ensures Flatten(Batches(sents, size)) == sents
  {
    var batches := Batches(sents, size);
    var n := |sents|;
    BatchCountBounds(n, size);
    if |batches| > 0 {
      BatchPrefix(sents, size, |batches|);
      assert batches[..|batches|] == batches;
    } else {
      assert n == 0;
    }
  }

  /** The stages of translate_text the model is not part of: the
      sentence splitter, the subword tokenizer of the source language, and
      the translation of one batch into decoded sentences. */
  datatype Pipeline = Pipeline(sentenize: string -> seq<string>,
                               tokenize: string -> seq<string>,
                               translateBatch: seq<string> -> seq<string>)

  /** The service settings: the token limit and the batch size. */
  datatype Settings = Settings(maxInputTokens: int, batchSize: nat)

  datatype Outcome = Translated(text: string) | TooLong

  /** The translated sentences of the batches, in order. */
  function Translations(batches: seq<seq<string>>, translateBatch: seq<string> -> seq<string>): seq<string>
    decreases |batches|
  {
    if |batches| == 0 then []
    else Translations(batches[..|batches| - 1], translateBatch) + translateBatch(batches[|batches| - 1])
  }

  /** translate_text after clean_text: too long when the tokenizer yields
      more than the limit; otherwise the sentences in batches, each batch
      translated, and every translated sentence joined with single spaces. */
  method TranslateCleaned(text: string, pipeline: Pipeline, settings: Settings) returns (outcome: Outcome)
    requires settings.batchSize > 0
    ensures outcome == TooLong <==> |pipeline.tokenize(text)| > settings.maxInputTokens
    ensures outcome.Translated? ==>
      (outcome.text == JoinWithSpace(Translations(Batches(pipeline.sentenize(text), settings.batchSize),
                                                   pipeline.translateBatch)))
  {
    var sents := pipeline.sentenize(text);
    if |pipeline.tokenize(text)| > settings.maxInputTokens {
      return TooLong;
    }
    var batches := Batches(sents, settings.batchSize);
    var ys: seq<string> := [];
    for i := 0 to |batches|
      invariant ys == Translations(batches[..i], pipeline.translateBatch)
    {
      assert batches[..i + 1][..i] == batches[..i];
      ys := ys + pipeline.translateBatch(batches[i]);
    }
    assert batches[..|batches|] == batches;
    return Translated(JoinWithSpace(ys));
  }

  /** translate_text: clean_text with the source language, then the rest
      as TranslateCleaned says. */
  method TranslateText(text: string, langFrom: string, isWord: char -> bool,
                       pipeline: Pipeline, settings: Settings) returns (outcome: Outcome)
    requires settings.batchSize > 0
    ensures var cleaned := CleanText(text, langFrom, isWord);
      (outcome == TooLong <==> |pipeline.tokenize(cleaned)| > settings.maxInputTokens) &&
      (outcome.Translated? ==>
         (outcome.text == JoinWithSpace(Translations(Batches(pipeline.sentenize(cleaned), settings.batchSize),
                                                     pipeline.translateBatch))))
  {
    var cleaned := CleanText(text, langFrom, isWord);
    outcome := TranslateCleaned(cleaned, pipeline, settings);
  }

  /** When the model gives one sentence back per sentence, the batches
      give back one translation per sentence. */
  lemma {:induction false} TranslationsLength(batches: seq<seq<string>>, translateBatch: seq<string> -> seq<string>)
    requires forall k | 0 <= k < |batches| :: |translateBatch(batches[k])| == |batches[k]|
    ensures |Translations(batches, translateBatch)| == |Flatten(batches)|
    decreases |batches|
  {
    if |batches| > 0 {
      var prefix := batches[..|batches| - 1];
      assert forall k | 0 <= k < |prefix| :: prefix[k] == batches[k];
      TranslationsLength(prefix, translateBatch);
    }
  }

  /** With one translation per sentence, the output has one sentence per
      input sentence. */
  lemma SentencePerSentence(sents: seq<string>, size: nat, translateBatch: seq<string> -> seq<string>)
    requires size > 0
    requires forall b: seq<string> :: |translateBatch(b)| == |b|
    ensures |Translations(Batches(sents, size), translateBatch)| == |sents|
  {
    TranslationsLength(Batches(sents, size), translateBatch);
    BatchesFlatten(sents, size);
  }
}
