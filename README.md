# Aromanian orthography converter and translation front end

This project models the text handling of a machine-translation service for
Aromanian, Romanian and English. It covers:

- the conversion between the two Aromanian spellings: Cunia, which writes
  consonants as ASCII digraphs ("sh", "ts", "lj", "nj", "dz") and the central
  vowel as "ã", and DIARO, which writes consonants with diacritic letters;
- the resolution of the Cunia vowel ã into â, ă or î, by a word dictionary
  or by counts of four-character contexts;
- the joining of tokens back into text with punctuation-aware spacing;
- the clean-up of input text before translation, the lookup of language
  codes and the repair of unknown-token markers;
- the translation request itself: the orthography dispatch, the length
  check, the batching of sentences and the joining of the translations.

Every `str.replace` in the source is `Replace.ReplaceAll`: left to right,
non-overlapping, with a non-empty pattern. A run of `replace` calls is a
table of rules in source order, folded by `Replace.ApplyRules`, with
duplicate rules kept. In the tables of the spelling conversions and of
`clean_text` every pattern is one or two characters long, and no
replacement can re-create a pattern of its own table. That is why
`convert_to_cunia` is idempotent and its fixed points are exactly the texts
in Cunia form.

Modules:

- `Replace`: the replace-all primitive and facts about rule tables.
- `Orthography`: the Cunia tables and `convert_to_cunia` with its three passes.
- `Diaro`: the DIARO table, `convert_consonants_diaro`, `normalize_diaro` and `diaro_to_cunia`.
- `Cleaning`: `clean_text` with its whitespace, î and replacement steps, `post_process`, `get_language_code`.
- `Resolver`: `get_mask`, `resolve_with_ngrams`, `resolve_with_dictionary`.
- `Joiner`: `smart_join_words`.
- `Converter`: `cunia_to_diaro`.
- `Translation`: `convert_diacritics_from_orthography` and `translate_text`.

A lone hyphen keeps the space before it and takes the next word without
one: `smart_join_words` joins `["word", "-", "continued"]` to
"word -continued" (`Joiner.HyphenExample`).

## Model

| member | source | states |
|---|---|---|
| Replace.ApplyRulesAppend | deployment/utils/text_processing.py:141-145 | running one table and then another is running their concatenation |
| Replace.ApplyRulesRemovesAll | deployment/utils/text_processing.py:85-138 | after a table whose replacements cannot re-create its patterns, none of its patterns occurs |
| Replace.ApplyRulesAbsentIsIdentity | deployment/utils/text_processing.py:85-138 | a table none of whose patterns occurs in the text leaves the text unchanged |
| Replace.ApplyRulesIdempotent | deployment/utils/text_processing.py:85-138 | running such a table twice is running it once |
| Replace.ApplyRulesFirstMatch | deployment/utils/text_processing.py:243-244 | on a text equal to step j's pattern, where no earlier pattern occurs and no later one occurs in step j's replacement, the result is that replacement |
| Replace.ReplaceCharConcat | deployment/utils/text_processing.py:167 | replacing a single character in two joined texts is replacing it in each |
| Replace.ReplaceCharByChar | deployment/utils/text_processing.py:157-160 | replacing one character by one character keeps the length and changes exactly the positions that held it |
| Replace.ApplyRulesCharForChar | deployment/utils/text_processing.py:156-160 | a table of one-character-for-one-character rules works position by position, each character becoming its image under the table |
| Replace.ReplaceRemovesDisjoint | deployment/utils/text_processing.py:183 | a non-empty replacement that shares no character with the pattern leaves no occurrence of it |
| Replace.ReplaceWithoutOccurrence | deployment/utils/text_processing.py:183 | replacing a pattern that does not occur changes nothing |
| Orthography.ConvertConsonantsCunia | deployment/utils/text_processing.py:85-117 | no consonant pattern is left in the result; text without one is returned unchanged |
| Orthography.ConvertCentralVowelCunia | deployment/utils/text_processing.py:64-82 | no central-vowel pattern is left; text without one is returned unchanged |
| Orthography.ConvertOtherChars | deployment/utils/text_processing.py:120-138 | no Greek letter or listed accent is left; text without one is returned unchanged |
| Orthography.ConvertToCunia | deployment/utils/text_processing.py:141-145 | the result is in Cunia form, and text already in Cunia form is returned unchanged |
| Orthography.ConvertToCuniaIsOnePass | deployment/utils/text_processing.py:141-145 | the three passes in turn equal one pass over the joined table |
| Orthography.ConvertToCuniaIdempotent | deployment/utils/text_processing.py:141-145 | converting twice equals converting once |
| Orthography.ConvertToCuniaFixedPoints | deployment/utils/text_processing.py:141-145 | a text is unchanged by the conversion if and only if it is in Cunia form |
| Orthography.PlainTextUnchanged | deployment/utils/text_processing.py:141-145 | text in the Cunia alphabet (ASCII without the apostrophe, plus ã and Ã) is unchanged |
| Orthography.PassOnLetter | deployment/utils/text_processing.py:85-138 | on a one-letter text, the first rule whose pattern is that letter gives the result |
| Orthography.BreveKeepsCase | deployment/utils/text_processing.py:67 | Ă becomes upper-case Ã |
| Orthography.CyrillicBreveQuirk | deployment/utils/text_processing.py:69 | the Cyrillic Ӑ becomes lower-case ã |
| Orthography.CaronQuirk | deployment/utils/text_processing.py:70 | Ǎ becomes lower-case ã |
| Orthography.CedillaAffricateQuirk | deployment/utils/text_processing.py:103 | Ḑ becomes lower-case "dz" |
| Orthography.DotAffricateKeepsCase | deployment/utils/text_processing.py:105 | Ḍ becomes "Dz" |
| Diaro.DiaroPass | deployment/utils/text_processing.py:41-57 | after the DIARO table no key is left, keyless text is unchanged, and every new character is a DIARO letter |
| Diaro.ConvertConsonantsDiaro | deployment/utils/text_processing.py:241-245 | the loop over the table equals the table's fold; the result holds no key and keyless text is unchanged |
| Diaro.NormalizeDiaro | deployment/utils/text_processing.py:248-257 | no DIARO key survives, and every character comes from the standardised text or is a DIARO letter |
| Diaro.DiaroToCunia | deployment/utils/text_processing.py:260-264 | the result is in Cunia form and a fixed point of the Cunia conversion |
| Diaro.NormalizeUpperDigraph | deployment/utils/text_processing.py:248-257 | "SH" normalises to Ș |
| Diaro.CommaSToCunia | deployment/utils/text_processing.py:91 | Ș converts to Cunia as "Sh" |
| Diaro.UpperDigraphQuirk | deployment/utils/text_processing.py:260-264 | "SH" is already in Cunia form, yet it comes back from DIARO as "Sh" |
| Cleaning.CollapseWhitespace | deployment/utils/text_processing.py:150 | the visible characters are kept in order, the result is single spaced and no longer, and it starts with whitespace exactly when the text does |
| Cleaning.CollapseNoSpace | deployment/utils/text_processing.py:150 | text without whitespace is left unchanged by the collapse |
| Cleaning.CollapseRun | deployment/utils/text_processing.py:150 | a whitespace run at the start, before a non-space character or the end, becomes one space |
| Cleaning.CollapsePrefix | deployment/utils/text_processing.py:150 | text ending in a non-space character collapses on its own whatever follows it |
| Cleaning.CollapseSplit | deployment/utils/text_processing.py:150 | a whole whitespace run between two texts becomes exactly one space, and each side collapses on its own |
| Cleaning.CollapseEnd | deployment/utils/text_processing.py:150 | text ending in a non-space character collapses to text ending in that character |
| Cleaning.LeadingSpaces | deployment/utils/text_processing.py:150 | the count is of whitespace characters only and stops at the first other one |
| Cleaning.TrailingStart | deployment/utils/text_processing.py:150 | everything from the returned position is whitespace and the character before it is not |
| Cleaning.Strip | deployment/utils/text_processing.py:150 | the result is the text with leading and trailing whitespace cut, and starts and ends with a non-space |
| Cleaning.StripUnique | deployment/utils/text_processing.py:150 | any split into whitespace, a middle with non-space ends, and whitespace gives that middle as the stripped text |
| Cleaning.StripIgnoresPadding | deployment/utils/text_processing.py:61 | extra whitespace around a text does not change its stripped form |
| Cleaning.NormalizeSpaces | deployment/utils/text_processing.py:150 | visible characters are kept in order, spacing is single plain spaces, and there is no space at either end |
| Cleaning.StripJoin | deployment/utils/text_processing.py:150 | stripping two texts joined by a space, with no whitespace next to the space, strips each |
| Cleaning.NormalizeNoSpace | deployment/utils/text_processing.py:150 | text without whitespace passes the first step of clean_text unchanged |
| Cleaning.NormalizeSplit | deployment/utils/text_processing.py:150 | a whole whitespace run becomes one space between two texts, and disappears at either end of the text |
| Cleaning.WordsKeepTheirSpace | deployment/utils/text_processing.py:150 | two words with one space between them come out as they went in |
| Cleaning.ModernizeScan | deployment/utils/text_processing.py:152 | position by position, an î between word characters becomes â and everything else is copied |
| Cleaning.ModernizeInnerI | deployment/utils/text_processing.py:152 | an î becomes â exactly when both neighbours in the original text are word characters; the length is kept |
| Cleaning.PunctuationRemovesStray | deployment/utils/text_processing.py:165-177 | after the punctuation steps no stray symbol, curly quote, no-break space or byte order mark is left |
| Cleaning.RonRemovesCedillas | deployment/utils/text_processing.py:156-160 | after the Romanian steps no cedilla letter is left |
| Cleaning.RonStepsSwapCedillas | deployment/utils/text_processing.py:156-160 | the Romanian steps keep the length and turn each cedilla letter into its own comma-below letter, leaving every other character |
| Cleaning.PunctuationSteps | deployment/utils/text_processing.py:164-177 | no stray character is left, and only hyphens, dots and double quotes are brought in |
| Cleaning.RomanianReplacements | deployment/utils/text_processing.py:156-177 | the result is the punctuation steps applied to the text with each cedilla letter in its comma-below form; neither a cedilla letter nor a stray character is left |
| Cleaning.CuniaReplacements | deployment/utils/text_processing.py:161-177 | no stray character is left, and no letter a Cunia step would replace |
| Cleaning.CleanReplacements | deployment/utils/text_processing.py:156-177 | for "ron" the result is the punctuation steps on the comma-below form of the text, for any other code the punctuation steps on its Cunia form; no stray character is left, for "ron" no cedilla letter, otherwise no letter a Cunia step replaces |
| Cleaning.CedillaFreeUnchanged | deployment/utils/text_processing.py:156-160 | text without cedilla letters passes the Romanian steps unchanged |
| Cleaning.StrayFreeUnchanged | deployment/utils/text_processing.py:164-177 | text without stray characters passes the punctuation steps unchanged |
| Cleaning.RemovedStarLeavesDoubleSpace | deployment/utils/text_processing.py:150-177 | a lone asterisk between words leaves a double space, because spaces are collapsed before it is removed |
| Cleaning.CleanText | deployment/utils/text_processing.py:148-178 | no stray character survives; for "ron" no cedilla letter, for any other code no letter a Cunia step replaces |
| Cleaning.PostProcess | deployment/utils/text_processing.py:181-184 | no unknown-token marker is left, and the text changes exactly when it held one |
| Cleaning.GetLanguageCode | deployment/utils/text_processing.py:60-61 | a code exists exactly when the stripped name is listed, and it is ron, rup or eng |
| Cleaning.ListedNamesRecognised | deployment/utils/text_processing.py:11-21 | every listed name yields its listed code |
| Cleaning.LanguagePaddingIgnored | deployment/utils/text_processing.py:60-61 | whitespace around a name does not change its code |
| Resolver.Lowered | deployment/utils/text_processing.py:216 | lowering keeps the length and lowers each character |
| Resolver.GetMask | deployment/utils/text_processing.py:192-209 | the mask is the two characters before and the two after the index, with a space outside the word |
| Resolver.Transduced | deployment/utils/text_processing.py:218-231 | ã at the start becomes î; any other ã becomes â exactly when its mask counts more for â than for ă, else ă; other characters are kept |
| Resolver.NgramResolution | deployment/utils/text_processing.py:212-238 | the resolved word has the length of the input |
| Resolver.TransduceVowels | deployment/utils/text_processing.py:215-229 | the first loop yields, at every position, the character Transduced prescribes, and keeps the length |
| Resolver.RestoreCase | deployment/utils/text_processing.py:230-236 | the second loop yields, at every position, the transduced character upper-cased exactly where the word differs from its lowered form |
| Resolver.ResolveWithNgrams | deployment/utils/text_processing.py:212-238 | the two loops compute the resolution position by position, with upper case restored where the word had it |
| Resolver.NeighboursSeenUnresolved | deployment/utils/text_processing.py:218-229 | masks are read from the unresolved word, so "ããã" with one count for " ãã " gives "îâă" |
| Resolver.ResolveWithDictionary | deployment/utils/text_processing.py:267-273 | with an entry under diaro_to_cunia of the lowered word, the result is that entry; without one, it is ""; a non-empty result is always that entry |
| Resolver.NonCuniaKeyUnused | deployment/utils/text_processing.py:271-272 | an entry under a key not in Cunia form is never looked up |
| Resolver.FoundKeyInCuniaForm | deployment/utils/text_processing.py:271-273 | a word resolved through the dictionary found an entry under a key in Cunia form |
| Resolver.DictionaryIgnoresCase | deployment/utils/text_processing.py:271 | words that lower to the same text find the same entry |
| Joiner.Units | deployment/utils/text_processing.py:280-289 | one unit per word for a single word, and the last unit ends with the last word |
| Joiner.UnitsJoinToGlued | deployment/utils/text_processing.py:276-290 | the units joined with spaces equal the words with a space exactly where SpaceBefore holds |
| Joiner.SmartJoinWords | deployment/utils/text_processing.py:276-290 | the result is the words with a space before each one that neither clings nor follows an opening ( or - |
| Joiner.PlainWordsSpaced | deployment/utils/text_processing.py:276-290 | words that neither cling nor open are joined with single spaces |
| Joiner.PunctuationExample | deployment/utils/text_processing.py:284-287 | ["Hello", ",", "world", "(", "test", ")"] joins to "Hello, world (test)" |
| Joiner.HyphenExample | deployment/utils/text_processing.py:284-287 | ["word", "-", "continued"] joins to "word -continued" |
| Converter.Resolved | deployment/utils/text_processing.py:301-305 | a token without ã is kept, and a non-empty token resolves to a non-empty one |
| Converter.TokenToDiaro | deployment/utils/text_processing.py:301-306 | a non-empty token converts to a non-empty one |
| Converter.TokenKeyless | deployment/utils/text_processing.py:306 | a converted token holds no DIARO key |
| Converter.ConvertToken | deployment/utils/text_processing.py:301-306 | the loop body resolves by dictionary, then by n-grams, then converts consonants, as TokenToDiaro says |
| Converter.ConvertTokens | deployment/utils/text_processing.py:299-306 | the loop converts every token, in order, as TokenToDiaro says |
| Converter.GluedKeepsKeyless | deployment/utils/text_processing.py:307 | joining keyless tokens creates no DIARO key across a join |
| Converter.SpecKeyless | deployment/utils/text_processing.py:293-307 | the output of cunia_to_diaro holds no DIARO key |
| Converter.CuniaToDiaro | deployment/utils/text_processing.py:293-307 | the output is the Cunia-form tokens converted one by one and joined, and holds no DIARO key |
| Converter.UpperVowelUnresolved | deployment/utils/text_processing.py:302 | an upper-case Ã is never resolved, whatever the resources say |
| Converter.DictionaryFirst | deployment/utils/text_processing.py:302-305 | with a non-empty dictionary entry under the token's key, the token resolves to that entry and the n-gram tables play no part |
| Converter.NgramsOtherwise | deployment/utils/text_processing.py:304-305 | without a dictionary entry, the token is resolved by the n-gram tables and keeps its length |
| Translation.ConvertDiacriticsFromOrthography | deployment/services/translation_service.py:21-24 | "cunia" gives DIARO text with no key left; any other name gives text in Cunia form |
| Translation.BatchCountBounds | deployment/services/translation_service.py:34 | the batches cover the list, and every batch starts inside it |
| Translation.Batches | deployment/services/translation_service.py:34 | there are ceiling(n / size) batches |
| Translation.BatchSizes | deployment/services/translation_service.py:34 | every batch is non-empty and at most the batch size, and all but the last are full |
| Translation.BatchPrefix | deployment/services/translation_service.py:34 | the first m batches, one after another, are the sentences up to the end of batch m |
| Translation.BatchesFlatten | deployment/services/translation_service.py:34 | the batches, one after another, are the sentences in order |
| Translation.TranslateCleaned | deployment/services/translation_service.py:29-59 | too long exactly when the token count exceeds the limit; otherwise the batch translations in order, joined with spaces |
| Translation.TranslateText | deployment/services/translation_service.py:27-59 | the same, on the cleaned text |
| Translation.TranslationsLength | deployment/services/translation_service.py:39-56 | with one translation per sentence in each batch, there is one per sentence overall |
| Translation.SentencePerSentence | deployment/services/translation_service.py:34-56 | a model that gives one sentence per sentence yields as many sentences as the input had |

## Left out

- The spaCy tokenizer, the razdel sentence splitter, the subword tokenizers and the ctranslate2 model are opaque; they are function parameters (`tokenize`, `Pipeline`).
- The resource files `fah.json`, `fuh.json` and `cunia_diaro.csv` are read at start-up; their contents are parameters (`Converter.Resources`).
- Python's `lower()` and `upper()` are parameters applied one character at a time. Case mappings that change a word's length (such as ß to "SS") are not modelled.
- The regular-expression class `\w` is Unicode-dependent and is a parameter `isWord`. `\s` and `str.strip` are modelled concretely as Python's whitespace set.
- The timing of `translate_text` (`start_time`, `total_time`) is a clock reading and is left out. The model returns the joined text only.
- `translate_text` looks up `tokenizers[lang_from]`, which raises for an unknown code. The tokenizer is passed in, so that error path is not modelled.
- The model's decoding settings (truncation, maximum output length, target-language prefix, dropping the first hypothesis token) are inside the opaque `translateBatch`.
- `deployment/app.py`, `deployment/config.py` and `deployment/utils/logger.py` (the HTTP layer, the settings values and logging) are not part of this model. The limit and the batch size are the `Settings` parameter.
- Translation.TranslateCleaned: requires a positive batch size. A batch size of zero makes `range` raise, and the model does not cover that error.
- Translation.TranslateText: requires a positive batch size, for the same reason.
- Translation.ConvertDiacriticsFromOrthography: requires the tokenizer to yield non-empty tokens, as `smart_join_words` reads `word[0]`. An empty token would make the source raise.
- Converter.CuniaToDiaro: requires non-empty tokens, for the same reason.
- Resolver.GetMask: requires the index to be within the word or one past it, as at every call in the source.
- The replacement of the no-break space at deployment/utils/text_processing.py:176 never fires: the whitespace collapse has already turned every no-break space into a plain space. The model keeps the step.
