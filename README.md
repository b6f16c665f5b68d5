# eng_to_ipa transcriber core, in Dafny

This project models the core of `eng_to_ipa/transcribe.py`, an English to
IPA (International Phonetic Alphabet) transcriber built on the CMU
Pronouncing Dictionary, and proves properties of the model. The core is a
pipeline over strings and lists:

- **Tokenising and punctuation** (`punctuation.dfy`). `preprocess` strips
  a fixed punctuation set from the ends of each whitespace token and
  lowercases it. `preserve_punc` splits each token into a
  `[prefix, core, suffix]` triple. `apply_punct` glues triples back
  together, and `_punct_replace_word` wraps every candidate in its token's
  punctuation, in place.
- **Dictionary lookup** (`resolver.dfy`). The `dictionary` table is a
  sequence of `(word, phonemes)` rows. `fetch_words` groups the matching
  rows by word. `get_cmu` gives one candidate list per token. A possessive
  falls back to its base word. An unknown word gets the `__IGNORE__`
  marker.
- **ARPAbet to IPA** (`mapper.dfy`). `cmu_to_ipa` translates each
  candidate piece by piece with the 25-symbol table and keeps a stress
  glyph in front of its symbol. It then applies the two guarded swaps and
  sorts each word's forms without duplicates. The `mark` flag is truthy
  from the start, and a stressed piece overwrites it with the glyph.
- **Choosing transcriptions** (`selection.dfy`, `radix.dfy`). `get_top`
  takes the last (greatest) form of every word. `get_all` enumerates every
  combination with a counter. Row `j` is a shifted mixed-radix numbering
  of `j + 1`, and the model proves that it lists each combination exactly
  once.
- **Visemes** (`viseme.dfy`). `get_viseme` scans each word left to right
  and treats a listed two-character diphthong as one symbol. It looks each
  symbol up in the chosen language's table. A word marked with `*` is shown
  in capitals instead.
- **Entry points** (`pipeline.dfy`). The module covers three of them:
  - `ipa_list`;
  - `isin_cmu`;
  - the top-only path of `convert` (`retrieve_all=False`, `no_stress=True`), which removes the stress glyphs and then either capitalises untranscribable words or produces visemes.

`text.dfy` models the Python string operations the source relies on. These
are `split()`, `split(c)`, `join`, `strip`, `replace`, ASCII `lower` and
`upper`, and `re.sub("[0-9]", "", ...)`. `ordering.dfy` gives Python's
string order and `sorted` / `sorted(set(...))`, and `wrappers.dfy` the
`Result` type.

A Python exception is modelled as `Failure("IndexError")`,
`Failure("ZeroDivisionError")` or `Failure("KeyError")`. The dictionary
table, the viseme table and the stress annotator `find_stress` are
parameters.

Where the library's documentation and its code differ, the model follows
the code:

- `get_top` takes the last candidate of each word, which is the greatest in string order, although its docstring says "first".
- A trailing apostrophe (`cats'`) adds no " z" when `get_cmu` is called on it directly, because the part after the apostrophe is `""` and not `"s"`. Through `ipa_list` and `convert` the case never arises: `preprocess` strips the trailing `'` before the lookup, and `preserve_punc` puts it back as the suffix.
- An untranscribable possessive is shown with a lower-case `z` (`QZXWz`).
- A token made only of punctuation keeps an empty prefix and suffix, because both patterns of `preserve_punc` need a letter.
- `preprocess` is not idempotent: a token that strips to nothing leaves a double space behind.
- `convert` keeps one output word per input item only while no IPA form holds a space. Two inputs can break this: a pronunciation in the table that starts with `__IGNORE__` and holds a space, or a `find_stress` that returns such a string for one of the candidates. `Pipeline.ConvertKeepsWords` and `Pipeline.ConvertVisemesKeepWords` state the word count under conditions that exclude both: no pronunciation holds an underscore, and `find_stress` leaves no space in the marked result of a marker-safe candidate. `Pipeline.PassThroughIsSafe` shows that an annotator returning its input unchanged meets the second condition.

## Model

| member | source | states |
|---|---|---|
| Punctuation.Preprocess | eng_to_ipa/transcribe.py:18-21 | `preprocess` gives a lowercase text whose only whitespace character is the space that joins the cleaned tokens |
| Punctuation.PreprocessToken | eng_to_ipa/transcribe.py:18-21 | on one whitespace token, `preprocess` strips `punct_str` from both ends and lowercases |
| Punctuation.CleanIdempotent | eng_to_ipa/transcribe.py:21 | stripping and lowercasing a token twice is doing it once |
| Punctuation.PreprocessIdempotent | eng_to_ipa/transcribe.py:18-21 | `preprocess` is idempotent when no token is made only of punctuation |
| Punctuation.PreprocessNotIdempotent | eng_to_ipa/transcribe.py:18-21 | with such a token it is not: preprocessing `"a ! b"` twice differs from once |
| Punctuation.SearchBeforeMatches | eng_to_ipa/transcribe.py:29-32 | the prefix is a non-empty non-alphanumeric run at the start followed by a letter, exactly when the leading pattern matches it |
| Punctuation.SearchAfterMatches | eng_to_ipa/transcribe.py:30-34 | the suffix is a non-empty non-alphanumeric run at the end preceded by a letter, exactly when the trailing pattern matches it |
| Punctuation.PreservePunc | eng_to_ipa/transcribe.py:24-36 | one triple per whitespace token, in order, each holding the token's prefix, preprocessed core and suffix |
| Punctuation.PunctRoundTrip | eng_to_ipa/transcribe.py:24-36 | a lower-case token with an alphanumeric character, whose leading and trailing runs are `punct_str` characters that border a letter when non-empty, is one token and its triple glues back to it |
| Punctuation.ApplyPunct | eng_to_ipa/transcribe.py:39-49 | a triple glues to one string (or a one-element list); a list of triples glues element-wise, joined by spaces when `as_str`; an empty list is an IndexError |
| Punctuation.PunctReplaceWord | eng_to_ipa/transcribe.py:52-58 | every candidate of word `i` is replaced in place by the candidate wrapped in token `i`'s prefix and suffix; list lengths are kept |
| Punctuation.TokenTripleNoSpace | eng_to_ipa/transcribe.py:24-36 | the prefix, core and suffix of a whitespace token's triple hold no whitespace |
| Punctuation.WrapUnwrap | eng_to_ipa/transcribe.py:56-57 | a wrapped candidate is the prefix, then the candidate, then the suffix, and each can be cut back out |
| Resolver.RowsForMembers | eng_to_ipa/transcribe.py:61-69 | a pronunciation is grouped under a word exactly when the table has that row |
| Resolver.FetchWords | eng_to_ipa/transcribe.py:61-69 | the grouping has a key exactly for the queried words with a row, and each key maps to that word's pronunciations in table order |
| Resolver.GetCmu | eng_to_ipa/transcribe.py:72-94 | one candidate list per token, in token order, each the resolution of its token |
| Resolver.ResolveNonEmpty | eng_to_ipa/transcribe.py:72-94 | every token gets at least one candidate |
| Resolver.ResolveListed | eng_to_ipa/transcribe.py:76-79 | a token is found exactly when the table has a row for it, and then its candidates are all its pronunciations in table order |
| Resolver.ResolveApostrophe | eng_to_ipa/transcribe.py:82-89 | an unlisted token with one or more apostrophes is resolved through the part before the first apostrophe; the part between the first and the second apostrophe decides whether a possessive suffix is added |
| Resolver.PossessiveOfKnown | eng_to_ipa/transcribe.py:87-89 | an unlisted `base's` with `base` listed gives `base`'s pronunciations with " z" added to the first only |
| Resolver.TrailingApostrophe | eng_to_ipa/transcribe.py:87-89 | an unlisted `base'` with `base` listed gives exactly `base`'s pronunciations |
| Resolver.PossessiveOfUnknown | eng_to_ipa/transcribe.py:84-86 | an unlisted `base's` with `base` unlisted gives the single candidate `__IGNORE__base$` |
| Resolver.UnknownWord | eng_to_ipa/transcribe.py:90-91 | an unlisted token without an apostrophe gives the single candidate `__IGNORE__` + token |
| Resolver.ResolveMarkerSafe | eng_to_ipa/transcribe.py:72-94 | over a table whose pronunciations hold no underscore, every candidate of a space-free token either has no underscore or starts with `__IGNORE__` and holds no space |
| Mapper.SymbolsHaveNoDigits | eng_to_ipa/transcribe.py:99-102 | no IPA symbol of the table holds a digit |
| Mapper.TranslatePieces | eng_to_ipa/transcribe.py:123-137 | the IPA of each space-separated piece is appended in turn; `mark` becomes truthy after a piece with a stress glyph; an empty piece is an IndexError |
| Mapper.PiecesIpaEmptyPiece | eng_to_ipa/transcribe.py:126 | an empty piece makes the candidate fail with IndexError |
| Mapper.ApplySwaps | eng_to_ipa/transcribe.py:138-141 | the two swaps are applied in order, each only when the form does not start with its pattern |
| Mapper.SwapEffect | eng_to_ipa/transcribe.py:138-141 | a swap keeps the multiset of characters and, unless the form starts with the pattern, leaves no occurrence of it |
| Mapper.SwapsPermute | eng_to_ipa/transcribe.py:138-141 | the swaps only move characters |
| Mapper.NoGlyphNoSwap | eng_to_ipa/transcribe.py:138-141 | a form without the primary stress glyph is left alone by the swaps |
| Mapper.CandidateForm | eng_to_ipa/transcribe.py:106-141 | one candidate: the stress step, then unmarking or the piece translation, then the swaps; the new `mark` is returned |
| Mapper.NoMarksDropsDigits | eng_to_ipa/transcribe.py:109-141 | without stress marks a form holds no digit unless the candidate was all digits once the marker is removed |
| Mapper.UnresolvedCandidate | eng_to_ipa/transcribe.py:109-121 | for a lowercased token without the primary stress glyph, its `__IGNORE__` candidate loses the marker and its digits, unless only digits are left, and gains "*" while `mark` is truthy, unless it is only digits |
| Mapper.WordForms | eng_to_ipa/transcribe.py:105-142 | one word's forms in candidate order, with `mark` carried from candidate to candidate |
| Mapper.CmuToIpa | eng_to_ipa/transcribe.py:97-144 | `sorted(set(forms))` per word, with `mark` carried across words; the first failure is the result |
| Mapper.CmuIpaShape | eng_to_ipa/transcribe.py:143 | one list per word, each strictly ascending, and empty only for a word without candidates |
| Mapper.PiecesIpaSpaceFree | eng_to_ipa/transcribe.py:123-137 | pieces without a space translate to IPA without a space |
| Mapper.PrepareMarkerSafe | eng_to_ipa/transcribe.py:107-113 | without stress marks, dropping the digits of a marker-safe candidate leaves no space in a candidate that starts with `__IGNORE__` |
| Mapper.CandidateSpaceFree | eng_to_ipa/transcribe.py:106-141 | when the candidate after the stress step holds no space if it starts with `__IGNORE__`, its IPA form holds no space |
| Mapper.CmuIpaSpaceFree | eng_to_ipa/transcribe.py:97-144 | when every candidate is such a candidate, no form of `cmu_to_ipa` holds a space |
| Selection.TopIsGreatest | eng_to_ipa/transcribe.py:147-149 | on strictly ascending, space-free lists, as `cmu_to_ipa` produces them (not the wrapped lists of the default `keep_punct=True` path, which need not be sorted), `get_top` picks the greatest form of every word, and splitting it on spaces gives one word per list |
| Selection.GetTop | eng_to_ipa/transcribe.py:147-149 | `get_top` fails, with IndexError, exactly when some word has no candidate |
| Selection.TopWords | eng_to_ipa/transcribe.py:147-149 | when no candidate holds a space, splitting `get_top`'s result on spaces gives the last candidate of every list, one word per list |
| Selection.FinalSize | eng_to_ipa/transcribe.py:154-156 | `final_size` is the product of the list lengths |
| Selection.CounterStep | eng_to_ipa/transcribe.py:164-168 | after row `j`, the counter `k` of word `i` is `((j+1) / switch_rate) mod len` |
| Selection.AppendColumn | eng_to_ipa/transcribe.py:163-169 | the inner loop appends to every row its pick for word `i` and a space |
| Selection.GetAll | eng_to_ipa/transcribe.py:152-170 | the sorted rows 1 to N with their trailing space dropped; a word without candidates is a ZeroDivisionError |
| Selection.RowWraps | eng_to_ipa/transcribe.py:164-169 | row N equals row 0, because every counter has wrapped around |
| Selection.InAllRows | eng_to_ipa/transcribe.py:170 | the result is sorted, has exactly N = product of the lengths rows, and holds exactly the built rows |
| Selection.AllRowsComplete | eng_to_ipa/transcribe.py:152-170 | every choice of one candidate per word, joined by single spaces, is a row of `get_all` |
| Selection.AllRowsSound | eng_to_ipa/transcribe.py:152-170 | every row of `get_all` is such a choice |
| Selection.RowsDistinct | eng_to_ipa/transcribe.py:152-170 | when the candidates of each word are pairwise distinct and hold no space (as `_punct_replace_word` keeps them), no two rows are equal, so each choice appears once |
| Radix.DigitsOfEncode | eng_to_ipa/transcribe.py:165-169 | the candidate indices of the row numbered by a choice are that choice |
| Radix.EncodeOfDigits | eng_to_ipa/transcribe.py:165-169 | every row number below N is the number of the valid choice its indices form |
| Radix.EncodeBound | eng_to_ipa/transcribe.py:154-156 | the number of a valid choice is below the product of the lengths |
| Viseme.ScanWord | eng_to_ipa/transcribe.py:207-224 | the while loop over one word gives the left-to-right scan: spaces and apostrophes copied, a listed diphthong looked up as one symbol, anything else per character, a missing key a KeyError |
| Viseme.GetViseme | eng_to_ipa/transcribe.py:196-230 | the words split on single spaces, each scanned or, with `*`, capitalised, joined by single spaces; any missing key is a KeyError |
| Viseme.VisemeWordsKept | eng_to_ipa/transcribe.py:203-230 | when no viseme holds a space, the output has one word per input word, each the form of the word in the same place, and a `*` word becomes its capitalised form |
| Viseme.NoDiphthongs | eng_to_ipa/transcribe.py:209-223 | with no diphthong listed, the scan is a character-by-character lookup |
| Viseme.DiphthongIsOneSymbol | eng_to_ipa/transcribe.py:214-217 | a listed diphthong is looked up as one symbol, not as its two characters |
| Viseme.ApostrophesCopied | eng_to_ipa/transcribe.py:211-212 | spaces and apostrophes pass through whatever the language |
| Viseme.UnknownLanguage | eng_to_ipa/transcribe.py:213-221 | an unknown language is a KeyError as soon as a symbol must be looked up |
| Viseme.UnresolvedForm | eng_to_ipa/transcribe.py:225-229 | `t*` is shown as `T` and `t$*` as `Tz` |
| Pipeline.FirstTriples | eng_to_ipa/transcribe.py:175-178 | `preserve_punc(w.lower())[0]` for every item; a blank item is an IndexError |
| Pipeline.StringInputTriples | eng_to_ipa/transcribe.py:175-176 | a string input never raises that IndexError, and each triple is that of the lowercased token |
| Pipeline.BlankItemFails | eng_to_ipa/transcribe.py:177-178 | a blank element of a list input makes `ipa_list` fail with IndexError |
| Pipeline.IpaList | eng_to_ipa/transcribe.py:173-183 | `get_cmu` on the cores, `cmu_to_ipa` with `mark` truthy, and with `keep_punct` every candidate wrapped in its token's punctuation |
| Pipeline.TriplesNoSpace | eng_to_ipa/transcribe.py:175-178 | the prefix, core and suffix of every triple `ipa_list` builds hold no whitespace |
| Pipeline.IpaShape | eng_to_ipa/transcribe.py:173-183 | one non-empty list per item; strictly ascending without `keep_punct`, and each candidate starting with the token's prefix and ending with its suffix with it |
| Pipeline.IpaSpaceFree | eng_to_ipa/transcribe.py:173-183 | no candidate of `ipa_list` holds a space, with or without punctuation. This holds over a table whose pronunciations hold no underscore. With stress marks it also needs `find_stress` to leave no space in its result when that result starts with `__IGNORE__`. This is required only for marker-safe candidates: those with no underscore, or that start with `__IGNORE__` and hold no space. Every candidate `get_cmu` builds is marker-safe |
| Pipeline.PassThroughIsSafe | eng_to_ipa/transcribe.py:107-108 | a `find_stress` that returns its candidate unchanged meets that condition |
| Pipeline.TopExists | eng_to_ipa/transcribe.py:243-257 | after a successful `ipa_list`, `get_top` cannot fail |
| Pipeline.IsinCmu | eng_to_ipa/transcribe.py:186-193 | true exactly when every queried word has a row in the table |
| Pipeline.Convert | eng_to_ipa/transcribe.py:241-276 | the top transcription without stress glyphs, then visemes, or each `*` word capitalised |
| Pipeline.CleanupWords | eng_to_ipa/transcribe.py:265-275 | the loop of `convert` keeps words without `*` and capitalises the others, in order |
| Pipeline.CleanupWordwise | eng_to_ipa/transcribe.py:265-276 | the output has as many words as the top transcription, each the cleanup of the word in the same place |
| Pipeline.UnstressedHasNoGlyph | eng_to_ipa/transcribe.py:258 | after the two replaces, no stress glyph is left |
| Pipeline.ConvertHasNoGlyph | eng_to_ipa/transcribe.py:265-276 | cleaning up a transcription without stress glyphs leaves none |
| Pipeline.UnstressedJoin | eng_to_ipa/transcribe.py:258 | removing the stress glyphs from a space-joined text removes them word by word and keeps the spaces |
| Pipeline.UnstressedTop | eng_to_ipa/transcribe.py:257-258 | with space-free candidates, the words of the stress-free top transcription are the last candidates with their glyphs removed |
| Pipeline.CleanupTop | eng_to_ipa/transcribe.py:257-276 | with space-free candidates, the cleanup gives one word per list, each the cleaned-up top candidate, and no stress glyph |
| Pipeline.ConvertSteps | eng_to_ipa/transcribe.py:241-276 | a successful `convert` is `ipa_list`, then `get_top`, then the glyph removal, then visemes or the cleanup |
| Pipeline.ConvertOutputHasNoGlyph | eng_to_ipa/transcribe.py:257-276 | without visemes, a successful `convert` leaves no stress glyph, for every input |
| Pipeline.ConvertKeepsWords | eng_to_ipa/transcribe.py:241-276 | without visemes and with space-free forms, `convert` gives as many words as items. Word `i` is item `i`'s top candidate with its glyphs removed and cleaned up, and no stress glyph is left |
| Pipeline.ConvertVisemesKeepWords | eng_to_ipa/transcribe.py:241-263 | with visemes, space-free forms and space-free visemes, `convert` gives as many words as items. Word `i` is the viseme form of item `i`'s stress-free top candidate |

## Left out

- The SQLite connection and query are not part of this model. The dictionary is the sequence of its rows, and `WHERE word IN (...)` is a filter over them.
- The JSON load of `VISEMES` and its `global` use are not part of this model. The table is a parameter.
- `stress.find_stress` is not part of this model. It is a function parameter. Only the word-count lemmas constrain it (`Pipeline.IpaSpaceFree`, `Pipeline.ConvertKeepsWords`, `Pipeline.ConvertVisemesKeepWords`): a result that starts with `__IGNORE__` may hold no space when the candidate is marker-safe. No other property depends on what it returns.
- `get_all_viseme` always fails, because it calls `get_viseme` with one argument. The `retrieve_all` branch of `convert` assigns into the characters of a string, and `no_stress=False` leaves `ans` as `None`. These broken paths are not modelled, so `Pipeline.Convert` covers `retrieve_all=False`, `no_stress=True` only.
- The `print` in `convert` is I/O and is left out.
- The bare `except` in `get_cmu` also swallows any error of the recursive dictionary query for the part before the apostrophe. Such an error then gives `["__IGNORE__" + word]`. Database errors are out of scope like the rest of the database. The IndexError it would catch from `to_order[0][0]` cannot arise (`Resolver.ResolveNonEmpty`). `Resolver.Attach` keeps that path anyway.
- Selection.GetAll: the float division and `int()` of `switch_rate` are exact natural-number division here. They are exact for any realistic list sizes.
- Python's Unicode `lower()`, `upper()`, `str.split()` whitespace and the regex classes are modelled on ASCII. Only ASCII letters change case, and whitespace is the six ASCII space characters (space, tab, line feed, carriage return, vertical tab, form feed). The separators `\x1c`–`\x1f` and the non-ASCII spaces that Python's `str.split()` also splits on are not treated as whitespace.
- Punctuation.ApplyPunct: a list of triples is overwritten in place in the source. The model returns the glued list instead, so the aliasing of the caller's list is not captured.
- Pipeline.IpaList: `_punct_replace_word` runs on a fresh array holding the `cmu_to_ipa` lists. The source's `ipa` list of lists is the only owner of those lists, so there is no aliasing to capture.
- Python's dynamic type tests on `words_in` and on `triple[0]` are modelled as datatypes. `WordsIn` is either a string or a list of strings, and `PunctArg` is either one triple or a list of triples.
