# Pedantix clone: the guess-resolution engine in Dafny

This project models the core of a Pedantix-style French word-masking game. The
service takes the introduction of a Wikipedia article and cuts it into word and
separator tokens. It shows every word masked, and it reveals words when the player
guesses them. A guess reveals every word that shares its lemma, and gives similarity
hints for the other words. Separately, a cron script picks the article of the day
from a fixed list.

The model covers these parts, one Dafny module per concern:

- `Normalization` (`normalize.dfy`): character classes, `str.lower`, `str.strip`
  and `normalize`, which lower-cases, applies NFKD and drops combining marks. The
  model lower-cases the decomposition once more; "## Findings" says why.
- `Tokenizer` (`tokenize.dfy`): `tokenize`, an imperative method that walks the
  matches of the word pattern `[\w][\w'\-]*`. It is proved equal to a recursive
  reference split, and the split is proved lossless, well formed and unique.
- `Lemmatizer` (`lemmatize.dfy`): the pre-processing in `lemmatize_word`. The
  elision prefix is stripped first, then the contraction table is consulted, and
  only then is the external lemmatizer called.
- `Dicts` (`dicts.dfy`): an insertion-ordered Python dict, given as a key list
  plus a map. It provides `get`, `setdefault(k, []).append(v)` and item assignment.
- `Indexing` (`index.dfy`): `build_index` and `build_lemma_index`, both loops over
  a dict. Each is proved equal to a grouping function, and the grouping invariant
  is proved about it.
- `Puzzle` (`puzzle.dfy`): `build_puzzle`.
- `Similarity` (`similarity.dfy`): `_vec`, `precompute` and `score_positions`.
  The last one is a nested loop with a running maximum, proved equal to a
  specification function.
- `Game` (`game.dfy`): the session that `lifespan` builds once, `get_puzzle`,
  `post_guess` and `post_guess_title`, plus the response-schema finding.
- `DailyCron` (`daily.dfy`): `_pick_article`.
- `Wrappers` (`wrappers.dfy`): `Option` and `Result`.

Everything the service consults but does not define is a parameter:

- The lemmatizer is one function `string -> string`, standing for spaCy with a
  simplemma fall-back.
- The word-vector model is a record: a loaded flag, a lookup and a norm.
- The dictionary check is a predicate.

The session is an immutable datatype. Every request is a function, or a method, of it.

Positions are token indexes, and they count separator tokens too. In `Une locomotive à vapeur.` the word `locomotive` is at position 2.

## Model

| member | source | states |
|---|---|---|
| Normalization.Lower | backend/app/puzzle.py:35 | `str.lower` keeps the length and maps every character through the lower-case table, which covers ASCII, Latin-1 and Latin Extended-A |
| Normalization.Strip | backend/app/main.py:158 | `strip` never lengthens its input, and a non-empty result starts and ends with a non-whitespace character |
| Normalization.Normalize | backend/app/puzzle.py:33-36 | a string that starts with a `\w` character has a non-empty normal form, so every word run gets an index key |
| Normalization.StripDropsOnlyOuterSpace | backend/app/main.py:158 | `strip` returns a slice of its input; only whitespace is dropped, and the result has none at either end |
| Normalization.StripPadded | backend/app/main.py:158 | whitespace added before or after a string does not change what `strip` returns |
| Normalization.NormalizeLowersAndUnmarks | backend/app/puzzle.py:33-36 | every character of `normalize(s)` is lower-case and is not a combining mark; this holds for the corrected `normalize` of "## Findings" |
| Normalization.NormalizeGivesKeyChars | backend/app/puzzle.py:33-36 | every character of `normalize(s)` is one that `normalize` maps to itself (corrected `normalize`, see "## Findings") |
| Normalization.NormalizeIdempotent | backend/app/puzzle.py:33-36 | `normalize(normalize(s)) == normalize(s)` for the corrected `normalize`, which lower-cases what NFKD yields; the code as written is not idempotent (see "## Findings") |
| Normalization.NormalizeKeyString | backend/app/puzzle.py:33-36 | a string made only of characters that `normalize` leaves alone is its own normal form |
| Normalization.NormalizeAppend | backend/app/puzzle.py:35-36 | `normalize` works character by character, so it distributes over concatenation |
| Normalization.NormalizeCons | backend/app/puzzle.py:35-36 | the normal form of `c + s` is the normal form of `c` followed by that of `s` |
| Normalization.NormalizeCharGivesKeyChars | backend/app/puzzle.py:35-36 | the lower-cased decomposition of any one character, marks dropped, consists of characters `normalize` leaves alone |
| Normalization.LowerCharIdempotent | backend/app/puzzle.py:35 | lower-casing twice is lower-casing once |
| Normalization.NormalizeLiberte | backend/tests/test_puzzle.py:19 | `normalize("LIBERTÉ") == "liberte"` |
| Normalization.NormalizeEte | backend/tests/test_puzzle.py:22 | `normalize("été") == "ete"` |
| Normalization.NormalizeLatinExtendedA | backend/app/puzzle.py:33-36 | accents on Latin Extended-A letters are dropped too: `Ā`, `Č`, `Ř` and `ř` lose theirs, and `Ł`, which has no decomposition, is only lower-cased |
| Normalization.DecomposeLoweredIsLower | backend/app/puzzle.py:35 | for a lower-case character, the corrected table is NFKD followed by `str.lower`: it differs from plain NFKD only on `™` and `℃`, whose decompositions hold capitals |
| Normalization.NormalizeAsWrittenNotIdempotent | backend/app/puzzle.py:33-36 | as written, `normalize("™") == "TM"` but `normalize("TM") == "tm"`: the function is not idempotent |
| Normalization.NormalizeAsWrittenAgrees | backend/app/puzzle.py:33-36 | on every string without `™` or `℃`, the code as written and the corrected `normalize` give the same key |
| Tokenizer.Tokenize | backend/app/puzzle.py:71-83 | the cursor loop returns the reference split, its values concatenate back to the text, and it is well formed |
| Tokenizer.SkipSeparator | backend/app/puzzle.py:74-75 | the search for the next match stops at the first word character at or after the cursor |
| Tokenizer.WordEnd | backend/app/puzzle.py:19 | a match extends over word characters, apostrophes and hyphens, and stops before the first other character |
| Tokenizer.NextWordStart | backend/app/puzzle.py:19 | the next match starts at the first `\w` character at or after the cursor |
| Tokenizer.TokenizationLossless | backend/app/puzzle.py:71-83 | concatenating the token values gives back the text exactly, and the empty text has no tokens |
| Tokenizer.TokenizationWellFormed | backend/app/puzzle.py:74-82 | shape rules hold: separators are non-empty and hold no word character; word tokens are word runs carrying `normalize(value)`; kinds alternate; a word token is never followed by a character that could extend it |
| Tokenizer.TokenizationUnique | backend/app/puzzle.py:71-83 | any well-formed token stream that spells the text is exactly what `tokenize` returns |
| Tokenizer.SingleWordRun | backend/app/puzzle.py:19 | a text that is one word run becomes exactly one word token |
| Tokenizer.HyphenatedCompound | backend/tests/test_puzzle.py:51-55 | `chemin-de-fer` is a single word token |
| Tokenizer.OnlySeparators | backend/tests/test_puzzle.py:61-63 | a text without word characters becomes at most one separator token, and nothing when empty |
| Lemmatizer.ElisionPrefixLength | backend/app/puzzle.py:22 | the elision prefix is 2 or 3 characters long: `l d j m t s n c` or `qu`, in any case, then an apostrophe; and every such prefix is found (length 0 exactly when there is none) |
| Lemmatizer.ElidedRest | backend/app/puzzle.py:22 | `(.+)$` captures only a non-empty text without line breaks, at the end or before one final newline; and it accepts every such rest, with or without that final newline |
| Lemmatizer.StripElision | backend/app/puzzle.py:53-56 | a word without an elision prefix is unchanged; a changed word is exactly its prefix followed by the non-empty result (and possibly a final newline); a prefix followed by a one-line rest is always stripped |
| Lemmatizer.LemmatizeWord | backend/app/puzzle.py:39-68 | a contraction gets its table entry; a plain word outside the table goes straight to the external lemmatizer; every result is `de`, `a` or the external lemma of the stripped word |
| Lemmatizer.ElisionStripped | backend/app/puzzle.py:53-56 | `p'rest` is lemmatized as `rest` would be, for every elision prefix `p` |
| Lemmatizer.ContractionsBypassExternal | backend/app/puzzle.py:58-60 | a word in the contraction table gets its table entry (`de` or `a`), whatever the external lemmatizer would say |
| Lemmatizer.OthersGoToExternal | backend/app/puzzle.py:62-68 | any other word goes to the external lemmatizer once its elision is stripped |
| Lemmatizer.ContractionExamples | backend/tests/test_puzzle.py:148-163 | `des` and `du` give `de`; `au` and `aux` give `a` |
| Lemmatizer.ElisionExampleDe | backend/tests/test_puzzle.py:142-146 | `d'eau` is lemmatized as `eau` |
| Lemmatizer.ElisionExampleLe | backend/tests/test_puzzle.py:136-140 | `l'industrie` is lemmatized as `industrie` |
| Lemmatizer.ElisionExampleQue | backend/app/puzzle.py:22 | `qu'il` is lemmatized as `il` |
| Lemmatizer.BarePrefixKept | backend/app/puzzle.py:22 | a prefix with nothing after it (`l'`) is not stripped |
| Dicts.Get | backend/app/main.py:169 | `d.get(k, default)` returns the stored value for a present key, and the default otherwise |
| Dicts.Put | backend/app/similarity.py:51 | item assignment stores the value and appends a new key at the end of the key order |
| Dicts.SetDefaultAppend | backend/app/puzzle.py:91 | `setdefault(k, []).append(v)` appends `v` under `k`, adds `k` last when it is new, and leaves every other key alone |
| Indexing.BuildIndex | backend/app/puzzle.py:86-92 | the loop returns the grouping of the positions by their exact key |
| Indexing.BuildLemmaIndex | backend/app/puzzle.py:95-109 | the loop returns the grouping of the positions by `normalize(lemmatize_word(value.lower()))` |
| Indexing.GroupsStep | backend/app/puzzle.py:89-91 | appending one position under its key keeps the grouping invariant: keys, stored positions, ascending order and first-occurrence key order |
| Indexing.GroupedPrefixGroups | backend/app/puzzle.py:89-91 | grouping positions one after another establishes the grouping invariant |
| Indexing.ExactIndexGroups | backend/app/puzzle.py:86-92 | `build_index` groups every position under its exact key, in ascending order |
| Indexing.LemmaIndexGroups | backend/app/puzzle.py:95-109 | `build_lemma_index` groups every position under its lemma key, in ascending order |
| Indexing.ExactIndexWords | backend/app/puzzle.py:86-92 | on a token stream, the keys are exactly the normal forms of the words, so no separator text is a key; every stored position is a word carrying the key; every word is stored; positions ascend |
| Indexing.LemmaIndexWords | backend/app/puzzle.py:102-108 | a position is stored under a lemma key iff it is a non-empty word whose normalized lemma is that key |
| Indexing.LemmaIndexCoversWords | backend/app/puzzle.py:102-108 | every non-empty word's lemma key is in the lemma index |
| Indexing.ExactIndexKeysNonEmpty | backend/app/puzzle.py:90 | no key of the exact index is the empty string |
| Indexing.GroupsMember | backend/app/puzzle.py:89-91 | under a grouping, the positions under `k` are exactly the positions whose key is `k` |
| Indexing.GroupsNonEmpty | backend/app/puzzle.py:91 | every key of a grouping has at least one position |
| Puzzle.BuildPuzzle | backend/app/puzzle.py:115-127 | both token streams are lossless and well formed; both indexes group the body positions; `title_normalized == normalize(title)` |
| Similarity.Dot | backend/app/similarity.py:69 | the dot product exists iff the two vectors have the same length |
| Similarity.Round3 | backend/app/similarity.py:73 | `round(x, 3)` is a multiple of 0.001 within 0.0005 of `x` |
| Similarity.Vec | backend/app/similarity.py:33-40 | a vector exists iff the model is loaded and the word has a vector of non-zero norm; it is that vector divided by its norm |
| Similarity.Precompute | backend/app/similarity.py:43-52 | the loop returns the embedding of every vocabulary word that has a vector, in vocabulary order |
| Similarity.EmbeddedEntries | backend/app/similarity.py:43-52 | the keys are exactly the vocabulary words with a vector, each mapped to its unit vector; the result is empty when no model is loaded or the vocabulary is empty |
| Similarity.EmbeddedOrder | backend/app/similarity.py:48-51 | over a vocabulary without repeats, the keys are the words with a vector, in vocabulary order |
| Similarity.KeptAppend | backend/app/similarity.py:48-51 | filtering words by "has a vector" distributes over concatenation |
| Similarity.ScorePositions | backend/app/similarity.py:55-77 | the nested loops with the running best return the scoring function's answer, including `([], None)` in every degraded case |
| Similarity.ScoresDegraded | backend/app/similarity.py:60-77 | no model, no embeddings, an empty guess, a guess without a vector, or an embedding whose dimension differs from the guess vector's give `([], None)` |
| Similarity.ScoredPrefixFailed | backend/app/similarity.py:69-77 | once a dot product raises, the whole scoring fails, and the answer is `([], None)` |
| Similarity.ScoredPrefixSucceeds | backend/app/similarity.py:68-73 | scoring a prefix of the embeddings succeeds iff none of its dot products raises |
| Similarity.ScoredPrefixBest | backend/app/similarity.py:67-71 | the running best is at least -1.0 and at least every score so far, and equals -1.0 or one of them |
| Similarity.ScoredPrefixEntries | backend/app/similarity.py:68-73 | which entries occur: exactly the `{pos, round(score)}` pairs of a position of an embedded word with that word's score |
| Similarity.ScoredPrefixLength | backend/app/similarity.py:68-73 | there is one entry per indexed position of each word scored, so the list's length is the sum of the words' position counts |
| Similarity.ScoredPrefixAt | backend/app/similarity.py:68-73 | the `j`-th position of the `i`-th vocabulary word is entry number `PositionCount(i) + j`: entries come word by word in vocabulary order, and in body order within a word |
| Similarity.ScoresComplete | backend/app/similarity.py:66-74 | when every dimension agrees: entries are exactly what the words emit; best is present iff some score is non-negative, and it is then the largest score and is attained |
| Game.SessionOf | backend/app/main.py:85-96 | the session built from a title and an introduction has a valid embedding dict |
| Game.Lifespan | backend/app/main.py:85-96 | the assignments build the session; it is consistent: well-formed streams, grouping indexes, `title_normalized`, puzzle id `wiki-` + `normalize(title)`, embeddings only for exact-index keys |
| Game.GetPuzzle | backend/app/main.py:126-153 | one masked entry per token in each stream (word: its length; separator: its text), `total_words` counts the word tokens, and the other fields come from the session and config |
| Game.MaskedStream | backend/app/main.py:131-136 | a masked stream stands for exactly as many characters as the tokens hold, and has one word entry per word token |
| Game.PuzzleViewShape | backend/app/main.py:126-153 | the body stream spans the whole introduction, the title stream the whole title, and `total_words` equals the number of word entries |
| Game.Rejected | backend/app/main.py:159-163 | a rejected guess carries only its status and empty positions |
| Game.RevealMap | backend/app/main.py:185 | `{str(pos): tokens[pos].value for pos in positions}` has exactly those positions, each mapped to its token text |
| Game.Labelled | backend/app/main.py:187-201 | the kept hints are exactly the entries with `score >= MIN_LABEL_SCORE` whose position is not excluded |
| Game.LabelledAppend | backend/app/main.py:201 | the hint filter keeps the scoring order: it distributes over concatenation |
| Game.TitleReveal | backend/app/main.py:169-174 | the title reveal is None iff the title lemma index has no position under the key |
| Game.ConsistentIndexable | backend/app/main.py:85-96 | every session `lifespan` builds meets the requirement of `post_guess` that each stored position names a token |
| Game.PostGuess | backend/app/main.py:156-208 | status `invalid` iff the stripped guess is too short; `unknown` iff it is long enough but not in the dictionary; rejected guesses carry nothing; only a hit has positions and revealed texts |
| Game.PostGuessHit | backend/app/main.py:182-199 | a hit happens iff the lemma key is in the lemma index; positions are exactly that key's positions; revealed texts are exactly the body words sharing the key, with their text |
| Game.RevealedWords | backend/app/main.py:182-185 | revealing a lemma key's positions reveals exactly the non-empty words with that lemma key, all in range |
| Game.PostGuessHitHints | backend/app/main.py:187-198 | on a hit, the hints are the scored list filtered by `Labelled`, in scoring order: exactly the entries at or above the threshold and not revealed; `word_scores` is None, not `[]`, when there are none |
| Game.PostGuessMiss | backend/app/main.py:201-208 | a miss has empty positions and similarity equal to the best score; its hints are the scored list filtered by `Labelled`, so they keep the scoring order and are exactly the entries at or above the threshold |
| Game.PostGuessTitleReveal | backend/app/main.py:169-207 | on hit and miss alike, the title reveal is None iff no title word has the key, and otherwise maps exactly those title words to their text |
| Game.GuessingAWordHits | backend/app/main.py:156-199 | guessing a word of the text exactly as written, if the dictionary knows it, is a hit that reveals that word's position |
| Game.WordRunStripped | backend/app/main.py:158 | a word token has no surrounding whitespace, so `strip` leaves it unchanged |
| Game.PostGuessTitle | backend/app/main.py:211-215 | solved iff `normalize(strip(guess)) == title_normalized`; the title is returned only when solved |
| Game.TitleSolvesItself | backend/app/main.py:211-215 | the title, padded with whitespace, solves the puzzle and returns the title |
| Game.TitleSolvedByNormalForm | backend/app/main.py:213-214 | the title's normal form also solves it (corrected `normalize`; as written, a title holding `™` is not solved by its own normal form, see "## Findings") |
| Game.TitleGuessIgnoresPadding | backend/app/main.py:213 | whitespace around a title guess never changes the answer |
| Game.Validate | backend/app/models.py:11 | a response passes schema validation, unchanged, iff its status is one of the declared literals |
| Game.DeclaredSchemaRefusesUnknown | backend/app/models.py:11 | as declared, the schema refuses the `unknown` response that `post_guess` builds for a well-formed word missing from the dictionary |
| Game.ResponseSchemaAdmitsAll | backend/app/main.py:160-208 | with `unknown` declared, every response passes unchanged; the declared schema refuses exactly the `unknown` ones |
| DailyCron.PickArticle | scripts/daily_cron.py:49-54 | empty list: the `ValueError` message; otherwise the article at `ordinal % len(ARTICLES)`, an in-range index |
| DailyCron.PickIsAnArticle | scripts/daily_cron.py:53-54 | the pick is always an element of the list |
| DailyCron.PickIsPeriodic | scripts/daily_cron.py:53 | ordinals `k * len(ARTICLES)` apart pick the same article |
| DailyCron.PickCycles | scripts/daily_cron.py:53 | the next day picks the next article, wrapping after the last |
| DailyCron.DivModUnique | scripts/daily_cron.py:53 | quotient and remainder are unique, which ties the periodicity proofs to `%` |
| DailyCron.ShippedRotation | scripts/daily_cron.py:26-38 | with the shipped list, even ordinals pick `Paris` and odd ones `Locomotive à vapeur` |

## Left out

- Fetching and parsing Wikipedia (`backend/app/wiki.py`), and the fetch, cache and fallback chain that loads the puzzle. The model takes the `{title, intro_text}` pair as given.
- `load_puzzle`, which reads `puzzle.json`: file I/O.
- FastAPI routing, the ngrok middleware, the static mount and the async wiring of `lifespan`. Only `lifespan`'s assignments are modelled.
- spaCy and simplemma are one uninterpreted `string -> string` function. Their internals and the "spaCy, else simplemma" choice are not modelled.
- The word-vector model (`nlp_cache`) is an oracle: a loaded flag, a lookup and a norm function. `load_model` and its `_available` flag are folded into the loaded flag; their exceptions and logging are not modelled.
- Floating point: vectors are `seq<real>`, the dot product is exact, and `round(x, 3)` rounds half to even on exact reals. Binary rounding is not modelled.
- The dictionary check (`backend/app/dictionary.py`) calls `similarity.is_in_vocab`, which is not part of this model, so it is a predicate supplied with the oracles.
- Environment parsing in `backend/app/config.py`. The configuration is a parameter, with the defaults (1, 0.40, true) as a constant.
- The cron script's argument parsing, fetching and file writes. `date.toordinal()` is a plain integer.
- Character tables: `\w`, lower-casing and NFKD are written out for U+0000 to U+017F (ASCII, Latin-1 and Latin Extended-A), plus the decompositions of `™` and `℃`; whitespace follows its Unicode list. Outside that range lower-casing and decomposition leave a character unchanged, and `\w` accepts nothing else, so other scripts are not covered. Other compatibility decompositions that yield capitals (`ᴬ` to `A`, `ϒ` to `Υ` and 625 more) are therefore not modelled.
- Normalization.IsCombiningMark: `unicodedata.combining(c) != 0` is modelled for the Combining Diacritical Marks blocks only (U+0300–U+036F, U+1AB0–U+1AFF, U+1DC0–U+1DFF, U+20D0–U+20FF, U+FE20–U+FE2F), where it excludes the code points of class 0 such as U+034F and the enclosing marks. The 675 marks of other scripts with a non-zero class (Hebrew points, Arabic vowel signs, Indic signs and others) are kept by the model's `normalize`, where Python drops them.
- Normalization.NormalizeIdempotent: stated for the corrected `normalize`. Normalization.NormalizeAsWrittenAgrees carries it over to the code as written only for strings without `™` or `℃`.
- Normalization.NormalizeLowersAndUnmarks: stated for the corrected `normalize`. As written, `normalize("™")` holds capitals.
- Normalization.NormalizeGivesKeyChars: stated for the corrected `normalize`, for the same reason.
- Normalization.NormalizeCharGivesKeyChars: stated for the corrected per-character table, for the same reason.
- Game.TitleSolvedByNormalForm: stated for the corrected `normalize`, for the same reason.
- Normalization.NormalizeAppend: lower-casing is per character. Python's `str.lower` maps a Greek capital sigma to final `ς` or to `σ` depending on the letters around it (`"ΑΣ".lower() == "ας"`), so for such text `normalize` does not distribute over concatenation. Greek is outside the tables in any case.
- Normalization.Lower: `İ` (U+0130) lower-cases to the single character `i`, where Python gives `i` followed by a combining dot above. `normalize` drops that mark, so every key is the same; only the text handed to the external lemmatizer differs.
- JSON response keys `str(pos)` are natural numbers in the model.
- Similarity.Vec: requires a non-empty word. In Python, `nlp("")[0]` raises on an empty document. `score_positions` catches that and answers `([], None)`, which `Scores` models. `precompute` only ever sees non-empty exact-index keys.
- Similarity.ScoresComplete: stated only when every embedding has the guess vector's dimension. Otherwise `ScoredPrefixFailed` and `ScoredPrefixSucceeds` give the `([], None)` answer.
- Game.PostGuess: with `minGuessLength` set to 0 or below, a blank guess passes the length check. If the dictionary accepts it, Python hands `""` to spaCy, where `nlp("")[0]` raises and the request fails. The model instead passes `""` to the external lemmatizer and answers. With the default of 1, a blank guess is `invalid`.

## Findings

| source | as written | input that shows it | evidently intended | confidence | as-written member | corrected member |
|---|---|---|---|---|---|---|
| backend/app/puzzle.py:33-36 | `normalize` lower-cases before NFKD and never after, so a compatibility decomposition that yields capitals keeps them | `normalize("™")` is `TM`, and `normalize("TM")` is `tm`; a title holding `™` is not solved by typing its own normal form | the key is lower-case and `normalize` is idempotent: lower-case after decomposing as well | not executed | Normalization.NormalizeAsWrittenNotIdempotent | Normalization.NormalizeIdempotent |
| backend/app/models.py:11 | the response schema declares `status` as one of `hit`, `miss`, `invalid`, but `post_guess` returns `unknown` for words the dictionary rejects (backend/app/main.py:162-163) | a guess such as `xqzv` that passes the length check but that the dictionary does not know: the `unknown` response fails validation instead of reaching the client | `unknown` is a declared status, so every response `post_guess` builds validates unchanged | not executed | Game.DeclaredSchemaRefusesUnknown | Game.ResponseSchemaAdmitsAll |
