/**
 * `build_puzzle`: the runtime structures of one puzzle, built from its title and
 * its introduction text.
 */
module Puzzle {
  import opened Normalization
  import opened Tokenizer
  import opened Lemmatizer
  import opened Indexing

  /** `(tokens, word_index, lemma_index, title_normalized, title_tokens)` */
  datatype PuzzleData = PuzzleData(
    tokens: seq<Token>,
    wordIndex: PositionIndex,
    lemmaIndex: PositionIndex,
    titleNormalized: string,
    titleTokens: seq<Token>)

  /** `build_puzzle({title, intro_text})` */
  function BuildPuzzle(ext: ExternalLemmatizer, title: string, introText: string): (p: PuzzleData)
    ensures Concat(p.tokens) == introText && WellFormed(p.tokens)
    ensures Concat(p.titleTokens) == title && WellFormed(p.titleTokens)
    ensures Groups(p.wordIndex, ExactKeys(p.tokens), |p.tokens|)
    ensures Groups(p.lemmaIndex, LemmaKeys(ext, p.tokens), |p.tokens|)
    ensures p.titleNormalized == Normalize(title)
  {
    var tokens := Tokenization(introText);
    var titleTokens := Tokenization(title);
    TokenizationLossless(introText);
    TokenizationWellFormed(introText);
    TokenizationLossless(title);
    TokenizationWellFormed(title);
    ExactIndexGroups(tokens);
    LemmaIndexGroups(ext, tokens);
    PuzzleData(tokens, ExactIndex(tokens), LemmaIndex(ext, tokens), Normalize(title), titleTokens)
  }
}
