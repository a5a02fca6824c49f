/**
 * The game service: the session `lifespan` loads once, and the three requests
 * answered from it — the masked puzzle, a word guess and a title guess.
 */
module Game {
  import opened Wrappers
  import opened Dicts
  import opened Normalization
  import opened Tokenizer
  import opened Lemmatizer
  import opened Indexing
  import opened Similarity
  import opened Puzzle

  /** Runtime configuration: `MIN_GUESS_LENGTH`, `MIN_LABEL_SCORE`, `ADMIN_MODE`. */
  datatype Config = Config(minGuessLength: int, minLabelScore: real, adminMode: bool)

  /** The configuration when the environment sets nothing. */
  const DefaultConfig := Config(1, 0.40, true)

  /** What the service consults but does not define: the lemmatizer, the word vectors, the dictionary. */
  datatype Oracles = Oracles(lemmatizer: ExternalLemmatizer, embedder: Embedder, isKnown: string -> bool)

  /** The module-level puzzle state. */
  datatype Session = Session(
    tokens: seq<Token>,
    titleTokens: seq<Token>,
    wordIndex: PositionIndex,
    lemmaIndex: PositionIndex,
    titleLemmaIndex: PositionIndex,
    vocabEmbeddings: Dict<Vector>,
    titleNormalized: string,
    title: string,
    puzzleId: string)

  // ---------------------------------------------------------------- lifespan

  /** The session built from a puzzle's title and introduction. */
  function SessionOf(o: Oracles, title: string, introText: string): (s: Session)
    ensures s.vocabEmbeddings.Valid()
  {
    var p := BuildPuzzle(o.lemmatizer, title, introText);
    ExactIndexKeysNonEmpty(p.tokens);
    Session(p.tokens, p.titleTokens, p.wordIndex, p.lemmaIndex, LemmaIndex(o.lemmatizer, p.titleTokens),
            Embedded(o.embedder, p.wordIndex.keys), p.titleNormalized, title, "wiki-" + Normalize(title))
  }

  /** What every request may rely on. */
  ghost predicate Consistent(s: Session, ext: ExternalLemmatizer) {
    && WellFormed(s.tokens) && WellFormed(s.titleTokens)
    && Concat(s.titleTokens) == s.title
    && Groups(s.wordIndex, ExactKeys(s.tokens), |s.tokens|)
    && Groups(s.lemmaIndex, LemmaKeys(ext, s.tokens), |s.tokens|)
    && Groups(s.titleLemmaIndex, LemmaKeys(ext, s.titleTokens), |s.titleTokens|)
    && s.titleNormalized == Normalize(s.title)
    && s.puzzleId == "wiki-" + s.titleNormalized
    && s.vocabEmbeddings.Valid()
    && (forall w :: w in s.vocabEmbeddings.entries ==> w in s.wordIndex.entries)
  }

  /**
   * The `lifespan` assignments: build the puzzle, the title's lemma index, the
   * puzzle id and the embeddings of the exact index's words, in index order.
   */
  method Lifespan(o: Oracles, title: string, introText: string) returns (s: Session)
    ensures s == SessionOf(o, title, introText)
    ensures Consistent(s, o.lemmatizer)
  {
    var p := BuildPuzzle(o.lemmatizer, title, introText);
    var titleLemmaIndex := BuildLemmaIndex(o.lemmatizer, p.titleTokens);
    var puzzleId := "wiki-" + Normalize(title);
    ExactIndexKeysNonEmpty(p.tokens);
    var embeddings := Precompute(o.embedder, p.wordIndex.keys);
    s := Session(p.tokens, p.titleTokens, p.wordIndex, p.lemmaIndex, titleLemmaIndex,
                 embeddings, p.titleNormalized, title, puzzleId);
    LemmaIndexGroups(o.lemmatizer, p.titleTokens);
    EmbeddedEntries(o.embedder, p.wordIndex.keys);
  }

  // ---------------------------------------------------------------- get_puzzle

  /** One entry of a masked stream: a word shows only its length, a separator its text. */
  datatype StreamEntry = WordEntry(len: nat) | SepEntry(text: string)

  datatype PuzzleView = PuzzleView(
    puzzleId: string,
    language: string,
    titleStream: seq<StreamEntry>,
    bodyStream: seq<StreamEntry>,
    totalWords: nat,
    adminMode: bool)

  function Mask(t: Token): StreamEntry {
    if t.kind == WordKind then WordEntry(|t.value|) else SepEntry(t.value)
  }

  /** The number of word tokens. */
  function WordCount(tokens: seq<Token>): nat {
    if tokens == [] then 0 else (if tokens[0].kind == WordKind then 1 else 0) + WordCount(tokens[1..])
  }

  /** `get_puzzle()`: the masked body and title streams and the number of words to find. */
  method GetPuzzle(s: Session, cfg: Config) returns (view: PuzzleView)
    ensures view.puzzleId == s.puzzleId && view.language == "fr" && view.adminMode == cfg.adminMode
    ensures |view.bodyStream| == |s.tokens| && |view.titleStream| == |s.titleTokens|
    ensures forall i :: 0 <= i < |s.tokens| ==> view.bodyStream[i] == Mask(s.tokens[i])
    ensures forall i :: 0 <= i < |s.titleTokens| ==> view.titleStream[i] == Mask(s.titleTokens[i])
    ensures view.totalWords == WordCount(s.tokens)
  {
    var body: seq<StreamEntry> := [];
    var totalWords := 0;
    for i := 0 to |s.tokens|
      invariant |body| == i
      invariant forall j :: 0 <= j < i ==> body[j] == Mask(s.tokens[j])
      invariant totalWords + WordCount(s.tokens[i..]) == WordCount(s.tokens)
    {
      assert WordCount(s.tokens[i..]) == (if s.tokens[i].kind == WordKind then 1 else 0) + WordCount(s.tokens[i + 1..]) by {
        assert s.tokens[i..][1..] == s.tokens[i + 1..];
      }
      var tok := s.tokens[i];
      if tok.kind == WordKind {
        body := body + [WordEntry(|tok.value|)];
        totalWords := totalWords + 1;
      } else {
        body := body + [SepEntry(tok.value)];
      }
    }
    var titleStream: seq<StreamEntry> := [];
    for i := 0 to |s.titleTokens|
      invariant |titleStream| == i
      invariant forall j :: 0 <= j < i ==> titleStream[j] == Mask(s.titleTokens[j])
    {
      var tok := s.titleTokens[i];
      if tok.kind == WordKind {
        titleStream := titleStream + [WordEntry(|tok.value|)];
      } else {
        titleStream := titleStream + [SepEntry(tok.value)];
      }
    }
    view := PuzzleView(s.puzzleId, "fr", titleStream, body, totalWords, cfg.adminMode);
  }

  // ---------------------------------------------------------------- post_guess

  /** `status` of a guess response. */
  datatype Status = Hit | Miss | Invalid | Unknown

  /** A guess response; position-keyed maps stand for the `str(pos)`-keyed JSON objects. */
  datatype GuessResponse = GuessResponse(
    status: Status,
    positions: seq<nat>,
    revealedTexts: Option<map<nat, string>>,
    titleRevealedTexts: Option<map<nat, string>>,
    similarity: Option<real>,
    wordScores: Option<seq<ScoredPos>>)

  /** A rejected guess: only a status and no positions. */
  function Rejected(status: Status): (r: GuessResponse)
    ensures r.status == status && r.positions == []
  {
    GuessResponse(status, [], None, None, None, None)
  }

  /** The key a guess is looked up under: `normalize(lemmatize_word(guess.lower()))`. */
  function GuessKey(ext: ExternalLemmatizer, guess: string): string {
    Normalize(LemmatizeWord(ext, Lower(guess)))
  }

  /** Position -> token text, for the given positions. */
  function RevealMap(tokens: seq<Token>, positions: seq<nat>): (m: map<nat, string>)
    requires forall j :: 0 <= j < |positions| ==> positions[j] < |tokens|
    ensures forall p :: p in m <==> p in positions
    ensures forall p :: p in m ==> p < |tokens| && m[p] == tokens[p].value
  {
    map p | p in positions :: tokens[p].value
  }

  /** The entries labelled on the page: score at least `minScore`, position not in `excluded`, in order. */
  function Labelled(scores: seq<ScoredPos>, minScore: real, excluded: seq<nat>): (r: seq<ScoredPos>)
    ensures forall x :: x in r <==> x in scores && x.score >= minScore && x.pos !in excluded
    ensures |r| <= |scores|
  {
    if scores == [] then []
    else
      (if scores[0].score >= minScore && scores[0].pos !in excluded then [scores[0]] else [])
      + Labelled(scores[1..], minScore, excluded)
  }

  /** Labelling keeps the order of the scores: it distributes over concatenation. */
  lemma {:induction false} LabelledAppend(a: seq<ScoredPos>, b: seq<ScoredPos>, minScore: real, excluded: seq<nat>)
    ensures Labelled(a + b, minScore, excluded) == Labelled(a, minScore, excluded) + Labelled(b, minScore, excluded)
  {
    if a == [] {
      assert a + b == b;
    } else {
      assert (a + b)[1..] == a[1..] + b;
      LabelledAppend(a[1..], b, minScore, excluded);
    }
  }

  /** Every stored position of the session's lemma indexes names a token. */
  ghost predicate Indexable(s: Session) {
    && s.vocabEmbeddings.Valid()
    && (forall k, j :: k in s.lemmaIndex.entries && 0 <= j < |s.lemmaIndex.entries[k]| ==>
          s.lemmaIndex.entries[k][j] < |s.tokens|)
    && (forall k, j :: k in s.titleLemmaIndex.entries && 0 <= j < |s.titleLemmaIndex.entries[k]| ==>
          s.titleLemmaIndex.entries[k][j] < |s.titleTokens|)
  }

  /** Every session `lifespan` builds meets what `post_guess` relies on. */
  lemma ConsistentIndexable(s: Session, ext: ExternalLemmatizer)
    requires Consistent(s, ext)
    ensures Indexable(s)
  {
  }

  /** `title_revealed_texts`: the title words that share the guess's key, or `None`. */
  function TitleReveal(s: Session, key: string): (r: Option<map<nat, string>>)
    requires Indexable(s)
    ensures r.None? <==> s.titleLemmaIndex.Get(key, []) == []
  {
    var positions := s.titleLemmaIndex.Get(key, []);
    if positions == [] then None else Some(RevealMap(s.titleTokens, positions))
  }

  /** `post_guess(guess)` */
  function PostGuess(s: Session, o: Oracles, cfg: Config, raw: string): (r: GuessResponse)
    requires Indexable(s)
    ensures r.status == Invalid <==> |Strip(raw)| < cfg.minGuessLength
    ensures r.status == Unknown <==> |Strip(raw)| >= cfg.minGuessLength && !o.isKnown(Strip(raw))
    ensures r.status != Hit ==> r.positions == [] && r.revealedTexts == None
    ensures r.status == Hit ==> r.positions != [] && r.revealedTexts.Some? && r.similarity == None
    ensures r.status in {Invalid, Unknown} ==> r == Rejected(r.status)
  {
    var guess := Strip(raw);
    if |guess| < cfg.minGuessLength then Rejected(Invalid)
    else if !o.isKnown(guess) then Rejected(Unknown)
    else
      var key := GuessKey(o.lemmatizer, guess);
      var titleRevealed := TitleReveal(s, key);
      var (scores, best) := Scores(o.embedder, s.vocabEmbeddings, s.wordIndex, Normalize(guess));
      var positions := s.lemmaIndex.Get(key, []);
      if positions != [] then
        var hints := Labelled(scores, cfg.minLabelScore, positions);
        GuessResponse(Hit, positions, Some(RevealMap(s.tokens, positions)), titleRevealed, None,
                      if hints == [] then None else Some(hints))
      else
        GuessResponse(Miss, [], None, titleRevealed, best, Some(Labelled(scores, cfg.minLabelScore, [])))
  }

  // ---------------------------------------------------------------- post_guess: properties

  /** A guess that passes the length and dictionary checks. */
  ghost predicate Accepted(o: Oracles, cfg: Config, raw: string) {
    |Strip(raw)| >= cfg.minGuessLength && o.isKnown(Strip(raw))
  }

  /**
   * The positions stored under `key` in a lemma index of `tokens`, revealed as a
   * map, are exactly the non-empty words whose lemma key is `key`, with their text.
   */
  lemma RevealedWords(ext: ExternalLemmatizer, tokens: seq<Token>, index: PositionIndex, key: string)
    requires Groups(index, LemmaKeys(ext, tokens), |tokens|) && key in index.entries
    ensures forall j :: 0 <= j < |index.entries[key]| ==> index.entries[key][j] < |tokens|
    ensures var m := RevealMap(tokens, index.entries[key]);
      forall p: nat :: p in m <==>
        p < |tokens| && tokens[p].kind == WordKind && tokens[p].value != "" && GuessKey(ext, tokens[p].value) == key
  {
    var m := RevealMap(tokens, index.entries[key]);
    forall p: nat ensures p in m <==>
      p < |tokens| && tokens[p].kind == WordKind && tokens[p].value != "" && GuessKey(ext, tokens[p].value) == key
    {
      GroupsMember(index, LemmaKeys(ext, tokens), |tokens|, key, p);
      if p < |tokens| {
        LemmaKeyAt(ext, tokens, p);
      }
    }
  }

  /**
   * A hit happens exactly when the guess's key is in the lemma index. It then
   * reports that key's positions and reveals exactly the body words that share
   * the key, with their original text.
   */
  lemma PostGuessHit(s: Session, o: Oracles, cfg: Config, raw: string)
    requires Consistent(s, o.lemmatizer) && Accepted(o, cfg, raw)
    ensures var key := GuessKey(o.lemmatizer, Strip(raw));
      var r := PostGuess(s, o, cfg, raw);
      && (r.status == Hit <==> key in s.lemmaIndex.entries)
      && (r.status == Hit ==> r.positions == s.lemmaIndex.entries[key])
      && (r.status == Hit ==> forall p: nat :: p in r.revealedTexts.value <==>
            p < |s.tokens| && s.tokens[p].kind == WordKind && s.tokens[p].value != "" &&
            GuessKey(o.lemmatizer, s.tokens[p].value) == key)
      && (r.status == Hit ==> forall p: nat :: p in r.revealedTexts.value ==> r.revealedTexts.value[p] == s.tokens[p].value)
  {
    var key := GuessKey(o.lemmatizer, Strip(raw));
    if key in s.lemmaIndex.entries {
      GroupsNonEmpty(s.lemmaIndex, LemmaKeys(o.lemmatizer, s.tokens), |s.tokens|, key);
      RevealedWords(o.lemmatizer, s.tokens, s.lemmaIndex, key);
    }
  }

  /**
   * On a hit, the similarity hints are the scored entries at or above the label
   * threshold whose position is not revealed, and there are none rather than an empty list.
   */
  lemma PostGuessHitHints(s: Session, o: Oracles, cfg: Config, raw: string)
    requires Indexable(s) && Accepted(o, cfg, raw) && PostGuess(s, o, cfg, raw).status == Hit
    ensures var r := PostGuess(s, o, cfg, raw);
      var scores := Scores(o.embedder, s.vocabEmbeddings, s.wordIndex, Normalize(Strip(raw))).0;
      && (r.wordScores.Some? ==> r.wordScores == Some(Labelled(scores, cfg.minLabelScore, r.positions)))
      && (r.wordScores.Some? ==> r.wordScores.value != [])
      && (r.wordScores.None? <==> forall x :: x in scores ==> x.score < cfg.minLabelScore || x.pos in r.positions)
      && (r.wordScores.Some? ==> forall x :: x in r.wordScores.value <==>
            x in scores && x.score >= cfg.minLabelScore && x.pos !in r.positions)
  {
    var r := PostGuess(s, o, cfg, raw);
    var scores := Scores(o.embedder, s.vocabEmbeddings, s.wordIndex, Normalize(Strip(raw))).0;
    var hints := Labelled(scores, cfg.minLabelScore, r.positions);
    assert r.wordScores == if hints == [] then None else Some(hints);
    if r.wordScores.Some? {
      assert hints[0] in hints;
    }
  }

  /**
   * A miss reveals nothing of the body, reports the best similarity and lists
   * every scored entry at or above the label threshold, in scoring order.
   */
  lemma PostGuessMiss(s: Session, o: Oracles, cfg: Config, raw: string)
    requires Indexable(s) && Accepted(o, cfg, raw) && PostGuess(s, o, cfg, raw).status == Miss
    ensures var r := PostGuess(s, o, cfg, raw);
      var (scores, best) := Scores(o.embedder, s.vocabEmbeddings, s.wordIndex, Normalize(Strip(raw)));
      && r.positions == [] && r.revealedTexts == None
      && r.similarity == best
      && r.wordScores.Some?
      && r.wordScores == Some(Labelled(scores, cfg.minLabelScore, []))
      && (forall x :: x in r.wordScores.value <==> x in scores && x.score >= cfg.minLabelScore)
      && |r.wordScores.value| <= |scores|
  {
  }

  /**
   * On every accepted guess, hit or miss, the title reveal is `None` exactly when
   * the title has no word with the guess's key, and otherwise reveals exactly those title words.
   */
  lemma PostGuessTitleReveal(s: Session, o: Oracles, cfg: Config, raw: string)
    requires Consistent(s, o.lemmatizer) && Accepted(o, cfg, raw)
    ensures var key := GuessKey(o.lemmatizer, Strip(raw));
      var r := PostGuess(s, o, cfg, raw);
      && (r.titleRevealedTexts.None? <==> key !in s.titleLemmaIndex.entries)
      && (r.titleRevealedTexts.Some? ==> forall p: nat :: p in r.titleRevealedTexts.value <==>
            p < |s.titleTokens| && s.titleTokens[p].kind == WordKind && s.titleTokens[p].value != "" &&
            GuessKey(o.lemmatizer, s.titleTokens[p].value) == key)
      && (r.titleRevealedTexts.Some? ==> forall p: nat :: p in r.titleRevealedTexts.value ==>
            r.titleRevealedTexts.value[p] == s.titleTokens[p].value)
  {
    var key := GuessKey(o.lemmatizer, Strip(raw));
    if key in s.titleLemmaIndex.entries {
      GroupsNonEmpty(s.titleLemmaIndex, LemmaKeys(o.lemmatizer, s.titleTokens), |s.titleTokens|, key);
      RevealedWords(o.lemmatizer, s.titleTokens, s.titleLemmaIndex, key);
    }
  }

  /** Guessing a word of the text, as it is written there, is a hit that reveals that word. */
  lemma GuessingAWordHits(s: Session, o: Oracles, cfg: Config, i: nat)
    requires Consistent(s, o.lemmatizer)
    requires i < |s.tokens| && s.tokens[i].kind == WordKind
    requires |s.tokens[i].value| >= cfg.minGuessLength && o.isKnown(s.tokens[i].value)
    ensures PostGuess(s, o, cfg, s.tokens[i].value).status == Hit
    ensures i in PostGuess(s, o, cfg, s.tokens[i].value).positions
  {
    var w := s.tokens[i].value;
    assert WellFormedToken(s.tokens[i]);
    WordRunStripped(w);
    var key := GuessKey(o.lemmatizer, w);
    LemmaKeyAt(o.lemmatizer, s.tokens, i);
    assert LemmaKeys(o.lemmatizer, s.tokens)[i] == Some(key);
    GroupsMember(s.lemmaIndex, LemmaKeys(o.lemmatizer, s.tokens), |s.tokens|, key, i);
    PostGuessHit(s, o, cfg, w);
  }

  /** A word run has no surrounding whitespace. */
  lemma WordRunStripped(w: string)
    requires IsWordRun(w)
    ensures Strip(w) == w
  {
    assert !IsSpace(w[0]);
    assert SpanStart(w, 0) == 0;
    assert !IsSpace(w[|w| - 1]) by {
      assert IsWordCont(w[|w| - 1]);
    }
    assert SpanEnd(w, 0, |w|) == |w|;
    assert w[0..|w|] == w;
  }

  // ---------------------------------------------------------------- post_guess_title

  datatype TitleResponse = TitleResponse(solved: bool, title: Option<string>)

  /** `post_guess_title(title_guess)` */
  function PostGuessTitle(s: Session, raw: string): (r: TitleResponse)
    ensures r.solved <==> Normalize(Strip(raw)) == s.titleNormalized
    ensures r.title == if r.solved then Some(s.title) else None
  {
    var norm := Normalize(Strip(raw));
    var solved := norm == s.titleNormalized;
    TitleResponse(solved, if solved then Some(s.title) else None)
  }

  /** The title itself solves the puzzle, whatever its case, once its surrounding whitespace is ignored. */
  lemma TitleSolvesItself(s: Session, ext: ExternalLemmatizer, pre: string, post: string)
    requires Consistent(s, ext) && Strip(s.title) == s.title
    requires forall m :: 0 <= m < |pre| ==> IsSpace(pre[m])
    requires forall m :: 0 <= m < |post| ==> IsSpace(post[m])
    ensures PostGuessTitle(s, pre + s.title + post) == TitleResponse(true, Some(s.title))
  {
    StripPadded(pre, s.title, post);
  }

  /** So does its normal form (accents and case dropped): `normalize` is idempotent. */
  lemma TitleSolvedByNormalForm(s: Session, ext: ExternalLemmatizer)
    requires Consistent(s, ext) && Strip(s.titleNormalized) == s.titleNormalized
    ensures PostGuessTitle(s, s.titleNormalized).solved
  {
    NormalizeIdempotent(s.title);
  }

  /** Surrounding whitespace never changes the answer to a title guess. */
  lemma TitleGuessIgnoresPadding(s: Session, raw: string, pre: string, post: string)
    requires forall m :: 0 <= m < |pre| ==> IsSpace(pre[m])
    requires forall m :: 0 <= m < |post| ==> IsSpace(post[m])
    ensures PostGuessTitle(s, pre + raw + post) == PostGuessTitle(s, raw)
  {
    StripPadded(pre, raw, post);
  }

  // ---------------------------------------------------------------- get_puzzle: properties

  /** How many characters an entry stands for. */
  function Width(e: StreamEntry): nat {
    match e
    case WordEntry(n) => n
    case SepEntry(t) => |t|
  }

  function TotalWidth(stream: seq<StreamEntry>): nat {
    if stream == [] then 0 else Width(stream[0]) + TotalWidth(stream[1..])
  }

  /** The number of word entries of a stream. */
  function WordEntries(stream: seq<StreamEntry>): nat {
    if stream == [] then 0 else (if stream[0].WordEntry? then 1 else 0) + WordEntries(stream[1..])
  }

  /**
   * A masked stream keeps the shape of the text: its entries stand for exactly
   * as many characters as the token values hold, and it has one word entry per word token.
   */
  lemma {:induction false} MaskedStream(tokens: seq<Token>, stream: seq<StreamEntry>)
    requires |stream| == |tokens| && forall i :: 0 <= i < |tokens| ==> stream[i] == Mask(tokens[i])
    ensures TotalWidth(stream) == |Concat(tokens)|
    ensures WordEntries(stream) == WordCount(tokens)
  {
    if tokens != [] {
      MaskedStream(tokens[1..], stream[1..]);
    }
  }

  /** `get_puzzle` shows a body stream as long as the introduction, with `total_words` word entries. */
  lemma PuzzleViewShape(o: Oracles, title: string, introText: string, cfg: Config, view: PuzzleView)
    requires var s := SessionOf(o, title, introText);
      && |view.bodyStream| == |s.tokens| && |view.titleStream| == |s.titleTokens|
      && (forall i :: 0 <= i < |s.tokens| ==> view.bodyStream[i] == Mask(s.tokens[i]))
      && (forall i :: 0 <= i < |s.titleTokens| ==> view.titleStream[i] == Mask(s.titleTokens[i]))
      && view.totalWords == WordCount(s.tokens)
    ensures TotalWidth(view.bodyStream) == |introText| && TotalWidth(view.titleStream) == |title|
    ensures WordEntries(view.bodyStream) == view.totalWords
  {
    var s := SessionOf(o, title, introText);
    MaskedStream(s.tokens, view.bodyStream);
    MaskedStream(s.titleTokens, view.titleStream);
  }

  // ---------------------------------------------------------------- the response schema

  /** The `status` string of the JSON response. */
  function StatusName(st: Status): string {
    match st
    case Hit => "hit"
    case Miss => "miss"
    case Invalid => "invalid"
    case Unknown => "unknown"
  }

  /** The statuses the response schema declares. */
  const DeclaredStatuses: set<string> := {"hit", "miss", "invalid"}

  /** The statuses `post_guess` answers with. */
  const ResponseStatuses: set<string> := {"hit", "miss", "invalid", "unknown"}

  /** Schema validation of a guess response: its status must be one of `allowed`. */
  function Validate(r: GuessResponse, allowed: set<string>): (v: Result<GuessResponse, string>)
    ensures v.Ok? <==> StatusName(r.status) in allowed
    ensures v.Ok? ==> v.value == r
  {
    if StatusName(r.status) in allowed then Ok(r) else Err("status: input should be 'hit', 'miss' or 'invalid'")
  }

  /**
   * As declared, the schema refuses the response to a well-formed word that the
   * dictionary does not know: building that response fails instead of answering `unknown`.
   */
  lemma DeclaredSchemaRefusesUnknown(s: Session, o: Oracles, cfg: Config, w: string)
    requires Indexable(s) && IsWordRun(w) && |w| >= cfg.minGuessLength && !o.isKnown(w)
    ensures PostGuess(s, o, cfg, w).status == Unknown
    ensures Validate(PostGuess(s, o, cfg, w), DeclaredStatuses).Err?
  {
    WordRunStripped(w);
  }

  /** With `unknown` declared, every response `post_guess` builds passes validation unchanged. */
  lemma ResponseSchemaAdmitsAll(s: Session, o: Oracles, cfg: Config, raw: string)
    requires Indexable(s)
    ensures Validate(PostGuess(s, o, cfg, raw), ResponseStatuses) == Ok(PostGuess(s, o, cfg, raw))
    ensures PostGuess(s, o, cfg, raw).status == Unknown <==>
              Validate(PostGuess(s, o, cfg, raw), DeclaredStatuses).Err?
  {
    var r := PostGuess(s, o, cfg, raw);
    assert StatusName(r.status) in ResponseStatuses;
  }
}
