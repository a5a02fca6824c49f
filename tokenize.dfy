/**
 * The tokenizer: text is cut into word runs (the regular expression `[\w][\w'\-]*`,
 * matched left to right) and the separator runs between them.
 */
module Tokenizer {
  import opened Wrappers
  import opened Normalization

  datatype TokenKind = WordKind | SepKind

  /** A token; `normalized` is set for word tokens only. */
  datatype Token = Token(kind: TokenKind, value: string, normalized: Option<string>)

  function WordToken(w: string): Token {
    Token(WordKind, w, Some(Normalize(w)))
  }

  function SepToken(s: string): Token {
    Token(SepKind, s, None)
  }

  /** Characters that may continue a word run once it has started. */
  predicate IsWordCont(c: char) {
    IsWordChar(c) || c == '\'' || c == '-'
  }

  // ------------------------------------------------------------ reference split

  /** End of the word run whose continuation is scanned from `j`. */
  function WordEnd(text: string, j: nat): (r: nat)
    requires j <= |text|
    ensures j <= r <= |text|
    ensures forall k :: j <= k < r ==> IsWordCont(text[k])
    ensures r < |text| ==> !IsWordCont(text[r])
    decreases |text| - j
  {
    if j < |text| && IsWordCont(text[j]) then WordEnd(text, j + 1) else j
  }

  /** Where the next match starts: the first word character at or after `i`. */
  function NextWordStart(text: string, i: nat): (r: nat)
    requires i <= |text|
    ensures i <= r <= |text|
    ensures forall k :: i <= k < r ==> !IsWordChar(text[k])
    ensures r < |text| ==> IsWordChar(text[r])
    decreases |text| - i
  {
    if i < |text| && !IsWordChar(text[i]) then NextWordStart(text, i + 1) else i
  }

  /** The tokens of `text[i..]`: a separator up to the next match, or the match itself. */
  function TokensFrom(text: string, i: nat): seq<Token>
    requires i <= |text|
    decreases |text| - i
  {
    if i == |text| then []
    else if IsWordChar(text[i]) then
      var e := WordEnd(text, i + 1);
      [WordToken(text[i..e])] + TokensFrom(text, e)
    else
      var e := NextWordStart(text, i);
      [SepToken(text[i..e])] + TokensFrom(text, e)
  }

  function Tokenization(text: string): seq<Token> {
    TokensFrom(text, 0)
  }

  // ------------------------------------------------------------ the method

  /** `tokenize(text)`: walk the matches with a cursor, emitting the gaps as separators. */
  method Tokenize(text: string) returns (tokens: seq<Token>)
    ensures tokens == Tokenization(text)
    ensures Concat(tokens) == text
    ensures WellFormed(tokens)
  {
    tokens := [];
    var pos := 0;
    var start := SkipSeparator(text, pos);
    while start < |text|
      invariant pos <= start <= |text|
      invariant start == NextWordStart(text, pos)
      invariant tokens + TokensFrom(text, pos) == Tokenization(text)
      decreases |text| - start
    {
      var end := start + 1;
      while end < |text| && IsWordCont(text[end])
        invariant start < end <= |text|
        invariant WordEnd(text, end) == WordEnd(text, start + 1)
      {
        end := end + 1;
      }
      var gap := if start > pos then [SepToken(text[pos..start])] else [];
      MatchStep(tokens, text, pos, start, end);
      tokens := tokens + gap + [WordToken(text[start..end])];
      pos := end;
      start := SkipSeparator(text, pos);
    }
    LastStep(text, pos);
    if pos < |text| {
      tokens := tokens + [SepToken(text[pos..])];
    } else {
      assert tokens + [] == tokens;
    }
    TokenizationLossless(text);
    TokenizationWellFormed(text);
  }

  /** The search for the next match: skip characters that cannot start a word. */
  method SkipSeparator(text: string, pos: nat) returns (start: nat)
    requires pos <= |text|
    ensures start == NextWordStart(text, pos)
  {
    start := pos;
    while start < |text| && !IsWordChar(text[start])
      invariant pos <= start <= |text|
      invariant NextWordStart(text, start) == NextWordStart(text, pos)
    {
      start := start + 1;
    }
  }

  /** One match: the gap before it (if any), then the word run itself. */
  lemma MatchStep(done: seq<Token>, text: string, pos: nat, start: nat, end: nat)
    requires pos <= start < |text| && start == NextWordStart(text, pos)
    requires end == WordEnd(text, start + 1)
    requires done + TokensFrom(text, pos) == Tokenization(text)
    ensures done + (if start > pos then [SepToken(text[pos..start])] else []) + [WordToken(text[start..end])]
              + TokensFrom(text, end) == Tokenization(text)
  {
    MatchTokens(text, pos, start, end);
    AppendAssoc(done, if start > pos then [SepToken(text[pos..start])] else [], [WordToken(text[start..end])], TokensFrom(text, end));
  }

  /** The tokens from `pos`: the gap before the next match (if any), the match, then the rest. */
  lemma MatchTokens(text: string, pos: nat, start: nat, end: nat)
    requires pos <= start < |text| && start == NextWordStart(text, pos)
    requires end == WordEnd(text, start + 1)
    ensures TokensFrom(text, pos)
      == (if start > pos then [SepToken(text[pos..start])] else []) + [WordToken(text[start..end])] + TokensFrom(text, end)
  {
    WordFirst(text, start);
    if start > pos {
      assert !IsWordChar(text[pos]);
      SeparatorFirst(text, pos);
    }
  }

  /** At a word character, the tokens start with the word run. */
  lemma WordFirst(text: string, i: nat)
    requires i < |text| && IsWordChar(text[i])
    ensures TokensFrom(text, i) == [WordToken(text[i..WordEnd(text, i + 1)])] + TokensFrom(text, WordEnd(text, i + 1))
  {
  }

  /** At any other character, the tokens start with the gap up to the next match. */
  lemma SeparatorFirst(text: string, i: nat)
    requires i < |text| && !IsWordChar(text[i])
    ensures TokensFrom(text, i) == [SepToken(text[i..NextWordStart(text, i)])] + TokensFrom(text, NextWordStart(text, i))
  {
  }

  lemma AppendAssoc<T>(a: seq<T>, b: seq<T>, c: seq<T>, d: seq<T>)
    ensures a + b + c + d == a + (b + c + d)
  {
  }

  /** After the last match, what remains is one separator, or nothing. */
  lemma LastStep(text: string, pos: nat)
    requires pos <= |text| && NextWordStart(text, pos) == |text|
    ensures TokensFrom(text, pos) == if pos < |text| then [SepToken(text[pos..])] else []
  {
    assert TokensFrom(text, |text|) == [];
    if pos < |text| {
      assert text[pos..|text|] == text[pos..];
    }
  }

  // ------------------------------------------------------------ properties

  /** The concatenation of the token values. */
  function Concat(tokens: seq<Token>): string {
    if tokens == [] then [] else tokens[0].value + Concat(tokens[1..])
  }

  lemma {:induction false} ConcatAppend(a: seq<Token>, b: seq<Token>)
    ensures Concat(a + b) == Concat(a) + Concat(b)
  {
    if a == [] {
      assert a + b == b;
    } else {
      assert (a + b)[1..] == a[1..] + b;
      ConcatAppend(a[1..], b);
    }
  }

  lemma {:induction false} TokensFromLossless(text: string, i: nat)
    requires i <= |text|
    ensures Concat(TokensFrom(text, i)) == text[i..]
    decreases |text| - i
  {
    if i < |text| {
      var e := if IsWordChar(text[i]) then WordEnd(text, i + 1) else NextWordStart(text, i);
      TokensFromLossless(text, e);
      assert text[i..] == text[i..e] + text[e..];
    }
  }

  /** Tokenizing loses nothing: the token values put back together give the text. */
  lemma TokenizationLossless(text: string)
    ensures Concat(Tokenization(text)) == text
    ensures text == "" ==> Tokenization(text) == []
  {
    TokensFromLossless(text, 0);
  }

  /** A word token: a word character, then word characters, apostrophes or hyphens. */
  ghost predicate IsWordRun(w: string) {
    w != [] && IsWordChar(w[0]) && forall k :: 0 <= k < |w| ==> IsWordCont(w[k])
  }

  /** A separator token: non-empty and holds no word character. */
  ghost predicate IsSepRun(s: string) {
    s != [] && forall k :: 0 <= k < |s| ==> !IsWordChar(s[k])
  }

  ghost predicate WellFormedToken(t: Token) {
    match t.kind
    case WordKind => IsWordRun(t.value) && t.normalized == Some(Normalize(t.value))
    case SepKind => IsSepRun(t.value) && t.normalized == None
  }

  /**
   * The shape of a token stream: every token is well formed, two word tokens are
   * never adjacent, nor are two separators, and a word run is maximal (the
   * separator after it does not start with a character that could continue it).
   */
  ghost predicate WellFormed(tokens: seq<Token>) {
    && (forall i :: 0 <= i < |tokens| ==> WellFormedToken(tokens[i]))
    && (forall i :: 0 <= i < |tokens| - 1 ==> tokens[i].kind != tokens[i + 1].kind)
    && (forall i :: 0 <= i < |tokens| - 1 && tokens[i].kind == WordKind ==> !IsWordCont(tokens[i + 1].value[0]))
  }

  lemma {:induction false} TokensFromWellFormed(text: string, i: nat)
    requires i <= |text|
    ensures WellFormed(TokensFrom(text, i))
    ensures i < |text| ==> TokensFrom(text, i) != [] && TokensFrom(text, i)[0].value[0] == text[i]
    ensures i < |text| ==> (TokensFrom(text, i)[0].kind == WordKind <==> IsWordChar(text[i]))
    decreases |text| - i
  {
    if i < |text| {
      var ts := TokensFrom(text, i);
      if IsWordChar(text[i]) {
        var e := WordEnd(text, i + 1);
        TokensFromWellFormed(text, e);
        WordFirst(text, i);
        var w := text[i..e];
        forall k | 0 <= k < |w| ensures IsWordCont(w[k]) {
          assert w[k] == text[i + k];
        }
        if e < |text| {
          assert !IsWordChar(text[e]);
        }
        ConsWellFormed(WordToken(w), TokensFrom(text, e));
      } else {
        var e := NextWordStart(text, i);
        TokensFromWellFormed(text, e);
        SeparatorFirst(text, i);
        var g := text[i..e];
        forall k | 0 <= k < |g| ensures !IsWordChar(g[k]) {
          assert g[k] == text[i + k];
        }
        ConsWellFormed(SepToken(g), TokensFrom(text, e));
      }
    }
  }

  /** A well-formed token in front of a well-formed stream it may precede. */
  lemma ConsWellFormed(t: Token, rest: seq<Token>)
    requires WellFormedToken(t) && WellFormed(rest)
    requires rest != [] ==> t.kind != rest[0].kind
    requires rest != [] && t.kind == WordKind ==> !IsWordCont(rest[0].value[0])
    ensures WellFormed([t] + rest)
  {
    var ts := [t] + rest;
    forall i | 1 <= i < |ts| ensures ts[i] == rest[i - 1] {
    }
  }

  /** Every token stream `tokenize` produces has the shape of `WellFormed`. */
  lemma TokenizationWellFormed(text: string)
    ensures WellFormed(Tokenization(text))
  {
    TokensFromWellFormed(text, 0);
  }

  /** A maximal run of continuation characters ends where `WordEnd` says. */
  lemma {:induction false} WordEndAt(text: string, j: nat, e: nat)
    requires j <= e <= |text|
    requires forall k :: j <= k < e ==> IsWordCont(text[k])
    requires e < |text| ==> !IsWordCont(text[e])
    ensures WordEnd(text, j) == e
    decreases e - j
  {
    if j < e {
      WordEndAt(text, j + 1, e);
    }
  }

  /** A run of characters that cannot start a word, followed by one that can, ends where `NextWordStart` says. */
  lemma {:induction false} NextWordStartAt(text: string, i: nat, e: nat)
    requires i <= e <= |text|
    requires forall k :: i <= k < e ==> !IsWordChar(text[k])
    requires e < |text| ==> IsWordChar(text[e])
    ensures NextWordStart(text, i) == e
    decreases e - i
  {
    if i < e {
      NextWordStartAt(text, i + 1, e);
    }
  }

  lemma WellFormedTail(tokens: seq<Token>)
    requires tokens != [] && WellFormed(tokens)
    ensures WellFormed(tokens[1..])
  {
    assert forall i :: 0 <= i < |tokens| - 1 ==> tokens[1..][i] == tokens[i + 1];
  }

  /** A well-formed stream that spells `text[i..]` is the one `TokensFrom` builds. */
  lemma {:induction false} TokensFromUnique(text: string, i: nat, tokens: seq<Token>)
    requires i <= |text| && WellFormed(tokens) && Concat(tokens) == text[i..]
    ensures tokens == TokensFrom(text, i)
    decreases |text| - i
  {
    if tokens == [] {
      assert text[i..] == [];
    } else {
      var t := tokens[0];
      var e := i + |t.value|;
      HeadToken(text, i, tokens);
      TokensFromUnique(text, e, tokens[1..]);
      if t.kind == WordKind {
        if |tokens| > 1 {
          assert !IsWordCont(tokens[1].value[0]);
        }
        WordHead(text, i, e, t);
        WordFirst(text, i);
      } else {
        if |tokens| > 1 {
          assert tokens[1].kind == WordKind && WellFormedToken(tokens[1]);
        }
        SepHead(text, i, e, t);
        SeparatorFirst(text, i);
      }
      HeadAndTail(tokens);
    }
  }

  lemma HeadAndTail<T>(s: seq<T>)
    requires s != []
    ensures s == [s[0]] + s[1..]
  {
  }

  /** The first token of a stream spelling `text[i..]` covers `text[i..e]`; the rest spell `text[e..]`. */
  lemma HeadToken(text: string, i: nat, tokens: seq<Token>)
    requires i <= |text| && tokens != [] && WellFormed(tokens) && Concat(tokens) == text[i..]
    ensures var e := i + |tokens[0].value|;
      && i < e <= |text| && text[i..e] == tokens[0].value
      && Concat(tokens[1..]) == text[e..] && WellFormed(tokens[1..])
      && (|tokens| > 1 ==> e < |text| && text[e] == tokens[1].value[0])
  {
    var t, rest := tokens[0], tokens[1..];
    var v := t.value;
    var e := i + |v|;
    assert WellFormedToken(t);
    assert text[i..] == v + Concat(rest);
    assert text[i..][..|v|] == v;
    assert text[i..][|v|..] == Concat(rest);
    WellFormedTail(tokens);
    if rest != [] {
      assert WellFormedToken(rest[0]);
      assert Concat(rest) == rest[0].value + Concat(rest[1..]);
      assert text[e..][0] == rest[0].value[0];
    }
  }

  /** A word token at `i` that is not followed by a continuation character is the match at `i`. */
  lemma WordHead(text: string, i: nat, e: nat, t: Token)
    requires i < e <= |text| && text[i..e] == t.value
    requires t.kind == WordKind && WellFormedToken(t)
    requires e < |text| ==> !IsWordCont(text[e])
    ensures IsWordChar(text[i]) && WordEnd(text, i + 1) == e && t == WordToken(text[i..e])
  {
    forall k | i < k < e ensures IsWordCont(text[k]) {
      assert text[k] == t.value[k - i];
    }
    assert text[i] == t.value[0];
    WordEndAt(text, i + 1, e);
  }

  /** A separator token at `i` that is followed by a word character is the gap before the next match. */
  lemma SepHead(text: string, i: nat, e: nat, t: Token)
    requires i < e <= |text| && text[i..e] == t.value
    requires t.kind == SepKind && WellFormedToken(t)
    requires e < |text| ==> IsWordChar(text[e])
    ensures !IsWordChar(text[i]) && NextWordStart(text, i) == e && t == SepToken(text[i..e])
  {
    forall k | i <= k < e ensures !IsWordChar(text[k]) {
      assert text[k] == t.value[k - i];
    }
    NextWordStartAt(text, i, e);
  }

  /**
   * `tokenize` is the only lossless, well-formed way to cut a text: any stream of
   * well-formed tokens whose values spell `text` is `tokenize(text)`.
   */
  lemma TokenizationUnique(text: string, tokens: seq<Token>)
    requires WellFormed(tokens) && Concat(tokens) == text
    ensures tokens == Tokenization(text)
  {
    TokensFromUnique(text, 0, tokens);
  }

  /** A text that is one word run (`chemin-de-fer`) becomes exactly one word token. */
  lemma SingleWordRun(text: string)
    requires IsWordRun(text)
    ensures Tokenization(text) == [WordToken(text)]
  {
    assert WordEnd(text, 1) == |text|;
    assert text[0..|text|] == text;
    assert TokensFrom(text, |text|) == [];
    assert TokensFrom(text, 0) == [WordToken(text[0..|text|])] + TokensFrom(text, |text|);
  }

  /** `tokenize("chemin-de-fer")` is the single word token `chemin-de-fer`. */
  lemma HyphenatedCompound()
    ensures Tokenization("chemin-de-fer") == [WordToken("chemin-de-fer")]
  {
    SingleWordRun("chemin-de-fer");
  }

  /** A text without word characters becomes separator tokens only (at most one). */
  lemma OnlySeparators(text: string)
    requires forall k :: 0 <= k < |text| ==> !IsWordChar(text[k])
    ensures Tokenization(text) == if text == "" then [] else [SepToken(text)]
  {
    if text != "" {
      assert NextWordStart(text, 0) == |text|;
      assert text[0..|text|] == text;
      assert TokensFrom(text, |text|) == [];
      assert TokensFrom(text, 0) == [SepToken(text[0..|text|])] + TokensFrom(text, |text|);
    }
  }
}
