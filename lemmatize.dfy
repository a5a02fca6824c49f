/**
 * The lemmatizer adapter: a fixed rule table consulted before the external
 * morphological lemmatizer. The external lemmatizer (spaCy when its model is
 * loaded, simplemma otherwise) is one opaque function of the lower-case word.
 */
module Lemmatizer {
  import opened Wrappers
  import opened Normalization

  /** The external lemmatizer. */
  type ExternalLemmatizer = string -> string

  // ---------------------------------------------------------------- elision

  /** A single-letter elided article or pronoun (`l' d' j' m' t' s' n' c'`), any case. */
  predicate IsElidedConsonant(c: char) {
    LowerChar(c) in "ldjmtsnc" || c == '\U{017F}'  // long s matches `s` under IGNORECASE
  }

  /** Length of the elision prefix `l'` ... `qu'` at the start of `w`, or 0. */
  function ElisionPrefixLength(w: string): (n: nat)
    ensures n == 0 || n == 2 || n == 3
    ensures n <= |w|
    ensures n == 2 ==> IsElidedConsonant(w[0]) && w[1] == '\''
    ensures n == 3 ==> LowerChar(w[0]) == 'q' && LowerChar(w[1]) == 'u' && w[2] == '\''
    ensures |w| >= 2 && IsElidedConsonant(w[0]) && w[1] == '\'' ==> n == 2
    ensures |w| >= 3 && LowerChar(w[0]) == 'q' && LowerChar(w[1]) == 'u' && w[2] == '\'' ==> n == 3
  {
    if |w| >= 2 && IsElidedConsonant(w[0]) && w[1] == '\'' then 2
    else if |w| >= 3 && LowerChar(w[0]) == 'q' && LowerChar(w[1]) == 'u' && w[2] == '\'' then 3
    else 0
  }

  /**
   * What `(.+)$` captures of the text after the prefix: at least one character
   * other than a line feed, up to the end or to a final line feed.
   */
  function ElidedRest(rest: string): (r: Option<string>)
    ensures r.Some? ==> r.value != [] && '\n' !in r.value
    ensures r.Some? ==> rest == r.value || rest == r.value + "\n"
    ensures rest != [] && '\n' !in rest ==> r == Some(rest)
    ensures |rest| >= 2 && rest[|rest| - 1] == '\n' && '\n' !in rest[..|rest| - 1] ==> r == Some(rest[..|rest| - 1])
  {
    if |rest| >= 1 && '\n' !in rest then Some(rest)
    else if |rest| >= 2 && rest[|rest| - 1] == '\n' && '\n' !in rest[..|rest| - 1] then
      assert rest == rest[..|rest| - 1] + "\n";
      Some(rest[..|rest| - 1])
    else None
  }

  /** Step 1: strip a leading elision prefix followed by at least one character. */
  function StripElision(w: string): (r: string)
    ensures r == w || (r != [] && '\n' !in r && exists n :: 2 <= n <= 3 && n <= |w| && (w == w[..n] + r || w == w[..n] + r + "\n"))
    ensures ElisionPrefixLength(w) == 0 ==> r == w
    ensures r != w ==>
      (ElisionPrefixLength(w) > 0
       && (w == w[..ElisionPrefixLength(w)] + r || w == w[..ElisionPrefixLength(w)] + r + "\n"))
    ensures 0 < ElisionPrefixLength(w) < |w| && '\n' !in w[ElisionPrefixLength(w)..] ==> r == w[ElisionPrefixLength(w)..]
  {
    var n := ElisionPrefixLength(w);
    if n == 0 then w
    else match ElidedRest(w[n..]) {
      case Some(r) =>
        assert w == w[..n] + w[n..];
        r
      case None => w
    }
  }

  // ---------------------------------------------------------------- contractions

  /** Step 2: contractions the external lemmatizer gets wrong. */
  const Contractions: map<string, string> := map["des" := "de", "du" := "de", "au" := "a", "aux" := "a"]

  /** `lemmatize_word(word_lower)` */
  function LemmatizeWord(ext: ExternalLemmatizer, w: string): (r: string)
    ensures w in Contractions ==> r == Contractions[w]
    ensures ElisionPrefixLength(w) == 0 && w !in Contractions ==> r == ext(w)
    ensures r in ["de", "a"] || r == ext(StripElision(w))
  {
    var stripped := StripElision(w);
    ContractionsUnelided(w);
    if stripped in Contractions then Contractions[stripped] else ext(stripped)
  }

  /** No word of the contraction table carries an elision prefix. */
  lemma ContractionsUnelided(w: string)
    ensures w in Contractions ==> ElisionPrefixLength(w) == 0 && StripElision(w) == w
  {
    if w in Contractions {
      assert w[1] != '\'' && w[0] != 'q';
    }
  }

  // ---------------------------------------------------------------- properties

  /** An elided word `p'rest` is lemmatized as `rest`, and only one prefix is stripped. */
  lemma ElisionStripped(ext: ExternalLemmatizer, p: string, rest: string)
    requires p in ["l", "d", "j", "m", "t", "s", "n", "c", "qu"]
    requires rest != [] && '\n' !in rest
    ensures StripElision(p + "'" + rest) == rest
    ensures LemmatizeWord(ext, p + "'" + rest)
              == if rest in Contractions then Contractions[rest] else ext(rest)
  {
    var w := p + "'" + rest;
    assert ElisionPrefixLength(w) == |p| + 1;
    assert w[|p| + 1..] == rest;
  }

  /** A word of the contraction table never reaches the external lemmatizer. */
  lemma ContractionsBypassExternal(ext1: ExternalLemmatizer, ext2: ExternalLemmatizer, w: string)
    requires StripElision(w) in Contractions
    ensures LemmatizeWord(ext1, w) == LemmatizeWord(ext2, w) == Contractions[StripElision(w)]
    ensures LemmatizeWord(ext1, w) in ["de", "a"]
  {
  }

  /** Any other word is handed to the external lemmatizer once its elision is stripped. */
  lemma OthersGoToExternal(ext: ExternalLemmatizer, w: string)
    requires StripElision(w) !in Contractions
    ensures LemmatizeWord(ext, w) == ext(StripElision(w))
  {
  }

  /** `des`, `du` -> `de`; `au`, `aux` -> `a`, whatever the external lemmatizer says. */
  lemma ContractionExamples(ext: ExternalLemmatizer)
    ensures LemmatizeWord(ext, "des") == "de" && LemmatizeWord(ext, "du") == "de"
    ensures LemmatizeWord(ext, "au") == "a" && LemmatizeWord(ext, "aux") == "a"
  {
    assert StripElision("des") == "des";
    assert StripElision("du") == "du";
    assert StripElision("au") == "au";
    assert StripElision("aux") == "aux";
  }

  /** `d'eau` is lemmatized as `eau`. */
  lemma ElisionExampleDe(ext: ExternalLemmatizer)
    ensures LemmatizeWord(ext, "d'eau") == ext("eau")
  {
    assert "d'eau" == "d" + "'" + "eau";
    ElisionStripped(ext, "d", "eau");
  }

  /** `l'industrie` is lemmatized as `industrie`. */
  lemma ElisionExampleLe(ext: ExternalLemmatizer)
    ensures LemmatizeWord(ext, "l'industrie") == ext("industrie")
  {
    assert "l'industrie" == "l" + "'" + "industrie";
    ElisionStripped(ext, "l", "industrie");
  }

  /** `qu'il` is lemmatized as `il`. */
  lemma ElisionExampleQue(ext: ExternalLemmatizer)
    ensures LemmatizeWord(ext, "qu'il") == ext("il")
  {
    assert "qu'il" == "qu" + "'" + "il";
    ElisionStripped(ext, "qu", "il");
  }

  /** An elision prefix with nothing after it is not stripped. */
  lemma BarePrefixKept(ext: ExternalLemmatizer)
    ensures LemmatizeWord(ext, "l'") == ext("l'")
  {
    assert ElisionPrefixLength("l'") == 2;
    assert "l'"[2..] == [];
  }
}
