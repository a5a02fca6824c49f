/**
 * The index builders: each maps a key to the ascending positions of the tokens
 * that carry it. The exact index keys a word token by its normalized form, the
 * lemma index by the normalized lemma of its lower-cased value.
 */
module Indexing {
  import opened Wrappers
  import opened Dicts
  import opened Normalization
  import opened Tokenizer
  import opened Lemmatizer

  /** `dict[str, list[int]]` from keys to token positions. */
  type PositionIndex = Dict<seq<nat>>

  // ---------------------------------------------------------------- keys

  /** The exact-index key of a token: its `normalized`, when it is a word and that is non-empty. */
  function ExactKey(t: Token): Option<string> {
    if t.kind == WordKind && t.normalized.Some? && t.normalized.value != "" then Some(t.normalized.value) else None
  }

  /** The lemma-index key of a token: `normalize(lemmatize_word(value.lower()))` for a non-empty word. */
  function LemmaKey(ext: ExternalLemmatizer, t: Token): Option<string> {
    if t.kind == WordKind && t.value != "" then Some(Normalize(LemmatizeWord(ext, Lower(t.value)))) else None
  }

  function ExactKeys(tokens: seq<Token>): (keys: seq<Option<string>>)
  {
    seq(|tokens|, i requires 0 <= i < |tokens| => ExactKey(tokens[i]))
  }

  function LemmaKeys(ext: ExternalLemmatizer, tokens: seq<Token>): (keys: seq<Option<string>>)
  {
    seq(|tokens|, i requires 0 <= i < |tokens| => LemmaKey(ext, tokens[i]))
  }

  // ---------------------------------------------------------------- the invariant

  ghost predicate StrictlyIncreasing(s: seq<nat>) {
    forall a, b :: 0 <= a < b < |s| ==> s[a] < s[b]
  }

  /** The keys of `index` are exactly the keys of the first `n` positions. */
  ghost predicate KeysOccur(index: PositionIndex, keys: seq<Option<string>>, n: nat)
    requires n <= |keys|
  {
    forall k :: k in index.entries <==> exists i :: 0 <= i < n && keys[i] == Some(k)
  }

  /** Every stored position is below `n` and carries the key it is stored under. */
  ghost predicate PositionsCarryKey(index: PositionIndex, keys: seq<Option<string>>, n: nat)
    requires n <= |keys|
  {
    forall k, j :: k in index.entries && 0 <= j < |index.entries[k]| ==>
      index.entries[k][j] < n && keys[index.entries[k][j]] == Some(k)
  }

  /** Every keyed position among the first `n` is stored under its key. */
  ghost predicate AllStored(index: PositionIndex, keys: seq<Option<string>>, n: nat)
    requires n <= |keys|
  {
    forall i :: 0 <= i < n && keys[i].Some? ==> keys[i].value in index.entries && i in index.entries[keys[i].value]
  }

  /** The positions under each key ascend strictly. */
  ghost predicate Ascending(index: PositionIndex) {
    forall k :: k in index.entries ==> StrictlyIncreasing(index.entries[k])
  }

  /** Keys are listed in the order of their first position. */
  ghost predicate KeysByFirstPosition(index: PositionIndex)
    requires index.Valid()
  {
    forall a, b :: 0 <= a < b < |index.keys| ==>
      index.entries[index.keys[a]] != [] && index.entries[index.keys[b]] != [] &&
      index.entries[index.keys[a]][0] < index.entries[index.keys[b]][0]
  }

  /** `index` groups the first `n` positions by their `keys`. */
  ghost predicate Groups(index: PositionIndex, keys: seq<Option<string>>, n: nat)
    requires n <= |keys|
  {
    && index.Valid()
    && KeysOccur(index, keys, n)
    && PositionsCarryKey(index, keys, n)
    && AllStored(index, keys, n)
    && Ascending(index)
    && KeysByFirstPosition(index)
  }

  /** Adding position `n` under its key keeps the grouping of the first `n + 1` positions. */
  lemma GroupsStep(index: PositionIndex, keys: seq<Option<string>>, n: nat)
    requires n < |keys| && Groups(index, keys, n)
    ensures Groups(AddPosition(index, keys, n), keys, n + 1)
  {
    if keys[n].Some? {
      var k := keys[n].value;
      var r := SetDefaultAppend(index, k, n);
      StepKeysOccur(index, keys, n);
      StepPositionsCarryKey(index, keys, n);
      StepAllStored(index, keys, n);
      StepAscending(index, keys, n);
      StepKeysByFirstPosition(index, keys, n);
    } else {
      forall k | k in index.entries ensures exists i :: 0 <= i < n + 1 && keys[i] == Some(k) {
        var i :| 0 <= i < n && keys[i] == Some(k);
      }
    }
  }

  lemma StepKeysOccur(index: PositionIndex, keys: seq<Option<string>>, n: nat)
    requires n < |keys| && keys[n].Some? && index.Valid() && KeysOccur(index, keys, n)
    ensures KeysOccur(SetDefaultAppend(index, keys[n].value, n), keys, n + 1)
  {
    var r := SetDefaultAppend(index, keys[n].value, n);
    forall k ensures k in r.entries <==> exists i :: 0 <= i < n + 1 && keys[i] == Some(k) {
      if k in index.entries {
        var i :| 0 <= i < n && keys[i] == Some(k);
      }
    }
  }

  lemma StepPositionsCarryKey(index: PositionIndex, keys: seq<Option<string>>, n: nat)
    requires n < |keys| && keys[n].Some? && index.Valid() && PositionsCarryKey(index, keys, n)
    ensures PositionsCarryKey(SetDefaultAppend(index, keys[n].value, n), keys, n + 1)
  {
  }

  lemma StepAllStored(index: PositionIndex, keys: seq<Option<string>>, n: nat)
    requires n < |keys| && keys[n].Some? && index.Valid() && AllStored(index, keys, n)
    ensures AllStored(SetDefaultAppend(index, keys[n].value, n), keys, n + 1)
  {
    var k := keys[n].value;
    var r := SetDefaultAppend(index, k, n);
    forall i | 0 <= i < n + 1 && keys[i].Some? ensures keys[i].value in r.entries && i in r.entries[keys[i].value] {
      if i < n && keys[i].value == k {
        assert i in index.entries[k];
      }
    }
  }

  lemma StepAscending(index: PositionIndex, keys: seq<Option<string>>, n: nat)
    requires n < |keys| && keys[n].Some? && index.Valid() && Ascending(index) && PositionsCarryKey(index, keys, n)
    ensures Ascending(SetDefaultAppend(index, keys[n].value, n))
  {
    var k := keys[n].value;
    var r := SetDefaultAppend(index, k, n);
    if k in index.entries {
      var s := index.entries[k];
      assert r.entries[k] == s + [n];
      assert forall j :: 0 <= j < |s| ==> s[j] < n;
    }
  }

  lemma StepKeysByFirstPosition(index: PositionIndex, keys: seq<Option<string>>, n: nat)
    requires n < |keys| && keys[n].Some? && index.Valid() && KeysByFirstPosition(index)
    requires KeysOccur(index, keys, n) && PositionsCarryKey(index, keys, n) && AllStored(index, keys, n)
    ensures KeysByFirstPosition(SetDefaultAppend(index, keys[n].value, n))
  {
    var k := keys[n].value;
    var r := SetDefaultAppend(index, k, n);
    forall a, b | 0 <= a < b < |r.keys|
      ensures r.entries[r.keys[a]] != [] && r.entries[r.keys[b]] != [] &&
              r.entries[r.keys[a]][0] < r.entries[r.keys[b]][0]
    {
      var ka := r.keys[a];
      assert ka in index.keys;
      var i :| 0 <= i < n && keys[i] == Some(ka);
      assert i in index.entries[ka];
      if b == |index.keys| {
        assert index.entries[ka][0] < n;
      } else {
        assert r.keys[b] in index.keys;
      }
    }
  }

  /** One step of a builder: position `n` is appended under its key, if it has one. */
  function AddPosition(index: PositionIndex, keys: seq<Option<string>>, n: nat): (r: PositionIndex)
    requires n < |keys| && index.Valid()
    ensures r.Valid()
  {
    if keys[n].Some? then SetDefaultAppend(index, keys[n].value, n) else index
  }

  /** The first `n` positions grouped one after the other, as the builders do. */
  function GroupedPrefix(keys: seq<Option<string>>, n: nat): (index: PositionIndex)
    requires n <= |keys|
    ensures index.Valid()
  {
    if n == 0 then Empty()
    else
      AddPosition(GroupedPrefix(keys, n - 1), keys, n - 1)
  }

  /** One more position is grouped by one more `setdefault(key, []).append(position)`. */
  lemma NextPrefix(keys: seq<Option<string>>, n: nat)
    requires n < |keys|
    ensures GroupedPrefix(keys, n + 1)
      == if keys[n].Some? then SetDefaultAppend(GroupedPrefix(keys, n), keys[n].value, n) else GroupedPrefix(keys, n)
  {
  }

  /** Grouping position after position establishes the grouping invariant. */
  lemma {:induction false} GroupedPrefixGroups(keys: seq<Option<string>>, n: nat)
    requires n <= |keys|
    ensures Groups(GroupedPrefix(keys, n), keys, n)
  {
    if n > 0 {
      var prev := GroupedPrefix(keys, n - 1);
      GroupedPrefixGroups(keys, n - 1);
      ghost var g := Groups(prev, keys, n - 1);
      assert g;
      GroupsStep(prev, keys, n - 1);
      assert GroupedPrefix(keys, n) == AddPosition(prev, keys, n - 1);
    }
  }


  /** The index `build_index(tokens)` returns. */
  function ExactIndex(tokens: seq<Token>): (index: PositionIndex)
    ensures index.Valid()
  {
    GroupedPrefix(ExactKeys(tokens), |tokens|)
  }

  /** The index `build_lemma_index(tokens)` returns. */
  function LemmaIndex(ext: ExternalLemmatizer, tokens: seq<Token>): (index: PositionIndex)
    ensures index.Valid()
  {
    GroupedPrefix(LemmaKeys(ext, tokens), |tokens|)
  }

  /** `build_index` groups the positions of the token stream by their exact keys. */
  lemma ExactIndexGroups(tokens: seq<Token>)
    ensures Groups(ExactIndex(tokens), ExactKeys(tokens), |tokens|)
  {
    GroupedPrefixGroups(ExactKeys(tokens), |tokens|);
  }

  /** `build_lemma_index` groups the positions of the token stream by their lemma keys. */
  lemma LemmaIndexGroups(ext: ExternalLemmatizer, tokens: seq<Token>)
    ensures Groups(LemmaIndex(ext, tokens), LemmaKeys(ext, tokens), |tokens|)
  {
    GroupedPrefixGroups(LemmaKeys(ext, tokens), |tokens|);
  }

  // ---------------------------------------------------------------- the builders

  /** `build_index(tokens)`: normalized word -> positions. */
  method BuildIndex(tokens: seq<Token>) returns (index: PositionIndex)
    ensures index == ExactIndex(tokens)
  {
    ghost var keys := ExactKeys(tokens);
    index := Empty();
    for i := 0 to |tokens|
      invariant index == GroupedPrefix(keys, i)
    {
      var key := ExactKey(tokens[i]);  // a word token with a non-empty `normalized`
      assert key == keys[i];
      NextPrefix(keys, i);
      if key.Some? {
        index := SetDefaultAppend<nat>(index, key.value, i);
      }
    }
  }

  /** `build_lemma_index(tokens)`: normalized lemma -> positions. */
  method BuildLemmaIndex(ext: ExternalLemmatizer, tokens: seq<Token>) returns (index: PositionIndex)
    ensures index == LemmaIndex(ext, tokens)
  {
    ghost var keys := LemmaKeys(ext, tokens);
    index := Empty();
    for i := 0 to |tokens|
      invariant index == GroupedPrefix(keys, i)
    {
      var key := LemmaKey(ext, tokens[i]);  // a non-empty word token, keyed by its normalized lemma
      assert key == keys[i];
      NextPrefix(keys, i);
      if key.Some? {
        index := SetDefaultAppend<nat>(index, key.value, i);
      }
    }
  }

  // ---------------------------------------------------------------- the indexes of a token stream

  /** In a token stream, a position has an exact key exactly when it is a word, and the key is its normal form. */
  lemma ExactKeysOfWellFormed(tokens: seq<Token>)
    requires WellFormed(tokens)
    ensures forall i :: 0 <= i < |tokens| ==>
              ExactKeys(tokens)[i] == if tokens[i].kind == WordKind then tokens[i].normalized else None
  {
    forall i | 0 <= i < |tokens| && tokens[i].kind == WordKind
      ensures ExactKeys(tokens)[i] == tokens[i].normalized
    {
      assert WellFormedToken(tokens[i]);
    }
  }

  /**
   * The exact index of a token stream: its keys are the normalized words and
   * nothing else (no separator text), every stored position is a word whose
   * `normalized` is the key, every word is stored, and positions ascend.
   */
  lemma ExactIndexWords(tokens: seq<Token>)
    requires WellFormed(tokens)
    ensures var index := ExactIndex(tokens);
      && (forall k :: k in index.entries <==>
            exists i :: 0 <= i < |tokens| && tokens[i].kind == WordKind && tokens[i].normalized == Some(k))
      && (forall k, p :: k in index.entries && p in index.entries[k] ==>
            0 <= p < |tokens| && tokens[p].kind == WordKind && tokens[p].normalized == Some(k))
      && (forall i :: 0 <= i < |tokens| && tokens[i].kind == WordKind ==>
            tokens[i].normalized.Some? && tokens[i].normalized.value in index.entries &&
            i in index.entries[tokens[i].normalized.value])
      && Ascending(index)
  {
    var keys := ExactKeys(tokens);
    ExactIndexGroups(tokens);
    ExactKeysOfWellFormed(tokens);
    var index := ExactIndex(tokens);
    forall k, p | k in index.entries && p in index.entries[k]
      ensures 0 <= p < |tokens| && tokens[p].kind == WordKind && tokens[p].normalized == Some(k)
    {
      var j :| 0 <= j < |index.entries[k]| && index.entries[k][j] == p;
    }
    forall i | 0 <= i < |tokens| && tokens[i].kind == WordKind ensures tokens[i].normalized.Some? {
      assert keys[i].Some?;
    }
  }

  /** The lemma key of position `i`, as the source computes it. */
  lemma LemmaKeyAt(ext: ExternalLemmatizer, tokens: seq<Token>, i: nat)
    requires i < |tokens|
    ensures LemmaKeys(ext, tokens)[i] ==
              if tokens[i].kind == WordKind && tokens[i].value != ""
              then Some(Normalize(LemmatizeWord(ext, Lower(tokens[i].value)))) else None
  {
  }

  /**
   * The lemma index puts every non-empty word position under
   * `normalize(lemmatize_word(value.lower()))`, and under no other key.
   */
  lemma LemmaIndexWords(ext: ExternalLemmatizer, tokens: seq<Token>, k: string, i: nat)
    requires k in LemmaIndex(ext, tokens).entries
    ensures i in LemmaIndex(ext, tokens).entries[k] <==>
              i < |tokens| && tokens[i].kind == WordKind && tokens[i].value != "" &&
              Normalize(LemmatizeWord(ext, Lower(tokens[i].value))) == k
  {
    LemmaIndexGroups(ext, tokens);
    GroupsMember(LemmaIndex(ext, tokens), LemmaKeys(ext, tokens), |tokens|, k, i);
    if i < |tokens| {
      LemmaKeyAt(ext, tokens, i);
    }
  }

  /** Every non-empty word has its lemma key in the lemma index. */
  lemma LemmaIndexCoversWords(ext: ExternalLemmatizer, tokens: seq<Token>, i: nat)
    requires i < |tokens| && tokens[i].kind == WordKind && tokens[i].value != ""
    ensures Normalize(LemmatizeWord(ext, Lower(tokens[i].value))) in LemmaIndex(ext, tokens).entries
  {
    LemmaIndexGroups(ext, tokens);
    LemmaKeyAt(ext, tokens, i);
  }

  /** No key of the exact index is empty, so every key can be looked up in the word-vector model. */
  lemma ExactIndexKeysNonEmpty(tokens: seq<Token>)
    ensures forall i :: 0 <= i < |ExactIndex(tokens).keys| ==> ExactIndex(tokens).keys[i] != ""
  {
    ExactIndexGroups(tokens);
    var index := ExactIndex(tokens);
    forall i | 0 <= i < |index.keys| ensures index.keys[i] != "" {
      var k := index.keys[i];
      assert k in index.entries;
      var j :| 0 <= j < |tokens| && ExactKeys(tokens)[j] == Some(k);
    }
  }

  /** A key of a grouping index has at least one position. */
  lemma GroupsNonEmpty(index: PositionIndex, keys: seq<Option<string>>, n: nat, k: string)
    requires n <= |keys| && Groups(index, keys, n) && k in index.entries
    ensures index.entries[k] != []
  {
    var i :| 0 <= i < n && keys[i] == Some(k);
    assert i in index.entries[k];
  }

  /** In a grouping index, the positions under `k` are exactly the positions keyed `k`. */
  lemma GroupsMember(index: PositionIndex, keys: seq<Option<string>>, n: nat, k: string, i: nat)
    requires n <= |keys| && Groups(index, keys, n) && k in index.entries
    ensures i in index.entries[k] <==> i < n && keys[i] == Some(k)
  {
    if i in index.entries[k] {
      var j :| 0 <= j < |index.entries[k]| && index.entries[k][j] == i;
    }
  }
}
