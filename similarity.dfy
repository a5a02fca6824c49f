/**
 * Semantic similarity: unit word vectors from the loaded word-vector model, the
 * vocabulary embeddings computed once per puzzle, and the per-position scores of
 * a guess (cosine of unit vectors, rounded to three decimals) with the best score.
 *
 * The model is an `Embedder`: whether it is loaded, the vector it holds for a
 * word (if any) and the Euclidean norm of a vector. Dot products and rounding
 * are exact arithmetic on `real`.
 */
module Similarity {
  import opened Wrappers
  import opened Dicts

  type Vector = seq<real>

  /** The word-vector model as `_vec` sees it. */
  datatype Embedder = Embedder(loaded: bool, lookup: string -> Option<Vector>, norm: Vector -> real)

  /** One entry of the score list: a body position and the rounded score of its word. */
  datatype ScoredPos = ScoredPos(pos: nat, score: real)

  // ---------------------------------------------------------------- arithmetic

  function Scale(v: Vector, k: real): (r: Vector)
    ensures |r| == |v|
    ensures forall i :: 0 <= i < |v| ==> r[i] == v[i] * k
  {
    seq(|v|, i requires 0 <= i < |v| => v[i] * k)
  }

  /** `np.dot` of two 1-D arrays: `None` stands for the exception on a length mismatch. */
  function Dot(a: Vector, b: Vector): (r: Option<real>)
    ensures r.Some? <==> |a| == |b|
  {
    if |a| != |b| then None
    else if a == [] then Some(0.0)
    else Some(a[0] * b[0] + Dot(a[1..], b[1..]).value)
  }

  /** `round(x, 3)`: the nearest multiple of 0.001, ties to the even multiple. */
  function Round3(x: real): (r: real)
    ensures -0.0005 <= r - x <= 0.0005
    ensures (r * 1000.0).Floor as real == r * 1000.0
  {
    var y := x * 1000.0;
    var f := y.Floor;
    var frac := y - f as real;
    var n := if frac > 0.5 then f + 1 else if frac < 0.5 then f else if f % 2 == 0 then f else f + 1;
    n as real / 1000.0
  }

  // ---------------------------------------------------------------- _vec

  /**
   * `_vec(word)`: the unit vector of the word's first token. A word that spaCy
   * cuts into no token at all (the empty string) makes `nlp(word)[0]` raise,
   * which is why a word must be non-empty.
   */
  function Vec(e: Embedder, w: string): (r: Option<Vector>)
    requires w != ""
    ensures r.Some? <==> e.loaded && e.lookup(w).Some? && e.norm(e.lookup(w).value) != 0.0
    ensures r.Some? ==> |r.value| == |e.lookup(w).value|
    ensures r.Some? ==> forall i :: 0 <= i < |r.value| ==>
              r.value[i] * e.norm(e.lookup(w).value) == e.lookup(w).value[i]
  {
    if !e.loaded then None
    else match e.lookup(w)
      case None => None
      case Some(v) =>
        var n := e.norm(v);
        if n == 0.0 then None else Some(Scale(v, 1.0 / n))
  }

  // ---------------------------------------------------------------- precompute

  /** The words of `vocab[..n]` that have a vector, each with its unit vector. */
  function EmbedPrefix(e: Embedder, vocab: seq<string>, n: nat): (d: Dict<Vector>)
    requires n <= |vocab|
    requires forall i :: 0 <= i < |vocab| ==> vocab[i] != ""
    ensures d.Valid()
  {
    if n == 0 then Empty()
    else
      var d := EmbedPrefix(e, vocab, n - 1);
      var v := Vec(e, vocab[n - 1]);
      if v.Some? then Put(d, vocab[n - 1], v.value) else d
  }

  /** What `precompute(vocab)` returns. */
  function Embedded(e: Embedder, vocab: seq<string>): (d: Dict<Vector>)
    requires forall i :: 0 <= i < |vocab| ==> vocab[i] != ""
    ensures d.Valid()
  {
    if !e.loaded || vocab == [] then Empty() else EmbedPrefix(e, vocab, |vocab|)
  }

  /** `precompute(vocab)`: embed every vocabulary word that has a vector. */
  method Precompute(e: Embedder, vocab: seq<string>) returns (result: Dict<Vector>)
    requires forall i :: 0 <= i < |vocab| ==> vocab[i] != ""
    ensures result == Embedded(e, vocab)
  {
    if !e.loaded || vocab == [] {
      return Empty();
    }
    result := Empty();
    for i := 0 to |vocab|
      invariant result == EmbedPrefix(e, vocab, i)
    {
      var v := Vec(e, vocab[i]);
      if v.Some? {
        result := Put(result, vocab[i], v.value);
      }
    }
  }

  /** The keys of `EmbedPrefix` are the words of the prefix that have a vector, each with that vector. */
  lemma {:induction false} EmbedPrefixEntries(e: Embedder, vocab: seq<string>, n: nat)
    requires n <= |vocab|
    requires forall i :: 0 <= i < |vocab| ==> vocab[i] != ""
    ensures forall w :: w in EmbedPrefix(e, vocab, n).entries <==> w in vocab[..n] && Vec(e, w).Some?
    ensures forall w :: w in EmbedPrefix(e, vocab, n).entries ==> EmbedPrefix(e, vocab, n).entries[w] == Vec(e, w).value
  {
    if n > 0 {
      EmbedPrefixEntries(e, vocab, n - 1);
      assert vocab[..n] == vocab[..n - 1] + [vocab[n - 1]];
    }
  }

  /**
   * `precompute` keeps exactly the vocabulary words that have a vector, each with
   * its unit vector, and is empty when the model is not loaded or the vocabulary is empty.
   */
  lemma EmbeddedEntries(e: Embedder, vocab: seq<string>)
    requires forall i :: 0 <= i < |vocab| ==> vocab[i] != ""
    ensures forall w :: w in Embedded(e, vocab).entries <==> w in vocab && Vec(e, w).Some?
    ensures forall w :: w in Embedded(e, vocab).entries ==> Embedded(e, vocab).entries[w] == Vec(e, w).value
    ensures !e.loaded || vocab == [] ==> Embedded(e, vocab).keys == []
  {
    if e.loaded && vocab != [] {
      EmbedPrefixEntries(e, vocab, |vocab|);
      assert vocab[..|vocab|] == vocab;
    }
  }

  /** Over a vocabulary without repeats, the embedded words keep the vocabulary's order. */
  lemma {:induction false} EmbedPrefixOrder(e: Embedder, vocab: seq<string>, n: nat)
    requires n <= |vocab|
    requires forall i :: 0 <= i < |vocab| ==> vocab[i] != ""
    requires forall i, j :: 0 <= i < j < |vocab| ==> vocab[i] != vocab[j]
    ensures EmbedPrefix(e, vocab, n).keys == Kept(e, vocab[..n])
  {
    if n > 0 {
      EmbedPrefixOrder(e, vocab, n - 1);
      EmbedPrefixEntries(e, vocab, n - 1);
      assert vocab[..n] == vocab[..n - 1] + [vocab[n - 1]];
      KeptAppend(e, vocab[..n - 1], [vocab[n - 1]]);
      assert vocab[n - 1] !in vocab[..n - 1];
    }
  }

  /** The words of `words` that have a vector, in order. */
  function Kept(e: Embedder, words: seq<string>): (r: seq<string>)
    requires forall i :: 0 <= i < |words| ==> words[i] != ""
    ensures |r| <= |words|
  {
    if words == [] then []
    else (if Vec(e, words[0]).Some? then [words[0]] else []) + Kept(e, words[1..])
  }

  lemma {:induction false} KeptAppend(e: Embedder, a: seq<string>, b: seq<string>)
    requires forall i :: 0 <= i < |a| ==> a[i] != ""
    requires forall i :: 0 <= i < |b| ==> b[i] != ""
    ensures Kept(e, a + b) == Kept(e, a) + Kept(e, b)
  {
    if a == [] {
      assert a + b == b;
    } else {
      assert (a + b)[1..] == a[1..] + b;
      KeptAppend(e, a[1..], b);
    }
  }

  // ---------------------------------------------------------------- score_positions

  /** Every position of `positions`, with the same score. */
  function Expand(positions: seq<nat>, score: real): (r: seq<ScoredPos>)
    ensures |r| == |positions|
    ensures forall i :: 0 <= i < |r| ==> r[i] == ScoredPos(positions[i], score)
  {
    seq(|positions|, i requires 0 <= i < |positions| => ScoredPos(positions[i], score))
  }

  /**
   * The entries and the running best after the first `n` vocabulary embeddings,
   * or `None` when a dot product raised on the way.
   */
  function ScoredPrefix(emb: Dict<Vector>, gv: Vector, index: Dict<seq<nat>>, n: nat): Option<(seq<ScoredPos>, real)>
    requires emb.Valid() && n <= |emb.keys|
  {
    if n == 0 then Some(([], -1.0))
    else match ScoredPrefix(emb, gv, index, n - 1)
      case None => None
      case Some(acc) =>
        var w := emb.keys[n - 1];
        match Dot(emb.entries[w], gv)
        case None => None
        case Some(score) =>
          Some((acc.0 + Expand(index.Get(w, []), Round3(score)), if score > acc.1 then score else acc.1))
  }

  /**
   * `score_positions(guess_norm, vocab_embeddings, word_index)`: the scored
   * positions and the best score, `([], None)` in every degraded case.
   */
  function Scores(e: Embedder, emb: Dict<Vector>, index: Dict<seq<nat>>, guess: string): (seq<ScoredPos>, Option<real>)
    requires emb.Valid()
  {
    if !e.loaded || emb.keys == [] then ([], None)
    else if guess == "" then ([], None)  // `nlp("")[0]` raises; the handler answers ([], None)
    else match Vec(e, guess)
      case None => ([], None)
      case Some(gv) =>
        match ScoredPrefix(emb, gv, index, |emb.keys|)
        case None => ([], None)
        case Some(acc) => (acc.0, if acc.1 >= 0.0 then Some(acc.1) else None)
  }

  /** The scoring loop over the vocabulary embeddings, with its running maximum. */
  method ScorePositions(e: Embedder, emb: Dict<Vector>, index: Dict<seq<nat>>, guess: string)
    returns (result: seq<ScoredPos>, best: Option<real>)
    requires emb.Valid()
    ensures (result, best) == Scores(e, emb, index, guess)
  {
    if !e.loaded || emb.keys == [] || guess == "" {
      return [], None;
    }
    var gv := Vec(e, guess);
    if gv.None? {
      return [], None;
    }
    result := [];
    var top := -1.0;
    for n := 0 to |emb.keys|
      invariant ScoredPrefix(emb, gv.value, index, n) == Some((result, top))
    {
      var w := emb.keys[n];
      var score := Dot(emb.entries[w], gv.value);
      if score.None? {
        ScoredPrefixFailed(emb, gv.value, index, n + 1, |emb.keys|);
        return [], None;
      }
      if score.value > top {
        top := score.value;
      }
      var positions := index.Get(w, []);
      ghost var before := result;
      for j := 0 to |positions|
        invariant result == before + Expand(positions[..j], Round3(score.value))
      {
        result := result + [ScoredPos(positions[j], Round3(score.value))];
        assert positions[..j + 1] == positions[..j] + [positions[j]];
      }
      assert positions[..|positions|] == positions;
    }
    best := if top >= 0.0 then Some(top) else None;
  }

  /** Once a dot product has raised, the whole scoring fails. */
  lemma {:induction false} ScoredPrefixFailed(emb: Dict<Vector>, gv: Vector, index: Dict<seq<nat>>, n: nat, m: nat)
    requires emb.Valid() && 0 < n <= m <= |emb.keys|
    requires Dot(emb.entries[emb.keys[n - 1]], gv).None?
    ensures ScoredPrefix(emb, gv, index, m) == None
  {
    if m > n {
      ScoredPrefixFailed(emb, gv, index, n, m - 1);
    }
  }

  // ---------------------------------------------------------------- properties

  /** Over a vocabulary without repeats, `precompute` keeps the words with a vector in vocabulary order. */
  lemma EmbeddedOrder(e: Embedder, vocab: seq<string>)
    requires forall i :: 0 <= i < |vocab| ==> vocab[i] != ""
    requires forall i, j :: 0 <= i < j < |vocab| ==> vocab[i] != vocab[j]
    ensures Embedded(e, vocab).keys == Kept(e, vocab)
  {
    if e.loaded && vocab != [] {
      EmbedPrefixOrder(e, vocab, |vocab|);
      assert vocab[..|vocab|] == vocab;
    } else if vocab != [] {
      KeptNone(e, vocab);
    }
  }

  lemma {:induction false} KeptNone(e: Embedder, words: seq<string>)
    requires forall i :: 0 <= i < |words| ==> words[i] != ""
    requires !e.loaded
    ensures Kept(e, words) == []
  {
    if words != [] {
      KeptNone(e, words[1..]);
    }
  }

  /** Word `w` of the embeddings emits entry `x`: one of its positions, with its rounded score. */
  ghost predicate Emits(emb: Dict<Vector>, gv: Vector, index: Dict<seq<nat>>, w: string, x: ScoredPos) {
    && w in emb.entries
    && Dot(emb.entries[w], gv).Some?
    && x.pos in index.Get(w, [])
    && x.score == Round3(Dot(emb.entries[w], gv).value)
  }

  /** Every embedding has the dimension of the guess vector, so no dot product raises. */
  ghost predicate SameDimension(emb: Dict<Vector>, gv: Vector) {
    forall w :: w in emb.entries ==> |emb.entries[w]| == |gv|
  }

  /** The scoring of a prefix fails exactly when one of its dot products raises. */
  lemma {:induction false} ScoredPrefixSucceeds(emb: Dict<Vector>, gv: Vector, index: Dict<seq<nat>>, n: nat)
    requires emb.Valid() && n <= |emb.keys|
    ensures ScoredPrefix(emb, gv, index, n).Some? <==>
              forall i :: 0 <= i < n ==> |emb.entries[emb.keys[i]]| == |gv|
  {
    if n > 0 {
      ScoredPrefixSucceeds(emb, gv, index, n - 1);
    }
  }

  /** The running best is the largest score so far, or the initial -1.0. */
  lemma {:induction false} ScoredPrefixBest(emb: Dict<Vector>, gv: Vector, index: Dict<seq<nat>>, n: nat)
    requires emb.Valid() && n <= |emb.keys| && ScoredPrefix(emb, gv, index, n).Some?
    ensures var best := ScoredPrefix(emb, gv, index, n).value.1;
      && best >= -1.0
      && (forall i :: 0 <= i < n ==> Dot(emb.entries[emb.keys[i]], gv).Some? && Dot(emb.entries[emb.keys[i]], gv).value <= best)
      && (best == -1.0 || exists i :: 0 <= i < n && Dot(emb.entries[emb.keys[i]], gv) == Some(best))
  {
    if n > 0 {
      ScoredPrefixBest(emb, gv, index, n - 1);
    }
  }

  /** The entries of a prefix are exactly what its words emit. */
  lemma {:induction false} ScoredPrefixEntries(emb: Dict<Vector>, gv: Vector, index: Dict<seq<nat>>, n: nat)
    requires emb.Valid() && n <= |emb.keys| && ScoredPrefix(emb, gv, index, n).Some?
    ensures forall x :: x in ScoredPrefix(emb, gv, index, n).value.0 <==>
              exists i :: 0 <= i < n && Emits(emb, gv, index, emb.keys[i], x)
  {
    if n > 0 {
      ScoredPrefixEntries(emb, gv, index, n - 1);
      var w := emb.keys[n - 1];
      var acc := ScoredPrefix(emb, gv, index, n - 1).value;
      var tail := Expand(index.Get(w, []), Round3(Dot(emb.entries[w], gv).value));
      assert ScoredPrefix(emb, gv, index, n).value.0 == acc.0 + tail;
      forall x ensures x in tail <==> Emits(emb, gv, index, w, x) {
        if x in tail {
          var j :| 0 <= j < |tail| && tail[j] == x;
        }
        if Emits(emb, gv, index, w, x) {
          var j :| 0 <= j < |index.Get(w, [])| && index.Get(w, [])[j] == x.pos;
          assert tail[j] == x;
        }
      }
    }
  }

  /** The number of positions the first `n` vocabulary words have in the body index. */
  function PositionCount(emb: Dict<Vector>, index: Dict<seq<nat>>, n: nat): nat
    requires n <= |emb.keys|
  {
    if n == 0 then 0 else PositionCount(emb, index, n - 1) + |index.Get(emb.keys[n - 1], [])|
  }

  lemma {:induction false} PositionCountMonotone(emb: Dict<Vector>, index: Dict<seq<nat>>, m: nat, n: nat)
    requires m <= n <= |emb.keys|
    ensures PositionCount(emb, index, m) <= PositionCount(emb, index, n)
  {
    if m < n {
      PositionCountMonotone(emb, index, m, n - 1);
    }
  }

  /** One more vocabulary word appends the entries of its positions. */
  lemma ScoredPrefixStep(emb: Dict<Vector>, gv: Vector, index: Dict<seq<nat>>, n: nat)
    requires emb.Valid() && 0 < n <= |emb.keys| && ScoredPrefix(emb, gv, index, n).Some?
    ensures ScoredPrefix(emb, gv, index, n - 1).Some?
    ensures Dot(emb.entries[emb.keys[n - 1]], gv).Some?
    ensures ScoredPrefix(emb, gv, index, n).value.0 == ScoredPrefix(emb, gv, index, n - 1).value.0
              + Expand(index.Get(emb.keys[n - 1], []), Round3(Dot(emb.entries[emb.keys[n - 1]], gv).value))
  {
  }

  /** One scored entry per indexed position of the words scored so far. */
  lemma {:induction false} ScoredPrefixLength(emb: Dict<Vector>, gv: Vector, index: Dict<seq<nat>>, n: nat)
    requires emb.Valid() && n <= |emb.keys| && ScoredPrefix(emb, gv, index, n).Some?
    ensures |ScoredPrefix(emb, gv, index, n).value.0| == PositionCount(emb, index, n)
  {
    if n > 0 {
      ScoredPrefixStep(emb, gv, index, n);
      ScoredPrefixLength(emb, gv, index, n - 1);
    }
  }

  /**
   * The layout of the scored entries: the `j`-th position of the `i`-th
   * vocabulary word sits at `PositionCount(i) + j`, so the entries come word
   * after word in vocabulary order and, within a word, in body order.
   */
  lemma {:induction false} ScoredPrefixAt(emb: Dict<Vector>, gv: Vector, index: Dict<seq<nat>>, n: nat, i: nat, j: nat)
    requires emb.Valid() && n <= |emb.keys| && ScoredPrefix(emb, gv, index, n).Some?
    requires i < n && j < |index.Get(emb.keys[i], [])|
    ensures PositionCount(emb, index, i) + j < |ScoredPrefix(emb, gv, index, n).value.0|
    ensures Dot(emb.entries[emb.keys[i]], gv).Some?
    ensures ScoredPrefix(emb, gv, index, n).value.0[PositionCount(emb, index, i) + j]
              == ScoredPos(index.Get(emb.keys[i], [])[j], Round3(Dot(emb.entries[emb.keys[i]], gv).value))
  {
    ScoredPrefixStep(emb, gv, index, n);
    ScoredPrefixLength(emb, gv, index, n - 1);
    var acc := ScoredPrefix(emb, gv, index, n - 1).value.0;
    var entries := ScoredPrefix(emb, gv, index, n).value.0;
    if i < n - 1 {
      ScoredPrefixAt(emb, gv, index, n - 1, i, j);
      PositionCountMonotone(emb, index, i + 1, n - 1);
      assert entries[PositionCount(emb, index, i) + j] == acc[PositionCount(emb, index, i) + j];
    }
  }

  /**
   * `score_positions` answers `([], None)` when the model is not loaded, when
   * there are no embeddings, when the guess has no vector, and when a dot product raises.
   */
  lemma ScoresDegraded(e: Embedder, emb: Dict<Vector>, index: Dict<seq<nat>>, guess: string)
    requires emb.Valid()
    requires || !e.loaded || emb.keys == [] || guess == "" || Vec(e, guess).None?
             || !SameDimension(emb, Vec(e, guess).value)
    ensures Scores(e, emb, index, guess) == ([], None)
  {
    if e.loaded && emb.keys != [] && guess != "" && Vec(e, guess).Some? {
      var gv := Vec(e, guess).value;
      var w :| w in emb.entries && |emb.entries[w]| != |gv|;
      var i :| 0 <= i < |emb.keys| && emb.keys[i] == w;
      ScoredPrefixSucceeds(emb, gv, index, |emb.keys|);
    }
  }

  /**
   * Otherwise every position of every vocabulary word that has one is scored with
   * its word's rounded score, and nothing else is; the best is the largest score
   * over the vocabulary, reported only when it is not negative.
   */
  lemma ScoresComplete(e: Embedder, emb: Dict<Vector>, index: Dict<seq<nat>>, guess: string)
    requires emb.Valid() && e.loaded && emb.keys != [] && guess != ""
    requires Vec(e, guess).Some? && SameDimension(emb, Vec(e, guess).value)
    ensures var gv := Vec(e, guess).value;
      var (entries, best) := Scores(e, emb, index, guess);
      && (forall x :: x in entries <==> exists w :: Emits(emb, gv, index, w, x))
      && (best.Some? <==> exists w :: w in emb.entries && Dot(emb.entries[w], gv).value >= 0.0)
      && (best.Some? ==> forall w :: w in emb.entries ==> Dot(emb.entries[w], gv).value <= best.value)
      && (best.Some? ==> exists w :: w in emb.entries && Dot(emb.entries[w], gv) == best)
  {
    var gv := Vec(e, guess).value;
    var n := |emb.keys|;
    ScoredPrefixSucceeds(emb, gv, index, n);
    ScoredPrefixEntries(emb, gv, index, n);
    ScoredPrefixBest(emb, gv, index, n);
    var acc := ScoredPrefix(emb, gv, index, n).value;
    assert Scores(e, emb, index, guess) == (acc.0, if acc.1 >= 0.0 then Some(acc.1) else None);
    forall x ensures x in acc.0 <==> exists w :: Emits(emb, gv, index, w, x) {
      if w :| Emits(emb, gv, index, w, x) {
        var i :| 0 <= i < n && emb.keys[i] == w;
      }
    }
    forall w | w in emb.entries ensures Dot(emb.entries[w], gv).value <= acc.1 {
      var i :| 0 <= i < n && emb.keys[i] == w;
    }
    if w :| w in emb.entries && Dot(emb.entries[w], gv).value >= 0.0 {
      var i :| 0 <= i < n && emb.keys[i] == w;
    }
  }
}
