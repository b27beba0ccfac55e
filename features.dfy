/** The count features of `build_features` (cluster.py, lines 81-84): one row
    per name, one column per vocabulary n-gram. Scaling and principal
    component analysis of the matrix are not part of this model. */
module Features {
  import opened Text
  import opened Ngrams
  import opened Seqs

  /** The `build` lambda: the name's count of each vocabulary entry, in
      vocabulary order. */
  function Row(name: string, vocab: seq<string>): (row: seq<nat>)
    ensures |row| == |vocab|
  {
    seq(|vocab|, j requires 0 <= j < |vocab| => Count(name, vocab[j]))
  }

  /** `map(build, names)`: the feature matrix. */
  function Matrix(names: seq<string>, vocab: seq<string>): (x: seq<seq<nat>>)
    ensures |x| == |names|
    ensures forall i | 0 <= i < |x| :: |x[i]| == |vocab|
  {
    seq(|names|, i requires 0 <= i < |names| => Row(names[i], vocab))
  }

  /** What one entry of a row means: a non-overlapping count, positive
      exactly when the n-gram occurs in the name, never more than the
      name's length allows and never more than the overlapping count. */
  lemma RowEntry(name: string, vocab: seq<string>, j: int)
    requires 0 <= j < |vocab| && |vocab[j]| > 0
    ensures Row(name, vocab)[j] * |vocab[j]| <= |name|
    ensures Row(name, vocab)[j] > 0 <==> Occurs(vocab[j], name)
    ensures Row(name, vocab)[j] <= OverlappingCount(name, vocab[j])
  {
    CountPositiveIffOccurs(name, vocab[j]);
    CountAtMostOverlapping(name, vocab[j]);
  }

  /** A name shorter than N has an all-zero row over any vocabulary of
      n-grams. */
  lemma ShortNameRowIsZero(name: string, vocab: seq<string>)
    requires |name| < N
    requires forall j | 0 <= j < |vocab| :: |vocab[j]| == N
    ensures forall j | 0 <= j < |vocab| :: Row(name, vocab)[j] == 0
  {
  }

  /** Rows of the corpus "aaa", "aab", "xyz" over the vocabulary list
      aa, ab, xy, yz: the two overlapping "aa" in "aaa" are counted once. */
  lemma ExampleRows()
    ensures Row("aaa", ["aa", "ab", "xy", "yz"]) == [1, 0, 0, 0]
    ensures Row("aab", ["aa", "ab", "xy", "yz"]) == [1, 1, 0, 0]
    ensures Row("xyz", ["aa", "ab", "xy", "yz"]) == [0, 0, 1, 1]
  {
    OverlapCountedOnce();
    assert "aab"[..2] == "aa" && "aab"[2..] == "b";
    assert "aab"[1..] == "ab" && "ab"[..2] == "ab" && "ab"[2..] == "";
    assert "aaa"[1..] == "aa" && "aa"[1..] == "a";
    assert "xyz"[1..] == "yz" && "yz"[..2] == "yz" && "yz"[2..] == "";
    assert "xyz"[..2] == "xy" && "xyz"[2..] == "z";
  }

  /** Some row of `x` has a positive entry in column `j`. */
  predicate ColumnUsed(x: seq<seq<nat>>, j: int)
  {
    exists i | 0 <= i < |x| :: 0 <= j < |x[i]| && x[i][j] > 0
  }

  /** One entry of the matrix, as `RowEntry` describes it. */
  lemma MatrixEntry(names: seq<string>, vocab: seq<string>, i: int, j: int)
    requires 0 <= i < |names| && 0 <= j < |vocab| && |vocab[j]| == N
    ensures Matrix(names, vocab)[i][j] == Count(names[i], vocab[j])
    ensures Matrix(names, vocab)[i][j] * N <= |names[i]|
    ensures Matrix(names, vocab)[i][j] > 0 <==> Occurs(vocab[j], names[i])
  {
    RowEntry(names[i], vocab, j);
  }

  /** Lines 81-84 of `build_features`: the vocabulary list, then one row per
      name. Every entry is the non-overlapping count of its column's n-gram in
      its row's name, positive exactly when the n-gram occurs there, and every
      column is positive in some row, since the vocabulary comes from the same
      names. */
  method BuildCounts(names: seq<string>) returns (vocab: seq<string>, x: seq<seq<nat>>)
    ensures forall g :: g in vocab <==> g in Vocabulary(names)
    ensures Distinct(vocab)
    ensures |x| == |names|
    ensures forall i | 0 <= i < |x| :: |x[i]| == |vocab|
    ensures forall i, j | 0 <= i < |names| && 0 <= j < |vocab| ::
              x[i][j] == Count(names[i], vocab[j]) &&
              x[i][j] * N <= |names[i]| &&
              (x[i][j] > 0 <==> Occurs(vocab[j], names[i]))
    ensures forall j | 0 <= j < |vocab| :: ColumnUsed(x, j)
  {
    vocab := BuildNgrams(names);
    x := Matrix(names, vocab);
    forall i, j | 0 <= i < |names| && 0 <= j < |vocab|
      ensures x[i][j] == Count(names[i], vocab[j])
      ensures x[i][j] * N <= |names[i]|
      ensures x[i][j] > 0 <==> Occurs(vocab[j], names[i])
    {
      VocabularyMembership(names, vocab[j]);
      MatrixEntry(names, vocab, i, j);
    }
    forall j | 0 <= j < |vocab|
      ensures ColumnUsed(x, j)
    {
      VocabularyMembership(names, vocab[j]);
      var i :| 0 <= i < |names| && Occurs(vocab[j], names[i]);
      assert x[i][j] > 0;
    }
  }
}
