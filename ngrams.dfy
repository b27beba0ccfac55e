/** The n-gram vocabulary of a corpus: `build_ngrams` in cluster.py. */
module Ngrams {
  import opened Text
  import opened Seqs

  /** Length of the n-grams (cluster.py's `N`). */
  const N: nat := 2

  /** The slice `name[i:i+N]` of the source's inner loop. */
  function NgramAt(name: string, i: int): string
    requires 0 <= i && i + N <= |name|
  {
    name[i..i + N]
  }

  /** The n-grams of one name: its slices of length N at every start
      position where one fits. */
  function NgramsOf(name: string): (r: set<string>)
    ensures forall g :: g in r ==> |g| == N
  {
    set i | 0 <= i && i + N <= |name| :: NgramAt(name, i)
  }

  /** The n-grams of every name, gathered name after name as the source's
      outer loop does. */
  function Vocabulary(names: seq<string>): (r: set<string>)
    ensures forall g :: g in r ==> |g| == N
    decreases |names|
  {
    if names == [] then {}
    else Vocabulary(names[..|names| - 1]) + NgramsOf(names[|names| - 1])
  }

  /** The n-grams of a name are exactly its substrings of length N. */
  lemma NgramsOfMembership(name: string, g: string)
    ensures g in NgramsOf(name) <==> |g| == N && Occurs(g, name)
  {
    if |g| == N && Occurs(g, name) {
      var i :| 0 <= i <= |name| - |g| && OccursAt(g, name, i);
      assert NgramAt(name, i) in NgramsOf(name);
    }
    if g in NgramsOf(name) {
      var i :| 0 <= i && i + N <= |name| && NgramAt(name, i) == g;
      assert OccursAt(g, name, i);
    }
  }

  /** The vocabulary holds every substring of length N of every name, and
      nothing else. */
  lemma {:induction false} VocabularyMembership(names: seq<string>, g: string)
    ensures g in Vocabulary(names) <==>
            |g| == N && exists k | 0 <= k < |names| :: Occurs(g, names[k])
    decreases |names|
  {
    if names != [] {
      var m := |names| - 1;
      var init := names[..m];
      VocabularyMembership(init, g);
      NgramsOfMembership(names[m], g);
      if g in Vocabulary(init) {
        var k :| 0 <= k < |init| && Occurs(g, init[k]);
        assert Occurs(g, names[k]);
      }
      if |g| == N && exists k | 0 <= k < |names| :: Occurs(g, names[k]) {
        var k :| 0 <= k < |names| && Occurs(g, names[k]);
        if k < m {
          assert Occurs(g, init[k]);
        }
      }
    }
  }

  /** A name shorter than N contributes nothing, so a corpus of such names
      (the empty corpus included) has an empty vocabulary. */
  lemma {:induction false} ShortNamesGiveEmptyVocabulary(names: seq<string>)
    requires forall k | 0 <= k < |names| :: |names[k]| < N
    ensures Vocabulary(names) == {}
    decreases |names|
  {
    if names != [] {
      var m := |names| - 1;
      ShortNamesGiveEmptyVocabulary(names[..m]);
      assert NgramsOf(names[m]) == {};
    }
  }

  /** The vocabulary of two corpora read one after the other is the union of
      their vocabularies, so the order of the names does not matter. */
  lemma {:induction false} VocabularyOfConcat(a: seq<string>, b: seq<string>)
    ensures Vocabulary(a + b) == Vocabulary(a) + Vocabulary(b)
    decreases |b|
  {
    if b == [] {
      assert a + b == a;
    } else {
      var m := |b| - 1;
      VocabularyOfConcat(a, b[..m]);
      assert (a + b)[..|a + b| - 1] == a + b[..m];
    }
  }

  /** The corpus "aaa", "aab", "xyz" has the vocabulary aa, ab, xy, yz. */
  lemma ExampleVocabulary()
    ensures Vocabulary(["aaa", "aab", "xyz"]) == {"aa", "ab", "xy", "yz"}
  {
    var names := ["aaa", "aab", "xyz"];
    assert NgramsOf("aaa") == {"aa"} by {
      assert NgramAt("aaa", 0) == "aa" && NgramAt("aaa", 1) == "aa";
    }
    assert NgramsOf("aab") == {"aa", "ab"} by {
      assert NgramAt("aab", 0) == "aa" && NgramAt("aab", 1) == "ab";
    }
    assert NgramsOf("xyz") == {"xy", "yz"} by {
      assert NgramAt("xyz", 0) == "xy" && NgramAt("xyz", 1) == "yz";
    }
    assert names[..2][..1] == ["aaa"];
    assert names[..2] == ["aaa", "aab"];
    assert ["aaa"][..0] == [];
  }

  /** `list(ngrams)`: the elements of a set, each once, in an order the
      caller cannot rely on. */
  method ListOfSet(s: set<string>) returns (r: seq<string>)
    ensures forall x :: x in r <==> x in s
    ensures Distinct(r)
    ensures |r| == |s|
  {
    r := [];
    var rest := s;
    while rest != {}
      invariant forall x :: x in s <==> x in r || x in rest
      invariant forall x :: x in r ==> x !in rest
      invariant Distinct(r)
      invariant |r| + |rest| == |s|
      decreases |rest|
    {
      var x :| x in rest;
      r := r + [x];
      rest := rest - {x};
    }
  }

  /** `build_ngrams`: every n-gram of every name, as a list without
      duplicates. */
  method BuildNgrams(names: seq<string>) returns (ngrams: seq<string>)
    ensures forall g :: g in ngrams <==> g in Vocabulary(names)
    ensures Distinct(ngrams)
    ensures |ngrams| == |Vocabulary(names)|
  {
    var found: set<string> := {};
    for k := 0 to |names|
      invariant found == Vocabulary(names[..k])
    {
      var name := names[k];
      var i := 0;
      while i < |name| - N + 1
        invariant 0 <= i
        invariant i <= |name| - N + 1 || i == 0
        invariant found == Vocabulary(names[..k]) + set j | 0 <= j < i :: NgramAt(name, j)
      {
        found := found + {NgramAt(name, i)};
        i := i + 1;
      }
      assert (set j | 0 <= j < i :: NgramAt(name, j)) == NgramsOf(name);
      assert names[..k + 1][..k] == names[..k];
    }
    assert names[..|names|] == names;
    ngrams := ListOfSet(found);
  }
}
