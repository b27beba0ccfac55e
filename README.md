# cluster: n-gram features and label grouping, in Dafny

`cluster.py` is a command-line utility that groups short strings, such as file
names or log lines, by character-level similarity. It builds the vocabulary of
all 2-grams of its input lines. It turns each line into a row of n-gram counts.
It then standardises each column of counts, projects the rows with principal
component analysis, and labels them with DBSCAN. Finally it groups the lines by label and reports how
many clusters it found. The noise label -1 is not counted as a cluster.

This project models the string and grouping logic around that numeric pipeline:

- `Text` (text.dfy): substring occurrence, and Python's `str.count`. The count
  is non-overlapping: the scan resumes after each match, so `"aaa".count("aa")`
  is 1. `OverlappingCount` counts every match position and serves as a
  reference for comparison.
- `Ngrams` (ngrams.dfy): `build_ngrams`. `BuildNgrams` is an imperative method
  with the source's nested loops. It adds slices to a set that it reassigns and
  converts that set to a list without duplicates. It is proved against the recursive
  specification `Vocabulary`, and the lemmas characterise that specification.
- `Features` (features.dfy): the `build` lambda and the row construction of
  `build_features`, as pure functions. The counts are naturals.
- `Clusters` (clusters.dfy): the one-pass grouping loop of `clusternames`,
  written as a method over a map that it reassigns. It is proved against the
  reference `Grouping`, built from `Members`, the input-order subsequence of
  names that carry a label. This module also has the cluster count of
  `print_clusters`.
- `Seqs` (seqs.dfy): the `Distinct` predicate shared by the modules.

The labels are an input sequence. They stand in for DBSCAN's output.

- **Counting.** `str.count` resumes the scan just after each match, so
  `"aaa".count("aa")` is 1 although "aa" starts at positions 0 and 1. The
  model computes 1 (`Text.OverlapCountedOnce`, `Features.ExampleRows`).
- **Pairing.** `izip` stops at the shorter input. `Zip` does the same, so
  `GroupByLabel` needs no precondition on the lengths. The clustering always
  supplies one label per name, and the lemmas that compare the groups with the
  names assume equal lengths.

## Model

| member | source | states |
|---|---|---|
| `Text.Count` | cluster.py:83 | `name.count(ngram)` with a non-empty n-gram: the count times the n-gram's length is at most the length of the name |
| `Text.CountPositiveIffOccurs` | cluster.py:83 | the count is positive if and only if the n-gram occurs somewhere in the name |
| `Text.CountAtMostOverlapping` | cluster.py:83 | the non-overlapping count never exceeds the number of positions where the n-gram starts |
| `Text.OverlapCountedOnce` | cluster.py:83 | `"aaa".count("aa")` is 1 even though "aa" starts at two positions of "aaa" |
| `Ngrams.NgramsOf` | cluster.py:55-56 | every n-gram taken from one name has length N |
| `Ngrams.Vocabulary` | cluster.py:53-56 | every element of the set gathered over all names has length N |
| `Ngrams.NgramsOfMembership` | cluster.py:55-56 | a string is among a name's n-grams if and only if it has length N and occurs in the name |
| `Ngrams.VocabularyMembership` | cluster.py:53-56 | a string is in the vocabulary if and only if it has length N and occurs in some name, so the vocabulary is exactly the set of length-N substrings of the corpus |
| `Ngrams.ShortNamesGiveEmptyVocabulary` | cluster.py:55 | when every name is shorter than N, including the empty corpus, the range is empty for each name and the vocabulary is empty |
| `Ngrams.VocabularyOfConcat` | cluster.py:54-56 | the vocabulary of two corpora read one after the other is the union of their vocabularies, so name order does not affect it |
| `Ngrams.ExampleVocabulary` | cluster.py:53-56 | the corpus "aaa", "aab", "xyz" has the vocabulary {aa, ab, xy, yz} |
| `Ngrams.ListOfSet` | cluster.py:57 | `list(ngrams)` holds exactly the set's elements, each once, so its length is the set's size |
| `Ngrams.BuildNgrams` | cluster.py:53-57 | the returned list holds exactly the vocabulary of the names, without duplicates; the loop invariants tie the mutated set to the vocabulary of the names seen so far |
| `Features.Row` | cluster.py:83 | a row has one entry per vocabulary item |
| `Features.Matrix` | cluster.py:84 | the matrix has one row per name and each row as many entries as the vocabulary |
| `Features.RowEntry` | cluster.py:83 | entry j of a name's row times the n-gram's length is at most the name's length; the entry is positive exactly when the n-gram occurs in the name; it is at most the overlapping count |
| `Features.ShortNameRowIsZero` | cluster.py:83 | a name shorter than N has an all-zero row over a vocabulary of n-grams |
| `Features.ExampleRows` | cluster.py:83-84 | over the vocabulary list aa, ab, xy, yz, the names "aaa", "aab" and "xyz" give the rows [1,0,0,0], [1,1,0,0] and [0,0,1,1] |
| `Features.MatrixEntry` | cluster.py:83-84 | entry (i, j) of the matrix is the count of vocabulary item j in name i, bounded by the name's length, and positive exactly when the item occurs in the name |
| `Features.BuildCounts` | cluster.py:81-84 | the vocabulary list is the duplicate-free vocabulary of the names; the matrix is names × vocabulary in shape; each entry is the non-overlapping count with count × N ≤ the name's length; an entry is positive if and only if the n-gram occurs; every column is positive in some row |
| `Clusters.Zip` | cluster.py:112 | `izip` pairs label i with name i, up to the length of the shorter input |
| `Clusters.Members` | cluster.py:111-113 | the names carrying one label are never more than the labelled names |
| `Clusters.MembersNonEmptyIffLabelled` | cluster.py:112-113 | a label's group is non-empty if and only if some name carries that label, so every key's list has a first element for the header at line 127 |
| `Clusters.GroupingSnoc` | cluster.py:113 | one more labelled name appends that name to the group of its own label and creates the group if it is missing (the `defaultdict`); every other group is unchanged |
| `Clusters.GroupOfGrouping` | cluster.py:111-113 | reading the `defaultdict` at any label, present or missing, gives that label's names in input order, and a label no name carries gives `[]` |
| `Clusters.Grouping` | cluster.py:111-114 | the dict `clusternames` returns: its keys are exactly the labels that occur, and every key's list is non-empty and no longer than the input |
| `Clusters.PrintedItems` | cluster.py:125-131 | the members printed when the groups are visited in the order `keys`: every visited group's members are printed, and every printed name belongs to some visited group |
| `Clusters.GroupByLabel` | cluster.py:111-113 | the map built by the loop is the reference grouping: its keys are the labels that occur, and each key maps to the names with that label in input order |
| `Clusters.MembersOfConcat` | cluster.py:112-113 | the group of a concatenated input is the group of the first part followed by the group of the second part, so each group keeps input order |
| `Clusters.NameInOwnGroup` | cluster.py:113 | every name's label is a key, and the name is in that key's group |
| `Clusters.GroupMemberIsLabelled` | cluster.py:113 | a name in the group of label l appears in the input with label l |
| `Clusters.GroupingPartitionsNames` | cluster.py:111-113 | for any duplicate-free order of keys that covers every label, the groups' members together equal the input names as a multiset |
| `Clusters.NamesOfZip` | cluster.py:112 | with one label per name, the names of the zipped pairs are the input names |
| `Clusters.ClusterCount` | cluster.py:133 | the number of keys, less one when -1 is a key, equals the number of keys other than -1 |
| `Clusters.ClusterCountOfGrouping` | cluster.py:133 | for the grouping of labelled names, the reported count is the number of distinct labels other than -1, and at most the number of names |

## Left out

- Scaling, principal component analysis and DBSCAN (cluster.py:86-87 and 108-109). These are floating-point routines inside scikit-learn, whose code is not part of this model. The labels are an input, and `N_COMPONENTS`, `EPSILON` and `MIN_SAMPLES` are therefore unused.
- Reading lines with `fileinput`, stripping them, and the `__main__` block (cluster.py:137-141). This is input/output. The names are an input sequence.
- The printing in `print_clusters` (cluster.py:125-134): the header text, the "[+] " prefix, the final summary line and the dictionary's iteration order. `PrintedItems` models the printed members for any key order. `ClusterCount` models the number in the summary line. `MembersNonEmptyIffLabelled` shows that `contents[0]` at line 127 always exists.
- The numpy arrays and the `float(...)` conversion (cluster.py:82-84). The counts are naturals.
- Python 2 strings are byte strings. The model uses `seq<char>`, and nothing in the modelled code depends on the encoding.
