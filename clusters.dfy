/** Grouping names by cluster label (`clusternames`, cluster.py lines
    111-113) and the cluster count printed by `print_clusters` (line 133).
    The labels stand for the clustering's output, one per name; -1 marks
    noise. */
module Clusters {
  import opened Seqs

  /** The label the clustering gives to points in no cluster. */
  const Noise: int := -1

  /** `izip(labels, names)`: the pairs, up to the end of the shorter input. */
  function Zip(labels: seq<int>, names: seq<string>): (pairs: seq<(int, string)>)
    ensures |pairs| == if |labels| < |names| then |labels| else |names|
    ensures forall i | 0 <= i < |pairs| :: pairs[i] == (labels[i], names[i])
  {
    var n := if |labels| < |names| then |labels| else |names|;
    seq(n, i requires 0 <= i < n => (labels[i], names[i]))
  }

  /** The names in `pairs`, in order. */
  function NamesOf(pairs: seq<(int, string)>): seq<string>
  {
    seq(|pairs|, i requires 0 <= i < |pairs| => pairs[i].1)
  }

  /** The labels that occur in `pairs`. */
  function LabelsOf(pairs: seq<(int, string)>): set<int>
  {
    set i | 0 <= i < |pairs| :: pairs[i].0
  }

  /** The names labelled `l`, in input order: the reference for what one
      group holds. */
  function Members(pairs: seq<(int, string)>, l: int): (group: seq<string>)
    ensures |group| <= |pairs|
    decreases |pairs|
  {
    if pairs == [] then []
    else
      var last := pairs[|pairs| - 1];
      Members(pairs[..|pairs| - 1], l) + (if last.0 == l then [last.1] else [])
  }

  /** The grouping the source builds: each label that occurs, mapped to its
      members. */
  function Grouping(pairs: seq<(int, string)>): (groups: map<int, seq<string>>)
    ensures groups.Keys == LabelsOf(pairs)
    ensures forall l | l in groups :: 0 < |groups[l]| <= |pairs|
  {
    assert forall l | l in LabelsOf(pairs) :: |Members(pairs, l)| > 0 by {
      forall l | l in LabelsOf(pairs)
        ensures |Members(pairs, l)| > 0
      {
        MembersNonEmptyIffLabelled(pairs, l);
      }
    }
    map l | l in LabelsOf(pairs) :: Members(pairs, l)
  }

  /** `ordered[label]` on a `defaultdict(list)`: a missing key reads as an
      empty list. */
  function GroupOf(groups: map<int, seq<string>>, l: int): seq<string>
  {
    if l in groups then groups[l] else []
  }

  /** One more labelled name adds its label to the labels seen. */
  lemma LabelsOfSnoc(pairs: seq<(int, string)>, p: (int, string))
    ensures LabelsOf(pairs + [p]) == LabelsOf(pairs) + {p.0}
  {
    var pairs' := pairs + [p];
    forall k | k in LabelsOf(pairs')
      ensures k in LabelsOf(pairs) + {p.0}
    {
      var i :| 0 <= i < |pairs'| && pairs'[i].0 == k;
      if i < |pairs| {
        assert pairs[i].0 == k;
      }
    }
    forall k | k in LabelsOf(pairs)
      ensures k in LabelsOf(pairs')
    {
      var i :| 0 <= i < |pairs| && pairs[i].0 == k;
      assert pairs'[i].0 == k;
    }
    assert pairs'[|pairs|].0 == p.0;
  }

  /** A label has a non-empty group exactly when some name carries it; in
      particular every group of the grouping is non-empty, so the first
      member that `print_clusters` names as a cluster's header exists. */
  lemma {:induction false} MembersNonEmptyIffLabelled(pairs: seq<(int, string)>, l: int)
    ensures |Members(pairs, l)| > 0 <==> l in LabelsOf(pairs)
    decreases |pairs|
  {
    if pairs != [] {
      var m := |pairs| - 1;
      MembersNonEmptyIffLabelled(pairs[..m], l);
      assert pairs == pairs[..m] + [pairs[m]];
      LabelsOfSnoc(pairs[..m], pairs[m]);
    }
  }

  /** Reading the grouping as the `defaultdict` is read, at any label,
      present or missing, gives that label's names in input order; a label no
      name carries gives the empty list. */
  lemma GroupOfGrouping(pairs: seq<(int, string)>, l: int)
    ensures GroupOf(Grouping(pairs), l) == Members(pairs, l)
    ensures l !in LabelsOf(pairs) ==> GroupOf(Grouping(pairs), l) == []
  {
  }

  /** One more labelled name extends the grouping exactly as the loop body
      does: the name is appended to the group of its own label, created if
      missing, and every other group is unchanged. */
  lemma GroupingSnoc(pairs: seq<(int, string)>, p: (int, string))
    ensures Grouping(pairs + [p]) ==
            Grouping(pairs)[p.0 := GroupOf(Grouping(pairs), p.0) + [p.1]]
  {
    var pairs' := pairs + [p];
    var before, after := Grouping(pairs), Grouping(pairs');
    var expected := before[p.0 := GroupOf(before, p.0) + [p.1]];
    LabelsOfSnoc(pairs, p);
    assert after.Keys == expected.Keys;
    forall l | l in after
      ensures after[l] == expected[l]
    {
      assert pairs'[..|pairs|] == pairs;
      assert after[l] == Members(pairs, l) + (if p.0 == l then [p.1] else []);
      if l == p.0 && l !in before {
        MembersNonEmptyIffLabelled(pairs, l);
      }
    }
  }

  /** `clusternames`, lines 111-113: one pass over the labelled names,
      appending each name to the list of its label. */
  method GroupByLabel(labels: seq<int>, names: seq<string>) returns (ordered: map<int, seq<string>>)
    ensures ordered == Grouping(Zip(labels, names))
  {
    var pairs := Zip(labels, names);
    ordered := map[];
    for k := 0 to |pairs|
      invariant ordered == Grouping(pairs[..k])
    {
      var cluster, name := pairs[k].0, pairs[k].1;
      GroupingSnoc(pairs[..k], pairs[k]);
      assert pairs[..k + 1] == pairs[..k] + [pairs[k]];
      ordered := ordered[cluster := GroupOf(ordered, cluster) + [name]];
    }
    assert pairs[..|pairs|] == pairs;
  }

  /** Groups of consecutive stretches of input concatenate: every name of an
      earlier stretch comes before every name of a later one, so each group
      keeps input order. */
  lemma {:induction false} MembersOfConcat(a: seq<(int, string)>, b: seq<(int, string)>, l: int)
    ensures Members(a + b, l) == Members(a, l) + Members(b, l)
    decreases |b|
  {
    if b == [] {
      assert a + b == a;
    } else {
      var m := |b| - 1;
      MembersOfConcat(a, b[..m], l);
      assert (a + b)[..|a + b| - 1] == a + b[..m];
    }
  }

  /** Each name lands in the group keyed by its own label. */
  lemma NameInOwnGroup(pairs: seq<(int, string)>, i: int)
    requires 0 <= i < |pairs|
    ensures pairs[i].0 in Grouping(pairs)
    ensures pairs[i].1 in Grouping(pairs)[pairs[i].0]
  {
    var p := pairs[i];
    assert pairs == pairs[..i] + ([p] + pairs[i + 1..]);
    MembersOfConcat(pairs[..i], [p] + pairs[i + 1..], p.0);
    MembersOfConcat([p], pairs[i + 1..], p.0);
    assert [p][..0] == [];
    assert Members([p], p.0) == [p.1];
  }

  /** A group holds only names that carry its label. */
  lemma {:induction false} GroupMemberIsLabelled(pairs: seq<(int, string)>, l: int, x: string)
    requires x in Members(pairs, l)
    ensures exists i | 0 <= i < |pairs| :: pairs[i] == (l, x)
    decreases |pairs|
  {
    var m := |pairs| - 1;
    if x in Members(pairs[..m], l) {
      GroupMemberIsLabelled(pairs[..m], l, x);
      var i :| 0 <= i < m && pairs[..m][i] == (l, x);
      assert pairs[i] == (l, x);
    } else {
      assert pairs[m] == (l, x);
    }
  }

  /** The item lines `print_clusters` writes (lines 125-131), without their
      "[+] " prefix, when it visits the groups in the order `keys`. */
  function PrintedItems(groups: map<int, seq<string>>, keys: seq<int>): (items: seq<string>)
    ensures forall i, x | 0 <= i < |keys| && x in GroupOf(groups, keys[i]) :: x in items
    ensures forall x | x in items :: exists i | 0 <= i < |keys| :: x in GroupOf(groups, keys[i])
    decreases |keys|
  {
    if keys == [] then []
    else
      var rest := PrintedItems(groups, keys[1..]);
      assert forall i | 1 <= i < |keys| :: keys[i] == keys[1..][i - 1];
      GroupOf(groups, keys[0]) + rest
  }

  /** With no groups nothing is printed. */
  lemma {:induction false} PrintedItemsOfNoGroups(keys: seq<int>)
    ensures PrintedItems(map[], keys) == []
    decreases |keys|
  {
    if keys != [] {
      PrintedItemsOfNoGroups(keys[1..]);
    }
  }

  /** Appending `x` to the group of `l` adds `x` once to what is printed,
      when `l` is visited, and changes nothing else. */
  lemma {:induction false} PrintedItemsAfterAppend(groups: map<int, seq<string>>, keys: seq<int>, l: int, x: string)
    requires Distinct(keys)
    ensures multiset(PrintedItems(groups[l := GroupOf(groups, l) + [x]], keys)) ==
            multiset(PrintedItems(groups, keys)) + (if l in keys then multiset{x} else multiset{})
    decreases |keys|
  {
    if keys != [] {
      var rest := keys[1..];
      assert Distinct(rest) by {
        forall a, b | 0 <= a < b < |rest|
          ensures rest[a] != rest[b]
        {
          assert rest[a] == keys[a + 1] && rest[b] == keys[b + 1];
        }
      }
      PrintedItemsAfterAppend(groups, rest, l, x);
      if keys[0] == l {
        assert l !in rest by {
          forall b | 0 <= b < |rest|
            ensures rest[b] != l
          {
            assert keys[0] != keys[b + 1];
          }
        }
      } else {
        assert l in keys <==> l in rest;
      }
    }
  }

  /** The grouping partitions the input: whatever order `print_clusters`
      visits the groups in, their members together are the input names, each
      as often as it was given. */
  lemma {:induction false} GroupingPartitionsNames(pairs: seq<(int, string)>, keys: seq<int>)
    requires Distinct(keys)
    requires forall l | l in LabelsOf(pairs) :: l in keys
    ensures multiset(PrintedItems(Grouping(pairs), keys)) == multiset(NamesOf(pairs))
    decreases |pairs|
  {
    if pairs == [] {
      assert Grouping(pairs) == map[];
      PrintedItemsOfNoGroups(keys);
    } else {
      var m := |pairs| - 1;
      var init, p := pairs[..m], pairs[m];
      assert pairs == init + [p];
      forall l | l in LabelsOf(init)
        ensures l in keys
      {
        var i :| 0 <= i < |init| && init[i].0 == l;
        assert pairs[i].0 == l;
      }
      GroupingPartitionsNames(init, keys);
      GroupingSnoc(init, p);
      PrintedItemsAfterAppend(Grouping(init), keys, p.0, p.1);
      assert p.0 in LabelsOf(pairs);
      assert NamesOf(pairs) == NamesOf(init) + [p.1] by {
        assert |NamesOf(pairs)| == |NamesOf(init) + [p.1]|;
        forall i | 0 <= i < |pairs|
          ensures NamesOf(pairs)[i] == (NamesOf(init) + [p.1])[i]
        {
          if i < m {
            assert NamesOf(init)[i] == init[i].1;
          }
        }
      }
    }
  }

  /** For labels and names of the same length, the names of the zipped pairs
      are the input names. */
  lemma NamesOfZip(labels: seq<int>, names: seq<string>)
    requires |labels| == |names|
    ensures NamesOf(Zip(labels, names)) == names
  {
  }

  /** Line 133: the number of groups, less one when the noise group is
      present. */
  function ClusterCount(groups: map<int, seq<string>>): (n: int)
    ensures n == |groups.Keys - {Noise}|
  {
    |groups| - (if Noise in groups then 1 else 0)
  }

  /** A corpus holds at most as many distinct labels as names. */
  lemma {:induction false} LabelsOfBound(pairs: seq<(int, string)>)
    ensures |LabelsOf(pairs)| <= |pairs|
    decreases |pairs|
  {
    if pairs != [] {
      var m := |pairs| - 1;
      LabelsOfBound(pairs[..m]);
      assert pairs == pairs[..m] + [pairs[m]];
      LabelsOfSnoc(pairs[..m], pairs[m]);
    }
  }

  /** The reported count is the number of distinct labels other than noise,
      and never more than the number of names. */
  lemma ClusterCountOfGrouping(labels: seq<int>, names: seq<string>)
    requires |labels| == |names|
    ensures ClusterCount(Grouping(Zip(labels, names))) ==
            |(set i | 0 <= i < |labels| :: labels[i]) - {Noise}|
    ensures ClusterCount(Grouping(Zip(labels, names))) <= |names|
  {
    var pairs := Zip(labels, names);
    assert LabelsOf(pairs) == set i | 0 <= i < |labels| :: labels[i];
    assert Grouping(pairs).Keys == LabelsOf(pairs);
    LabelsOfBound(pairs);
  }
}
