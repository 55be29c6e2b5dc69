/** `filters_by_family`, first half: the active filters grouped by column id
    with Ruby's `group_by`, whose hash keeps keys in insertion order and
    values in input order. `GroupBy` builds the hash the way `group_by`
    does, one filter at a time; `ColumnIds` and `OnColumn` say independently
    what it should hold, and `GroupByMatchesReference` proves they agree. */
module Grouping {
  import opened Results
  import opened FilterTypes
  import opened Collections

  /** One entry of the hash `group_by` builds: a column id and the filters on
      that column. */
  datatype Bucket = Bucket(key: string, members: seq<Filter>)

  /** Where the entry for `key` sits in the hash, if anywhere. */
  function KeyIndex(h: seq<Bucket>, key: string): (r: Option<nat>)
    ensures r.None? <==> forall i :: 0 <= i < |h| ==> h[i].key != key
    ensures r.Some? ==> r.value < |h| && h[r.value].key == key
  {
    if |h| == 0 then None
    else if h[0].key == key then Some(0)
    else
      match KeyIndex(h[1..], key)
      case None => None
      case Some(i) => Some(i + 1)
  }

  /** One step of `group_by`: append `f` to the entry of its column id, or
      open a new entry at the end when the id has none yet. */
  function Insert(h: seq<Bucket>, f: Filter): seq<Bucket> {
    match KeyIndex(h, f.column.id)
    case Some(i) => h[i := Bucket(h[i].key, h[i].members + [f])]
    case None => h + [Bucket(f.column.id, [f])]
  }

  /** `fs.group_by { _1.column.id }`: the hash after every filter has been
      inserted in order. */
  function GroupBy(fs: seq<Filter>): (h: seq<Bucket>)
    ensures |h| <= |fs|
    ensures forall i :: 0 <= i < |h| ==> |h[i].members| > 0
    ensures forall i, k :: 0 <= i < |h| && 0 <= k < |h[i].members| ==> h[i].members[k].column.id == h[i].key
  {
    if |fs| == 0 then []
    else
      var prev, f := GroupBy(fs[..|fs| - 1]), fs[|fs| - 1];
      match KeyIndex(prev, f.column.id)
      case Some(j) =>
        var b := Bucket(prev[j].key, prev[j].members + [f]);
        assert forall k :: 0 <= k < |b.members| ==> b.members[k].column.id == b.key by {
          forall k | 0 <= k < |b.members| ensures b.members[k].column.id == b.key {
            if k < |prev[j].members| { assert b.members[k] == prev[j].members[k]; }
          }
        }
        Insert(prev, f)
      case None => Insert(prev, f)
  }

  /** `.values` of the hash. */
  function Values(h: seq<Bucket>): (gs: seq<seq<Filter>>)
    ensures |gs| == |h| && forall i :: 0 <= i < |h| ==> gs[i] == h[i].members
  {
    if |h| == 0 then [] else [h[0].members] + Values(h[1..])
  }

  /** The groups of `filters_by_family`, before each is rendered. */
  function Groups(fs: seq<Filter>): seq<seq<Filter>> {
    Values(GroupBy(fs))
  }

  /** The sum of the group sizes. */
  function SumSizes(gs: seq<seq<Filter>>): nat {
    if |gs| == 0 then 0 else |gs[0]| + SumSizes(gs[1..])
  }

  // Reference definition of the grouping.

  /** The column ids of `fs`, each once, in order of first appearance. */
  function ColumnIds(fs: seq<Filter>): seq<string> {
    if |fs| == 0 then []
    else
      var ids := ColumnIds(fs[..|fs| - 1]);
      if fs[|fs| - 1].column.id in ids then ids else ids + [fs[|fs| - 1].column.id]
  }

  /** The filters of `fs` on column `id`, in input order. */
  function OnColumn(fs: seq<Filter>, id: string): seq<Filter> {
    if |fs| == 0 then []
    else OnColumn(fs[..|fs| - 1], id) + (if fs[|fs| - 1].column.id == id then [fs[|fs| - 1]] else [])
  }

  /** Every column id of the input appears in `ColumnIds`, and nothing else. */
  lemma {:induction false} ColumnIdsCover(fs: seq<Filter>)
    ensures forall id :: id in ColumnIds(fs) <==> exists i :: 0 <= i < |fs| && fs[i].column.id == id
  {
    if |fs| > 0 {
      var init := fs[..|fs| - 1];
      ColumnIdsCover(init);
      assert forall i :: 0 <= i < |init| ==> init[i] == fs[i];
    }
  }

  /** No column id is listed twice. */
  lemma {:induction false} ColumnIdsDistinct(fs: seq<Filter>)
    ensures forall i, j :: 0 <= i < j < |ColumnIds(fs)| ==> ColumnIds(fs)[i] != ColumnIds(fs)[j]
  {
    if |fs| > 0 {
      ColumnIdsDistinct(fs[..|fs| - 1]);
    }
  }

  /** Column ids are listed in order of first appearance: some filter on the
      i-th listed column comes before every filter on the j-th, for i < j. */
  lemma {:induction false} ColumnIdsFirstAppearance(fs: seq<Filter>, i: int, j: int)
    requires 0 <= i < j < |ColumnIds(fs)|
    ensures exists p :: 0 <= p < |fs| && fs[p].column.id == ColumnIds(fs)[i]
                        && forall q :: 0 <= q <= p ==> fs[q].column.id != ColumnIds(fs)[j]
  {
    var init, last := fs[..|fs| - 1], fs[|fs| - 1];
    var ids := ColumnIds(init);
    assert ColumnIds(fs) == if last.column.id in ids then ids else ids + [last.column.id];
    assert ColumnIds(fs)[i] == ids[i];
    if j < |ids| {
      assert ColumnIds(fs)[j] == ids[j];
      ColumnIdsFirstAppearance(init, i, j);
      var p :| 0 <= p < |init| && init[p].column.id == ids[i]
               && forall q :: 0 <= q <= p ==> init[q].column.id != ids[j];
      assert fs[p] == init[p];
      forall q | 0 <= q <= p ensures fs[q].column.id != ColumnIds(fs)[j] {
        assert fs[q] == init[q];
      }
    } else {
      ColumnIdsCover(init);
      assert ColumnIds(fs)[j] == last.column.id && last.column.id !in ids;
      assert ids[i] in ids;
      var p :| 0 <= p < |init| && init[p].column.id == ids[i];
      assert fs[p] == init[p];
      forall q | 0 <= q <= p ensures fs[q].column.id != ColumnIds(fs)[j] {
        assert fs[q] == init[q];
        assert init[q].column.id in ids;
      }
    }
  }

  /** The filters on a column are exactly the input's filters on it. */
  lemma {:induction false} OnColumnMembers(fs: seq<Filter>, id: string)
    ensures forall g :: g in OnColumn(fs, id) <==> g in fs && g.column.id == id
    ensures |OnColumn(fs, id)| > 0 <==> id in ColumnIds(fs)
  {
    if |fs| > 0 {
      var init := fs[..|fs| - 1];
      OnColumnMembers(init, id);
      assert fs == init + [fs[|fs| - 1]];
    }
  }

  /** `group_by` builds exactly the reference grouping: one entry per column
      id in order of first appearance, holding that column's filters in input
      order. */
  lemma {:induction false} GroupByMatchesReference(fs: seq<Filter>)
    ensures |GroupBy(fs)| == |ColumnIds(fs)|
    ensures forall i :: 0 <= i < |GroupBy(fs)| ==>
              GroupBy(fs)[i] == Bucket(ColumnIds(fs)[i], OnColumn(fs, ColumnIds(fs)[i]))
  {
    if |fs| > 0 {
      var init, last := fs[..|fs| - 1], fs[|fs| - 1];
      var h, ids := GroupBy(init), ColumnIds(init);
      var g, key := GroupBy(fs), last.column.id;
      assert g == Insert(h, last);
      GroupByMatchesReference(init);
      ColumnIdsDistinct(init);
      forall id ensures OnColumn(fs, id) == OnColumn(init, id) + (if key == id then [last] else []) {
      }
      match KeyIndex(h, key)
      case Some(j) =>
        assert ids[j] == key;
        assert ColumnIds(fs) == ids;
        assert g == h[j := Bucket(h[j].key, h[j].members + [last])];
        forall i | 0 <= i < |g| ensures g[i] == Bucket(ids[i], OnColumn(fs, ids[i])) {
          if i != j {
            assert ids[i] != ids[j];
          }
        }
      case None =>
        assert key !in ids by {
          forall i | 0 <= i < |ids| ensures ids[i] != key {
            assert h[i].key == ids[i];
          }
        }
        OnColumnMembers(init, key);
        assert OnColumn(init, key) == [];
        assert ColumnIds(fs) == ids + [key];
        assert g == h + [Bucket(key, [last])];
        forall i | 0 <= i < |g| ensures g[i] == Bucket(ColumnIds(fs)[i], OnColumn(fs, ColumnIds(fs)[i])) {
          if i < |h| {
            assert ids[i] != key;
          }
        }
    }
  }

  lemma {:induction false} FlattenGrowOne(gs: seq<seq<Filter>>, j: nat, f: Filter)
    requires j < |gs|
    ensures multiset(Flatten(gs[j := gs[j] + [f]])) == multiset(Flatten(gs)) + multiset{f}
  {
    if j > 0 {
      assert gs[j := gs[j] + [f]][1..] == gs[1..][j - 1 := gs[j] + [f]];
      FlattenGrowOne(gs[1..], j - 1, f);
    } else {
      assert gs[j := gs[j] + [f]][1..] == gs[1..];
    }
  }

  lemma {:induction false} ValuesAppend(h: seq<Bucket>, b: Bucket)
    ensures Values(h + [b]) == Values(h) + [b.members]
  {
  }

  /** Grouping only rearranges: the groups together hold exactly the input
      filters, each as often as in the input. */
  lemma {:induction false} GroupsArePermutation(fs: seq<Filter>)
    ensures multiset(Flatten(Groups(fs))) == multiset(fs)
    ensures |Flatten(Groups(fs))| == |fs|
  {
    if |fs| > 0 {
      var init, last := fs[..|fs| - 1], fs[|fs| - 1];
      var h := GroupBy(init);
      GroupsArePermutation(init);
      assert fs == init + [last];
      match KeyIndex(h, last.column.id)
      case Some(j) =>
        assert Values(Insert(h, last)) == Values(h)[j := Values(h)[j] + [last]];
        FlattenGrowOne(Values(h), j, last);
      case None =>
        ValuesAppend(h, Bucket(last.column.id, [last]));
        FlattenAppend(Values(h), [last]);
    }
    assert |multiset(Flatten(Groups(fs)))| == |Flatten(Groups(fs))|;
  }

  lemma {:induction false} SumSizesIsFlattenLength(gs: seq<seq<Filter>>)
    ensures SumSizes(gs) == |Flatten(gs)|
  {
    if |gs| > 0 {
      SumSizesIsFlattenLength(gs[1..]);
    }
  }

  /** The group sizes add up to the number of filters, and no group is
      empty. */
  lemma GroupSizes(fs: seq<Filter>)
    ensures SumSizes(Groups(fs)) == |fs|
    ensures forall i :: 0 <= i < |Groups(fs)| ==> |Groups(fs)[i]| > 0
  {
    GroupsArePermutation(fs);
    SumSizesIsFlattenLength(Groups(fs));
    GroupByMatchesReference(fs);
    forall i | 0 <= i < |Groups(fs)| ensures |Groups(fs)[i]| > 0 {
      OnColumnMembers(fs, ColumnIds(fs)[i]);
    }
  }

  /** Flattening the groups does not give back the input when columns are
      interleaved: with filters on columns a, b, a the a-filters come out
      together. */
  lemma FlattenReordersInterleavedColumns(a1: Filter, b1: Filter, a2: Filter)
    requires a1.column.id == a2.column.id != b1.column.id
    ensures Groups([a1, b1, a2]) == [[a1, a2], [b1]]
    ensures Flatten(Groups([a1, b1, a2])) == [a1, a2, b1]
  {
    var fs := [a1, b1, a2];
    var a, b := a1.column.id, b1.column.id;
    assert [a1][..0] == [];
    assert GroupBy([a1]) == [Bucket(a, [a1])];
    assert fs[..2] == [a1, b1] && [a1, b1][..1] == [a1];
    assert KeyIndex([Bucket(a, [a1])], b) == None;
    var h2 := [Bucket(a, [a1]), Bucket(b, [b1])];
    assert GroupBy([a1, b1]) == h2;
    assert KeyIndex(h2, a) == Some(0);
    var h3 := [Bucket(a, [a1, a2]), Bucket(b, [b1])];
    assert fs[..|fs| - 1] == [a1, b1] && fs[|fs| - 1] == a2;
    assert Insert(h2, a2) == h2[0 := Bucket(a, [a1] + [a2])];
    assert GroupBy(fs) == Insert(GroupBy([a1, b1]), a2);
    assert [a1] + [a2] == [a1, a2];
    assert h2[0 := Bucket(a, [a1] + [a2])][0] == h3[0];
    assert h2[0 := Bucket(a, [a1] + [a2])] == h3;
    assert Values(h3) == [[a1, a2], [b1]];
    assert Flatten([[b1]]) == [b1];
  }
}
