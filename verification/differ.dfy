/** The comparison of two indexed releases: new, removed, common and modified
    ids, and the new and removed ids grouped by type. */
module Differ {
  import opened Wrappers
  import opened Stix
  import MapSum

  /** The id sets of a comparison: `new_ids`, `removed_ids` and `common_ids`. */
  datatype Diff = Diff(added: set<string>, removed: set<string>, common: set<string>)

  /** `objects16[id_].get('modified') != objects17[id_].get('modified')`: an
      absent `modified` on both sides compares equal. */
  predicate ModifiedDiffers(before: StixObject, after: StixObject) {
    before.modified != after.modified
  }

  /** The three-way split of the ids of two releases. */
  function Compare(before: set<string>, after: set<string>): (d: Diff)
    ensures d.added !! d.removed && d.added !! d.common && d.removed !! d.common
    ensures d.added + d.common == after
    ensures d.removed + d.common == before
    ensures |d.added| - |d.removed| == |after| - |before|
  {
    SizeDifference(before, after);
    Diff(after - before, before - after, before * after)
  }

  /** The number of new ids minus the number of removed ids is the growth of
      the index. */
  lemma SizeDifference(before: set<string>, after: set<string>)
    ensures |after - before| - |before - after| == |after| - |before|
  {
    var common := before * after;
    DisjointUnionSize(after - before, common);
    assert (after - before) + common == after;
    DisjointUnionSize(before - after, common);
    assert (before - after) + common == before;
  }

  /** `modified_ids`: the common ids whose `modified` stamps differ. */
  function Modified(common: set<string>, before: map<string, StixObject>, after: map<string, StixObject>): (r: set<string>)
    requires common <= before.Keys && common <= after.Keys
    ensures r <= common
    ensures forall id | id in common :: id in r <==> ModifiedDiffers(before[id], after[id])
  {
    set id | id in common && ModifiedDiffers(before[id], after[id])
  }

  lemma DisjointUnionSize(a: set<string>, b: set<string>)
    requires a !! b
    ensures |a + b| == |a| + |b|
  {
    assert a * b == {};
  }

  /** `new_by_type` / `removed_by_type`: every id is listed once, in the group
      of its own object's type, and a group exists only if it is non-empty. */
  ghost predicate IsGrouping(groups: map<string, seq<string>>, ids: set<string>, index: map<string, StixObject>) {
    && ids <= index.Keys
    && (forall id | id in ids ::
          index[id].kind.Some? && index[id].kind.value in groups && id in groups[index[id].kind.value])
    && (forall t | t in groups :: |groups[t]| > 0)
    && (forall t, i | t in groups && 0 <= i < |groups[t]| ::
          groups[t][i] in ids && index[groups[t][i]].kind == Some(t))
    && (forall t, i, j | t in groups && 0 <= i < j < |groups[t]| :: groups[t][i] != groups[t][j])
  }

  /** The length of each group. */
  function Sizes(groups: map<string, seq<string>>): map<string, nat> {
    map t | t in groups :: |groups[t]|
  }

  /** The grouping loop. It walks a Python set, so the order inside a group is
      whatever order the walk takes; here the walk picks any remaining id. */
  method GroupByType(ids: set<string>, index: map<string, StixObject>)
    returns (groups: map<string, seq<string>>)
    requires ids <= index.Keys
    requires forall id | id in ids :: index[id].kind.Some?
    ensures IsGrouping(groups, ids, index)
    ensures MapSum.Sum(Sizes(groups)) == |ids|
  {
    groups := map[];
    var todo := ids;
    ghost var done: set<string> := {};
    MapSum.SumEmpty(Sizes(groups));
    while todo != {}
      invariant todo + done == ids && todo !! done
      invariant IsGrouping(groups, done, index)
      invariant MapSum.Sum(Sizes(groups)) == |done|
      decreases |todo|
    {
      var id :| id in todo;
      var t := index[id].kind.value;
      var group := if t in groups then groups[t] else [];
      GroupingAppend(groups, done, index, id);
      SizesAppend(groups, t, group + [id]);
      groups := groups[t := group + [id]];
      MoveOne(ids, todo, done, id);
      todo := todo - {id};
      done := done + {id};
    }
  }

  /** Moving one id from the remaining ids to the handled ones keeps the
      partition of `ids`. */
  lemma MoveOne(ids: set<string>, todo: set<string>, done: set<string>, id: string)
    requires todo + done == ids && todo !! done && id in todo
    ensures (todo - {id}) + (done + {id}) == ids && (todo - {id}) !! (done + {id})
  {
  }

  /** Growing one group by one element grows the total size by one. */
  lemma SizesAppend(groups: map<string, seq<string>>, t: string, group: seq<string>)
    requires |group| == (if t in groups then |groups[t]| else 0) + 1
    ensures MapSum.Sum(Sizes(groups[t := group])) == MapSum.Sum(Sizes(groups)) + 1
  {
    MapSum.SumUpdate(Sizes(groups), t, |group|);
    assert Sizes(groups[t := group]) == Sizes(groups)[t := |group|];
  }

  /** Appending a new id to the group of its type keeps a grouping. */
  lemma GroupingAppend(groups: map<string, seq<string>>, done: set<string>,
                       index: map<string, StixObject>, id: string)
    requires IsGrouping(groups, done, index)
    requires id in index && id !in done && index[id].kind.Some?
    ensures var t := index[id].kind.value;
            var group := if t in groups then groups[t] else [];
            IsGrouping(groups[t := group + [id]], done + {id}, index)
  {
    var t := index[id].kind.value;
    var group := if t in groups then groups[t] else [];
    var g := groups[t := group + [id]];
    var ids := done + {id};
    forall x | x in ids
      ensures index[x].kind.Some? && index[x].kind.value in g && x in g[index[x].kind.value]
    {
      if x != id && index[x].kind.value == t {
        assert x in group;
      }
    }
    forall u, i | u in g && 0 <= i < |g[u]|
      ensures g[u][i] in ids && index[g[u][i]].kind == Some(u)
    {
      if u == t && i < |group| {
        assert g[u][i] == group[i];
      }
    }
    forall u, i, j | u in g && 0 <= i < j < |g[u]| ensures g[u][i] != g[u][j] {
      if u == t {
        if j < |group| {
          assert g[u][i] == group[i] && g[u][j] == group[j];
        } else {
          assert g[u][j] == id;
          assert g[u][i] == group[i];
        }
      }
    }
  }

  /** The number of objects of type `t` in a grouping (`len(by_type.get(t, []))`). */
  function GroupSize(groups: map<string, seq<string>>, t: string): nat {
    if t in groups then |groups[t]| else 0
  }

  /** The ids among `ids` whose object has type `t`. */
  function OfType(ids: set<string>, index: map<string, StixObject>, t: string): set<string>
    requires ids <= index.Keys
  {
    set id | id in ids && index[id].kind == Some(t)
  }

  /** The distinct elements of a sequence. */
  function Elements(s: seq<string>): set<string> {
    set i | 0 <= i < |s| :: s[i]
  }

  /** A sequence without repetitions has as many elements as its length. */
  lemma {:induction false} DistinctCard(s: seq<string>)
    requires forall i, j | 0 <= i < j < |s| :: s[i] != s[j]
    ensures |Elements(s)| == |s|
  {
    if |s| > 0 {
      var init := s[..|s| - 1];
      DistinctCard(init);
      assert Elements(s) == Elements(init) + {s[|s| - 1]};
      assert s[|s| - 1] !in Elements(init);
    }
  }

  /** Each group holds exactly the ids of its type, so its size is the number
      of those ids, and a group exists exactly when there is one. */
  lemma GroupSizeIsCount(groups: map<string, seq<string>>, ids: set<string>, index: map<string, StixObject>, t: string)
    requires IsGrouping(groups, ids, index)
    ensures GroupSize(groups, t) == |OfType(ids, index, t)|
    ensures t in groups <==> OfType(ids, index, t) != {}
  {
    if t in groups {
      var g := groups[t];
      assert Elements(g) == OfType(ids, index, t);
      DistinctCard(g);
      assert g[0] in OfType(ids, index, t);
    } else {
      assert OfType(ids, index, t) == {};
    }
  }
}
