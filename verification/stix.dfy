/** The loader's view of an ATT&CK release: its `objects` array, the
    id-to-object index and the per-type counts. */
module Stix {
  import opened Wrappers
  import MapSum

  /** One STIX object, reduced to the keys the differ reads; an absent key is
      `None`. `kind` is the object's `type` key. */
  datatype StixObject = StixObject(
    id: Option<string>,
    kind: Option<string>,
    name: Option<string>,
    description: Option<string>,
    modified: Option<string>)

  /** The exceptions the comparison can raise once both files are loaded. */
  datatype Error =
    | MissingKey(key: string)   // KeyError on `obj['type']`
    | DivisionByZero            // `// len(common_ids)` with no common ids

  /** `{obj['id']: obj for obj in objects if 'id' in obj}`: objects without an
      id are skipped, and a later object with an id already seen replaces the
      earlier one. */
  function Index(objs: seq<StixObject>): (idx: map<string, StixObject>)
    ensures forall id :: id in idx <==> exists i | 0 <= i < |objs| :: objs[i].id == Some(id)
    ensures forall id | id in idx :: idx[id].id == Some(id)
    ensures |idx.Keys| <= |objs|
  {
    if |objs| == 0 then map[]
    else
      var init := objs[..|objs| - 1];
      var prev := Index(init);
      var o := objs[|objs| - 1];
      assert forall i | 0 <= i < |init| :: init[i] == objs[i];
      if o.id.Some? then
        assert |prev[o.id.value := o].Keys| <= |prev.Keys| + 1 by {
          assert prev[o.id.value := o].Keys == prev.Keys + {o.id.value};
        }
        prev[o.id.value := o]
      else prev
  }

  /** Each id maps to the last object carrying it. */
  lemma {:induction false} IndexKeepsLast(objs: seq<StixObject>, id: string)
    requires id in Index(objs)
    ensures exists i | 0 <= i < |objs| ::
              objs[i] == Index(objs)[id] && forall j | i < j < |objs| :: objs[j].id != Some(id)
  {
    var init := objs[..|objs| - 1];
    var o := objs[|objs| - 1];
    var last := |objs| - 1;
    if o.id == Some(id) {
      assert Index(objs)[id] == o;
      assert objs[last] == Index(objs)[id];
    } else {
      assert Index(objs)[id] == Index(init)[id];
      IndexKeepsLast(init, id);
      var i :| 0 <= i < |init| && init[i] == Index(init)[id] && forall j | i < j < |init| :: init[j].id != Some(id);
      forall j | i < j < |objs| ensures objs[j].id != Some(id) {
        if j < |init| { assert objs[j] == init[j]; }
      }
      assert objs[i] == Index(objs)[id];
    }
  }

  /** An object without an id is counted in the total but never indexed, so
      the total exceeds the size of the index. */
  lemma {:induction false} IndexSmallerWithoutId(objs: seq<StixObject>, k: nat)
    requires k < |objs| && objs[k].id.None?
    ensures |Index(objs).Keys| < |objs|
  {
    var init := objs[..|objs| - 1];
    var o := objs[|objs| - 1];
    if k == |objs| - 1 {
      assert Index(objs) == Index(init);
    } else {
      assert init[k] == objs[k];
      IndexSmallerWithoutId(init, k);
      if o.id.Some? {
        assert Index(objs).Keys == Index(init).Keys + {o.id.value};
      }
    }
  }

  /** `types[t]` of a `defaultdict(int)`: the count, or 0 for a type never seen. */
  function Count(counts: map<string, nat>, t: string): nat {
    if t in counts then counts[t] else 0
  }

  /** Reference definition: the number of objects whose type is `t`. */
  function Occurrences(objs: seq<StixObject>, t: string): nat {
    if |objs| == 0 then 0
    else Occurrences(objs[..|objs| - 1], t) + (if objs[|objs| - 1].kind == Some(t) then 1 else 0)
  }

  /** Every object has a `type` key. */
  predicate AllTyped(objs: seq<StixObject>) {
    forall i | 0 <= i < |objs| :: objs[i].kind.Some?
  }

  /** The counting loop `types[obj['type']] += 1` over every object, with or
      without an id; an object without a type raises KeyError. */
  function CountTypes(objs: seq<StixObject>): (r: Result<map<string, nat>, Error>)
    ensures r.Success? <==> AllTyped(objs)
    ensures r.Failure? ==> r.error == MissingKey("type")
    ensures r.Success? ==> forall t :: Count(r.value, t) == Occurrences(objs, t)
    ensures r.Success? ==> forall t | t in r.value :: r.value[t] > 0
    ensures r.Success? ==> MapSum.Sum(r.value) == |objs|
  {
    if |objs| == 0 then Success(map[])
    else
      var init := objs[..|objs| - 1];
      assert forall i | 0 <= i < |init| :: init[i] == objs[i];
      var prev :- CountTypes(init);
      var o := objs[|objs| - 1];
      if o.kind.None? then Failure(MissingKey("type"))
      else
        var t := o.kind.value;
        MapSum.SumUpdate(prev, t, Count(prev, t) + 1);
        Success(prev[t := Count(prev, t) + 1])
  }

  /** Once every object has a type, every indexed object has one. */
  lemma IndexTyped(objs: seq<StixObject>)
    requires AllTyped(objs)
    ensures forall id | id in Index(objs) :: Index(objs)[id].kind.Some?
  {
    forall id | id in Index(objs) ensures Index(objs)[id].kind.Some? {
      IndexKeepsLast(objs, id);
    }
  }
}
