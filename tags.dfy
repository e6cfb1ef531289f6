/** The tag dictionary `Tags` of `src/tags.rs`: an interning table that hands
    out dense ids in first-seen order and counts how often each tag was
    added. `tag_set` maps a name to its position in `vec`; `vec` holds each
    tag's name and count. */
module Tags {
  import opened Wrappers

  datatype TagData = TagData(name: string, count: nat)

  /** The names of the first `n` entries of `vec`. */
  function NamesBelow(vec: seq<TagData>, n: nat): set<string>
    requires n <= |vec|
  {
    set i | 0 <= i < n :: vec[i].name
  }

  /** No name occurs twice in `vec`. */
  predicate DistinctNames(vec: seq<TagData>) {
    forall i, j | 0 <= i < j < |vec| :: vec[i].name != vec[j].name
  }

  /** Distinct names: the first `n` entries of `vec` hold `n` names. */
  lemma {:induction false} NamesBelowCount(vec: seq<TagData>, n: nat)
    requires n <= |vec| && DistinctNames(vec)
    ensures |NamesBelow(vec, n)| == n
  {
    if n > 0 {
      NamesBelowCount(vec, n - 1);
      assert NamesBelow(vec, n) == NamesBelow(vec, n - 1) + {vec[n - 1].name};
    }
  }

  class Tags {
    var tagSet: map<string, nat>
    var vec: seq<TagData>

    /** `tag_set` and `vec` are inverse: every key names the entry at its
        position, and every entry's name is a key mapped to that entry's
        position. So the positions are exactly `0..len`. */
    ghost predicate Indexed()
      reads this
    {
      (forall t | t in tagSet :: tagSet[t] < |vec| && vec[tagSet[t]].name == t) &&
      (forall i | 0 <= i < |vec| :: vec[i].name in tagSet && tagSet[vec[i].name] == i)
    }

    /** Every key of `tag_set` points at an entry of `vec` holding its name.
        This is all `get_count` relies on, and it survives a `vec` with a
        repeated name. */
    ghost predicate KeysInRange()
      reads this
    {
      forall t | t in tagSet :: tagSet[t] < |vec| && vec[tagSet[t]].name == t
    }

    /** `Indexed`, and every tag has been added at least once. */
    ghost predicate Valid()
      reads this
    {
      Indexed() && forall i | 0 <= i < |vec| :: vec[i].count >= 1
    }

    /** `Tags::new`: no tags. */
    constructor New()
      ensures tagSet == map[] && vec == []
      ensures Valid()
    {
      tagSet, vec := map[], [];
    }

    /** `Tags::add_or_increment`: a known tag keeps its id and its count goes
        up by one; a new tag is appended with count 1 and gets the old
        length as its id. Either way the id and the name now find each
        other. */
    method AddOrIncrement(tag: string) returns (idx: nat)
      requires Valid()
      modifies this
      ensures Valid()
      ensures tagSet.Keys == old(tagSet.Keys) + {tag}
      ensures old(tag in tagSet) ==>
        idx == old(tagSet[tag]) && tagSet == old(tagSet) &&
        vec == old(vec)[idx := TagData(tag, old(vec[idx].count) + 1)]
      ensures old(tag !in tagSet) ==>
        idx == old(|vec|) && tagSet == old(tagSet)[tag := idx] &&
        vec == old(vec) + [TagData(tag, 1)]
      ensures GetIdx(tag) == Some(idx) && GetName(idx) == Some(tag)
    {
      if tag in tagSet {
        idx := tagSet[tag];
        vec := vec[idx := vec[idx].(count := vec[idx].count + 1)];
      } else {
        vec := vec + [TagData(tag, 1)];
        idx := |vec| - 1;
        tagSet := tagSet[tag := idx];
      }
    }

    /** `Tags::get_idx`: the id of a known tag. */
    function GetIdx(tag: string): (r: Option<nat>)
      reads this
      ensures r.None? <==> tag !in tagSet
      ensures Valid() && r.Some? ==> r.value < |vec| && vec[r.value].name == tag
    {
      if tag in tagSet then Some(tagSet[tag]) else None
    }

    /** `Tags::get_name`: the name stored at an id. */
    function GetName(idx: nat): (r: Option<string>)
      reads this
      ensures r.None? <==> idx >= |vec|
      ensures Valid() && r.Some? ==> r.value in tagSet && tagSet[r.value] == idx
    {
      if idx < |vec| then Some(vec[idx].name) else None
    }

    /** `Tags::get_count`: the count of a known tag. */
    function GetCount(name: string): (r: Option<nat>)
      reads this
      requires KeysInRange()
      ensures r.None? <==> name !in tagSet
      ensures Valid() && r.Some? ==> r.value >= 1
    {
      if name in tagSet then Some(vec[tagSet[name]].count) else None
    }

    /** `Tags::get_count_idx`: the count stored at an id. */
    function GetCountIdx(idx: nat): (r: Option<nat>)
      reads this
      ensures r.None? <==> idx >= |vec|
      ensures Valid() && r.Some? ==> r.value >= 1
    {
      if idx < |vec| then Some(vec[idx].count) else None
    }

    /** `Tags::len`: the number of distinct tags. */
    function Len(): (n: nat)
      reads this
      ensures Indexed() ==> n == |tagSet.Keys|
    {
      IndexedCount();
      |vec|
    }

    /** Under `Indexed`, `tag_set` has one key per entry of `vec`. */
    lemma IndexedCount()
      ensures Indexed() ==> |tagSet.Keys| == |vec|
    {
      if Indexed() {
        assert DistinctNames(vec) by {
          forall i, j | 0 <= i < j < |vec| ensures vec[i].name != vec[j].name {
            assert tagSet[vec[i].name] == i && tagSet[vec[j].name] == j;
          }
        }
        NamesBelowCount(vec, |vec|);
        assert tagSet.Keys == NamesBelow(vec, |vec|) by {
          forall t | t in tagSet ensures t in NamesBelow(vec, |vec|) {
            assert vec[tagSet[t]].name == t;
          }
        }
      }
    }

    /** `get_idx` and `get_name` are inverse: a name has id `i` exactly when
        `i` names it. */
    lemma IdxNameInverse(tag: string, i: nat)
      requires Indexed()
      ensures GetIdx(tag) == Some(i) <==> GetName(i) == Some(tag)
    {
      if GetName(i) == Some(tag) {
        assert vec[i].name == tag;
      }
    }

    /** Counting by name and by id agree. */
    lemma CountByNameOrIdx(tag: string, i: nat)
      requires Indexed() && GetIdx(tag) == Some(i)
      ensures GetCount(tag) == GetCountIdx(i)
    {
    }

    /** The rebuilt `Tags` of the `Deserialize` impl: the serialized `tag_set`
        is ignored, `vec` is kept and `tag_set` is rebuilt from it. Every key
        points at an entry holding its name, the last such entry, so
        `get_count` stays callable even on a repeated name. With distinct
        names the two are inverse again. */
    static method Deserialize(serializedTagSet: map<string, nat>, vec: seq<TagData>) returns (t: Tags)
      ensures fresh(t) && t.vec == vec
      ensures t.tagSet.Keys == NamesBelow(vec, |vec|) && t.KeysInRange()
      ensures forall i | 0 <= i < |vec| :: i <= t.tagSet[vec[i].name]
      ensures DistinctNames(vec) ==> t.Indexed()
      ensures DistinctNames(vec) && (forall i | 0 <= i < |vec| :: vec[i].count >= 1) ==> t.Valid()
    {
      var tagSet := RebuildTagSet(vec);
      t := new Tags.New();
      t.tagSet, t.vec := tagSet, vec;
    }
  }

  /** The loop of the `Deserialize` impl: for each position of `vec`, insert
      its name with that position. A later duplicate overwrites an earlier
      one, so every name maps to its last position. */
  method RebuildTagSet(vec: seq<TagData>) returns (tagSet: map<string, nat>)
    ensures tagSet.Keys == NamesBelow(vec, |vec|)
    ensures forall t | t in tagSet :: tagSet[t] < |vec| && vec[tagSet[t]].name == t
    ensures forall i | 0 <= i < |vec| :: i <= tagSet[vec[i].name]
    ensures DistinctNames(vec) ==> forall i | 0 <= i < |vec| :: tagSet[vec[i].name] == i
  {
    tagSet := map[];
    for idx := 0 to |vec|
      invariant tagSet.Keys == NamesBelow(vec, idx)
      invariant forall t | t in tagSet :: tagSet[t] < idx && vec[tagSet[t]].name == t
      invariant forall i | 0 <= i < idx :: i <= tagSet[vec[i].name]
    {
      var tag := vec[idx].name;
      tagSet := tagSet[tag := idx];
    }
  }
}
