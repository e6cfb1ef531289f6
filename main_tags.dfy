/** The second tag dictionary, declared in `src/main.rs`: here `tag_set` maps a
    name to its id and count, and `vec` holds only the names, in id order. */
module MainTags {
  import opened Wrappers

  datatype TagData = TagData(idx: nat, count: nat)

  /** No name occurs twice in `vec`. */
  predicate DistinctNames(vec: seq<string>) {
    forall i, j | 0 <= i < j < |vec| :: vec[i] != vec[j]
  }

  /** The names of the first `n` entries of `vec`. */
  function NamesBelow(vec: seq<string>, n: nat): set<string>
    requires n <= |vec|
  {
    set i | 0 <= i < n :: vec[i]
  }

  /** Distinct names: the first `n` entries of `vec` hold `n` names. */
  lemma {:induction false} NamesBelowCount(vec: seq<string>, n: nat)
    requires n <= |vec| && DistinctNames(vec)
    ensures |NamesBelow(vec, n)| == n
  {
    if n > 0 {
      NamesBelowCount(vec, n - 1);
      assert NamesBelow(vec, n) == NamesBelow(vec, n - 1) + {vec[n - 1]};
    }
  }

  class Tags {
    var tagSet: map<string, TagData>
    var vec: seq<string>

    /** Every key's stored id points at its own name in `vec`, every name in
        `vec` is a key whose stored id is its position, and every tag has
        been added at least once. */
    ghost predicate Valid()
      reads this
    {
      (forall t | t in tagSet :: tagSet[t].idx < |vec| && vec[tagSet[t].idx] == t) &&
      (forall i | 0 <= i < |vec| :: vec[i] in tagSet && tagSet[vec[i]].idx == i) &&
      (forall t | t in tagSet :: tagSet[t].count >= 1)
    }

    /** `Tags::new`: no tags. */
    constructor New()
      ensures tagSet == map[] && vec == []
      ensures Valid()
    {
      tagSet, vec := map[], [];
    }

    /** `Tags::add_or_increment`: a known tag keeps its stored id and its
        stored count goes up by one; a new tag's name is pushed onto `vec`
        and stored with the old length as id and count 1. */
    method AddOrIncrement(tag: string) returns (idx: nat)
      requires Valid()
      modifies this
      ensures Valid()
      ensures tagSet.Keys == old(tagSet.Keys) + {tag}
      ensures old(tag in tagSet) ==>
        idx == old(tagSet[tag].idx) && vec == old(vec) &&
        tagSet == old(tagSet)[tag := TagData(idx, old(tagSet[tag].count) + 1)]
      ensures old(tag !in tagSet) ==>
        idx == old(|vec|) && vec == old(vec) + [tag] &&
        tagSet == old(tagSet)[tag := TagData(idx, 1)]
      ensures GetIdx(tag) == Some(idx) && GetName(idx) == Some(tag)
    {
      if tag in tagSet {
        var data := tagSet[tag];
        tagSet := tagSet[tag := data.(count := data.count + 1)];
        idx := data.idx;
      } else {
        vec := vec + [tag];
        idx := |vec| - 1;
        tagSet := tagSet[tag := TagData(idx, 1)];
      }
    }

    /** `Tags::get_idx`: the stored id of a known tag. */
    function GetIdx(tag: string): (r: Option<nat>)
      reads this
      ensures r.None? <==> tag !in tagSet
      ensures Valid() && r.Some? ==> r.value < |vec| && vec[r.value] == tag
    {
      if tag in tagSet then Some(tagSet[tag].idx) else None
    }

    /** `Tags::get_name`: the name at an id. */
    function GetName(idx: nat): (r: Option<string>)
      reads this
      ensures r.None? <==> idx >= |vec|
      ensures Valid() && r.Some? ==> r.value in tagSet && tagSet[r.value].idx == idx
    {
      if idx < |vec| then Some(vec[idx]) else None
    }

    /** `Tags::get_count`: the stored count of a known tag. */
    function GetCount(name: string): (r: Option<nat>)
      reads this
      ensures r.None? <==> name !in tagSet
      ensures Valid() && r.Some? ==> r.value >= 1
    {
      if name in tagSet then Some(tagSet[name].count) else None
    }

    /** `Tags::get_count_idx`: looks the name up by id, then its count by
        name. The `unwrap` of the second lookup cannot fail because of
        `Valid`. */
    function GetCountIdx(idx: nat): (r: Option<nat>)
      reads this
      requires Valid()
      ensures r.None? <==> idx >= |vec|
      ensures r.Some? ==> r.value >= 1
    {
      match GetName(idx)
      case Some(name) => Some(GetCount(name).value)
      case None => None
    }

    /** `Tags::len`: the number of distinct tags added. */
    function Len(): (n: nat)
      reads this
      ensures Valid() ==> n == |tagSet.Keys|
    {
      ValidCount();
      |vec|
    }

    /** Under `Valid`, `tag_set` has one key per entry of `vec`. */
    lemma ValidCount()
      ensures Valid() ==> |tagSet.Keys| == |vec|
    {
      if Valid() {
        assert DistinctNames(vec) by {
          forall i, j | 0 <= i < j < |vec| ensures vec[i] != vec[j] {
            assert tagSet[vec[i]].idx == i && tagSet[vec[j]].idx == j;
          }
        }
        NamesBelowCount(vec, |vec|);
        assert tagSet.Keys == NamesBelow(vec, |vec|) by {
          forall t | t in tagSet ensures t in NamesBelow(vec, |vec|) {
            assert vec[tagSet[t].idx] == t;
          }
        }
      }
    }

    /** `get_idx` and `get_name` are inverse: a name has id `i` exactly when
        `i` names it. */
    lemma IdxNameInverse(tag: string, i: nat)
      requires Valid()
      ensures GetIdx(tag) == Some(i) <==> GetName(i) == Some(tag)
    {
      if GetName(i) == Some(tag) {
        assert vec[i] == tag;
      }
    }

    /** The count by id is the count of the name at that id, and counting by
        name or by the name's id agree. */
    lemma CountByNameOrIdx(tag: string, i: nat)
      requires Valid()
      ensures i < |vec| ==> GetCountIdx(i) == GetCount(vec[i])
      ensures GetIdx(tag) == Some(i) ==> GetCountIdx(i) == GetCount(tag)
    {
    }
  }
}
