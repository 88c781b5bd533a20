/** The recursive dictionary merge `merge_dict`, with its conflict policy. */
module Merger {
  import opened Values

  /** Merge of a primary mapping `d1` with a secondary mapping `d2`: every key
      of either side is kept; a clash between two mappings is merged
      recursively; any other clash is won by `d1` unless `d1` holds the
      placeholder. */
  function Merge(d1: map<string, Value>, d2: map<string, Value>): (r: map<string, Value>)
    decreases Dict(d1)
    ensures r.Keys == d1.Keys + d2.Keys
  {
    map k | k in d1.Keys + d2.Keys ::
      if k !in d1 then d2[k]
      else if k !in d2 then d1[k]
      else if d1[k].Dict? && d2[k].Dict? then Dict(Merge(d1[k].d, d2[k].d))
      else if IsSentinel(d1[k]) then d2[k]
      else d1[k]
  }

  /** The conflict policy of the merge, key by key: a key of one side only
      keeps that side's value; a clash between two mappings is merged
      (keeping the keys of both); any other clash goes to `d1` unless `d1`
      holds the placeholder, in which case `d2` wins. */
  lemma MergePolicy(d1: map<string, Value>, d2: map<string, Value>)
    ensures forall k :: k in d2 && k !in d1 ==> Merge(d1, d2)[k] == d2[k]
    ensures forall k :: k in d1 && k !in d2 ==> Merge(d1, d2)[k] == d1[k]
    ensures forall k :: k in d1 && k in d2 && !(d1[k].Dict? && d2[k].Dict?) ==>
              Merge(d1, d2)[k] == (if IsSentinel(d1[k]) then d2[k] else d1[k])
    ensures forall k :: k in d1 && k in d2 && d1[k].Dict? && d2[k].Dict? ==>
              && Merge(d1, d2)[k] == Dict(Merge(d1[k].d, d2[k].d))
              && Merge(d1, d2)[k].d.Keys == d1[k].d.Keys + d2[k].d.Keys
  {
  }

  /** The loop of `merge_dict`: a fresh result filled key by key, in whatever
      order the key set is enumerated, recursing on nested mappings. */
  method MergeDict(d1: map<string, Value>, d2: map<string, Value>) returns (result: map<string, Value>)
    decreases Dict(d1)
    ensures result == Merge(d1, d2)
  {
    result := map[];
    var allKeys := d1.Keys + d2.Keys;
    var remaining := allKeys;
    while remaining != {}
      invariant remaining <= allKeys
      invariant result.Keys == allKeys - remaining
      invariant forall k :: k in result ==> result[k] == Merge(d1, d2)[k]
      decreases remaining
    {
      var key :| key in remaining;
      if key !in d1 {
        result := result[key := d2[key]];
      } else if key !in d2 {
        result := result[key := d1[key]];
      } else if d1[key].Dict? && d2[key].Dict? {
        var nested := MergeDict(d1[key].d, d2[key].d);
        result := result[key := Dict(nested)];
      } else if IsSentinel(d1[key]) {
        result := result[key := d2[key]];
      } else {
        result := result[key := d1[key]];
      }
      remaining := remaining - {key};
    }
  }

  /** A value in which no string anywhere is the placeholder. */
  predicate Settled(v: Value) {
    match v
    case Str(s) => s != Sentinel
    case Dict(d) => forall k :: k in d ==> Settled(d[k])
    case _ => true
  }

  /** `r` keeps every key of `d` and every non-mapping value of `d`; nested
      mappings are kept in the same sense, at every depth. */
  predicate Extends(r: map<string, Value>, d: map<string, Value>)
    decreases Dict(d)
  {
    forall k :: k in d ==>
      k in r &&
      (if d[k].Dict? then r[k].Dict? && Extends(r[k].d, d[k].d) else r[k] == d[k])
  }

  /** Merging with an empty secondary returns the primary unchanged. */
  lemma {:induction false} MergeEmptyRight(d: map<string, Value>)
    ensures Merge(d, map[]) == d
  {
  }

  /** Merging an empty primary returns the secondary unchanged. */
  lemma {:induction false} MergeEmptyLeft(d: map<string, Value>)
    ensures Merge(map[], d) == d
  {
  }

  /** Merging a mapping with itself changes nothing, at any depth. */
  lemma {:induction false} MergeSelf(d: map<string, Value>)
    decreases Dict(d)
    ensures Merge(d, d) == d
  {
    forall k | k in d && d[k].Dict?
      ensures Merge(d[k].d, d[k].d) == d[k].d
    {
      MergeSelf(d[k].d);
    }
  }

  /** With disjoint key sets the merge is the plain union of the two mappings. */
  lemma {:induction false} MergeDisjoint(d1: map<string, Value>, d2: map<string, Value>)
    requires d1.Keys !! d2.Keys
    ensures Merge(d1, d2) == d1 + d2
  {
  }

  /** The primary wins: when it holds no placeholder anywhere, everything it
      says survives the merge, at every depth. */
  lemma {:induction false} MergeKeepsSettledPrimary(d1: map<string, Value>, d2: map<string, Value>)
    requires forall k :: k in d1 ==> Settled(d1[k])
    decreases Dict(d1)
    ensures Extends(Merge(d1, d2), d1)
  {
    var r := Merge(d1, d2);
    forall k | k in d1
      ensures k in r && (if d1[k].Dict? then r[k].Dict? && Extends(r[k].d, d1[k].d) else r[k] == d1[k])
    {
      if d1[k].Dict? && k in d2 && d2[k].Dict? {
        MergeKeepsSettledPrimary(d1[k].d, d2[k].d);
      } else if d1[k].Dict? {
        ExtendsRefl(d1[k].d);
      }
    }
  }

  /** Every mapping extends itself. */
  lemma {:induction false} ExtendsRefl(d: map<string, Value>)
    decreases Dict(d)
    ensures Extends(d, d)
  {
    forall k | k in d && d[k].Dict?
      ensures Extends(d[k].d, d[k].d)
    {
      ExtendsRefl(d[k].d);
    }
  }

  /** Two nested mappings under one key are combined rather than one
      replacing the other. */
  lemma NestedExample()
    ensures Merge(map["k" := Dict(map["x" := Str("1")])], map["k" := Dict(map["y" := Str("2")])])["k"]
         == Dict(map["x" := Str("1"), "y" := Str("2")])
  {
  }
}
