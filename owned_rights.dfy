/** Map reveal-merge: key-ordered lock-step merge of two maps from owned
    right types to assignment vectors. */
module OwnedRightsMerge {
  import opened RevealErrors
  import opened OwnedStates
  import opened AssignmentsMerge

  /** The key of an owned-rights map (`usize` in the source's tests). Only
      the order of keys matters to the merge, so the width is not modelled. */
  type RightType = nat

  /** `OwnedRightsInner`, a `BTreeMap<OwnedRightType, Assignments>`, held as
      its list of entries in iteration (ascending key) order. */
  type OwnedRights<S, A, CS, CA> = seq<(RightType, Assignments<S, A, CS, CA>)>

  datatype Option<T> = None | Some(value: T)

  /** The ordering invariant of a `BTreeMap`. */
  ghost predicate KeysAscending<S, A, CS, CA>(m: OwnedRights<S, A, CS, CA>)
  {
    forall i, j :: 0 <= i < j < |m| ==> m[i].0 < m[j].0
  }

  function Keys<S, A, CS, CA>(m: OwnedRights<S, A, CS, CA>): set<RightType>
  {
    set i | 0 <= i < |m| :: m[i].0
  }

  /** The position of the entry with key `k`, if there is one. */
  function Find<S, A, CS, CA>(m: OwnedRights<S, A, CS, CA>, k: RightType): (r: Option<nat>)
    ensures r.Some? ==> r.value < |m| && m[r.value].0 == k
    ensures r.None? <==> k !in Keys(m)
  {
    if |m| == 0 then None
    else if m[0].0 == k then Some(0)
    else
      match Find(m[1..], k)
      case None => None
      case Some(i) => Some(i + 1)
  }

  /** `BTreeMap::get`. */
  function Lookup<S, A, CS, CA>(m: OwnedRights<S, A, CS, CA>, k: RightType): Option<Assignments<S, A, CS, CA>>
  {
    match Find(m, k)
    case None => None
    case Some(i) => Some(m[i].1)
  }

  /** `BTreeMap::insert`: the value under `k` is replaced, or a new entry is
      placed at its position in key order. */
  function Insert<S, A, CS, CA>(m: OwnedRights<S, A, CS, CA>, k: RightType, v: Assignments<S, A, CS, CA>)
    : (r: OwnedRights<S, A, CS, CA>)
    ensures Keys(r) == Keys(m) + {k}
    ensures forall j :: Lookup(r, j) == if j == k then Some(v) else Lookup(m, j)
  {
    if |m| == 0 || k < m[0].0 then
      KeysCons((k, v), m);
      [(k, v)] + m
    else if k == m[0].0 then
      KeysCons((k, v), m[1..]);
      KeysCons(m[0], m[1..]);
      assert m == [m[0]] + m[1..];
      [(k, v)] + m[1..]
    else
      var rest := Insert(m[1..], k, v);
      KeysCons(m[0], rest);
      KeysCons(m[0], m[1..]);
      assert m == [m[0]] + m[1..];
      [m[0]] + rest
  }

  /** `insert` keeps the entries in ascending key order. */
  lemma {:induction false} InsertAscending<S, A, CS, CA>(
    m: OwnedRights<S, A, CS, CA>, k: RightType, v: Assignments<S, A, CS, CA>)
    requires KeysAscending(m)
    ensures KeysAscending(Insert(m, k, v))
  {
    if |m| > 0 {
      HeadIsLeast(m);
      if k < m[0].0 {
        ConsAscending((k, v), m);
      } else if k == m[0].0 {
        assert KeysAscending(m[1..]);
        ConsAscending((k, v), m[1..]);
      } else {
        assert KeysAscending(m[1..]);
        InsertAscending(m[1..], k, v);
        ConsAscending(m[0], Insert(m[1..], k, v));
      }
    }
  }

  lemma KeysCons<S, A, CS, CA>(e: (RightType, Assignments<S, A, CS, CA>), m: OwnedRights<S, A, CS, CA>)
    ensures Keys([e] + m) == {e.0} + Keys(m)
    ensures forall j :: Lookup([e] + m, j) == if j == e.0 then Some(e.1) else Lookup(m, j)
  {
    var t := [e] + m;
    assert t[1..] == m;
    assert t[0] == e;
    forall j ensures Lookup(t, j) == if j == e.0 then Some(e.1) else Lookup(m, j) {
      if j != e.0 {
        match Find(m, j)
        case None =>
        case Some(i) => assert t[i + 1] == m[i];
      }
    }
    forall x | x in Keys(m) ensures x in Keys(t) {
      var i :| 0 <= i < |m| && m[i].0 == x;
      assert t[i + 1].0 == x;
    }
    forall x | x in Keys(t) ensures x == e.0 || x in Keys(m) {
      var i :| 0 <= i < |t| && t[i].0 == x;
      if i > 0 {
        assert m[i - 1].0 == x;
      }
    }
  }

  /** In an ascending map the first key lies below every other key. */
  lemma HeadIsLeast<S, A, CS, CA>(m: OwnedRights<S, A, CS, CA>)
    requires |m| > 0 && KeysAscending(m)
    ensures forall x :: x in Keys(m) ==> m[0].0 <= x
    ensures forall x :: x in Keys(m[1..]) ==> m[0].0 < x
  {
  }

  /** An entry whose key lies below every key of an ascending map can be put
      in front of it. */
  lemma ConsAscending<S, A, CS, CA>(e: (RightType, Assignments<S, A, CS, CA>), m: OwnedRights<S, A, CS, CA>)
    requires KeysAscending(m)
    requires forall x :: x in Keys(m) ==> e.0 < x
    ensures KeysAscending([e] + m)
  {
    var t := [e] + m;
    forall i, j | 0 <= i < j < |t| ensures t[i].0 < t[j].0 {
      if i > 0 {
        assert t[i] == m[i - 1] && t[j] == m[j - 1];
      } else {
        assert t[j].0 in Keys(m) by { assert t[j] == m[j - 1]; }
      }
    }
  }

  /** Inserting a key above every present key appends the entry: this is
      how the merge loop's inserts in ascending order build the result. */
  lemma {:induction false} InsertAbove<S, A, CS, CA>(
    m: OwnedRights<S, A, CS, CA>, k: RightType, v: Assignments<S, A, CS, CA>)
    requires forall i :: 0 <= i < |m| ==> m[i].0 < k
    ensures Insert(m, k, v) == m + [(k, v)]
  {
    if |m| > 0 {
      InsertAbove(m[1..], k, v);
      assert m == [m[0]] + m[1..];
    }
  }

  /** `to_merkle_source().commit_serialize()`: determined by the keys in
      order and by the commitment of each assignment vector. */
  function MerkleSource<S, A, CS, CA>(c: Concealer<S, A, CS, CA>, m: OwnedRights<S, A, CS, CA>)
    : (r: seq<(RightType, (StateKind, seq<OwnedState<S, A, CS, CA>>))>)
    ensures |r| == |m|
    ensures forall i :: 0 <= i < |m| ==> r[i] == (m[i].0, ConsensusCommitments(c, m[i].1))
  {
    seq(|m|, i requires 0 <= i < |m| => (m[i].0, ConsensusCommitments(c, m[i].1)))
  }

  /** The lock-step loop over both maps' entries: pairs stop at the shorter
      map, each key is taken from the first map, and the first failing
      assignment merge aborts the whole merge. */
  function ZipRights<S(==), A(==), CS(==), CA(==)>(
    c: Concealer<S, A, CS, CA>, xs: OwnedRights<S, A, CS, CA>, ys: OwnedRights<S, A, CS, CA>)
    : (r: Result<OwnedRights<S, A, CS, CA>>)
    ensures r.Ok? ==> |r.value| == Min(|xs|, |ys|)
    ensures r.Ok? ==> forall i :: 0 <= i < |r.value| ==>
                        r.value[i].0 == xs[i].0 && MergedAssignments(c, xs[i].1, ys[i].1) == Ok(r.value[i].1)
    ensures r.Err? <==> exists i :: 0 <= i < Min(|xs|, |ys|) && MergedAssignments(c, xs[i].1, ys[i].1).Err?
    ensures r.Err? ==> r.error == AssignmentMismatch
    decreases |xs|
  {
    if |xs| == 0 || |ys| == 0 then Ok([])
    else
      match MergedAssignments(c, xs[0].1, ys[0].1)
      case Err(e) => Err(e)
      case Ok(v) =>
        match ZipRights(c, xs[1..], ys[1..])
        case Err(e) => Err(e)
        case Ok(rest) => Ok([(xs[0].0, v)] + rest)
  }

  /** `OwnedRightsInner::into_revealed`. */
  function MergedRights<S(==), A(==), CS(==), CA(==)>(
    c: Concealer<S, A, CS, CA>, m1: OwnedRights<S, A, CS, CA>, m2: OwnedRights<S, A, CS, CA>)
    : (r: Result<OwnedRights<S, A, CS, CA>>)
    ensures r.Err? <==> MerkleSource(c, m1) != MerkleSource(c, m2)
    ensures r.Err? ==> r.error == OwnedRightsMismatch
    ensures r.Ok? ==> |r.value| == |m1| == |m2|
    ensures r.Ok? ==> forall i :: 0 <= i < |m1| ==>
                        r.value[i].0 == m1[i].0 == m2[i].0
                        && MergedAssignments(c, m1[i].1, m2[i].1) == Ok(r.value[i].1)
    ensures r.Ok? ==> MerkleSource(c, r.value) == MerkleSource(c, m1)
    ensures r.Ok? && KeysAscending(m1) ==> KeysAscending(r.value)
  {
    if MerkleSource(c, m1) != MerkleSource(c, m2) then Err(OwnedRightsMismatch)
    else
      ConsistentRightsSucceed(c, m1, m2);
      ZipRights(c, m1, m2)
  }

  /** Equal Merkle sources align the keys and make every assignment merge
      succeed; the merged map has the same Merkle source. */
  lemma ConsistentRightsSucceed<S, A, CS, CA>(
    c: Concealer<S, A, CS, CA>, m1: OwnedRights<S, A, CS, CA>, m2: OwnedRights<S, A, CS, CA>)
    requires MerkleSource(c, m1) == MerkleSource(c, m2)
    ensures |m1| == |m2|
    ensures forall i :: 0 <= i < |m1| ==> m1[i].0 == m2[i].0
    ensures ZipRights(c, m1, m2).Ok?
    ensures MerkleSource(c, ZipRights(c, m1, m2).value) == MerkleSource(c, m1)
  {
  }

  /** `OwnedRightsInner::into_revealed` as the source runs it. */
  method MergeRights<S(==), A(==), CS(==), CA(==)>(
    c: Concealer<S, A, CS, CA>, m1: OwnedRights<S, A, CS, CA>, m2: OwnedRights<S, A, CS, CA>)
    returns (r: Result<OwnedRights<S, A, CS, CA>>)
    requires KeysAscending(m1)
    ensures r == MergedRights(c, m1, m2)
  {
    if MerkleSource(c, m1) != MerkleSource(c, m2) {
      return Err(OwnedRightsMismatch);
    }
    r := MergeEntries(c, m1, m2);
  }

  /** The loop of `OwnedRightsInner::into_revealed`: both maps are walked in
      key order, and the result map is filled by `insert`, with an early exit
      on the first failing assignment merge. */
  method MergeEntries<S(==), A(==), CS(==), CA(==)>(
    c: Concealer<S, A, CS, CA>, m1: OwnedRights<S, A, CS, CA>, m2: OwnedRights<S, A, CS, CA>)
    returns (r: Result<OwnedRights<S, A, CS, CA>>)
    requires KeysAscending(m1)
    ensures r == ZipRights(c, m1, m2)
  {
    var result: OwnedRights<S, A, CS, CA> := [];
    for i := 0 to Min(|m1|, |m2|)
      invariant |result| == i
      invariant forall j :: 0 <= j < i ==>
                  result[j].0 == m1[j].0 && MergedAssignments(c, m1[j].1, m2[j].1) == Ok(result[j].1)
    {
      var merged := MergeAssignments(c, m1[i].1, m2[i].1);
      if merged.Err? {
        return Err(merged.error);
      }
      InsertAbove(result, m1[i].0, merged.value);
      result := Insert(result, m1[i].0, merged.value);
    }
    assert ZipRights(c, m1, m2).value == result;
    return Ok(result);
  }

  /** Finding a key depends only on the keys, position by position. */
  lemma {:induction false} FindAligned<S, A, CS, CA>(
    p: OwnedRights<S, A, CS, CA>, q: OwnedRights<S, A, CS, CA>, k: RightType)
    requires |p| == |q|
    requires forall i :: 0 <= i < |p| ==> p[i].0 == q[i].0
    ensures Find(p, k) == Find(q, k)
  {
    if |p| > 0 && p[0].0 != k {
      FindAligned(p[1..], q[1..], k);
    }
  }

  /** Key-wise view of a successful map merge: the merged map has exactly
      the first map's keys, and under each key it holds the assignment
      merge of the two maps' values under that key. */
  lemma MergedRightsLookup<S, A, CS, CA>(
    c: Concealer<S, A, CS, CA>, m1: OwnedRights<S, A, CS, CA>, m2: OwnedRights<S, A, CS, CA>, k: RightType)
    requires MergedRights(c, m1, m2).Ok?
    ensures var r := MergedRights(c, m1, m2).value;
            && (Lookup(r, k).Some? <==> Lookup(m1, k).Some?)
            && (Lookup(m1, k).Some? <==> Lookup(m2, k).Some?)
            && (Lookup(r, k).Some? ==>
                  MergedAssignments(c, Lookup(m1, k).value, Lookup(m2, k).value) == Ok(Lookup(r, k).value))
  {
    var r := MergedRights(c, m1, m2).value;
    FindAligned(r, m1, k);
    FindAligned(m1, m2, k);
  }

  /** One right type mapped to the four views, merged with the same right
      type mapped to their reverse, gives four revealed states. */
  lemma SingleRightScenario<S, A, CS, CA>(c: Concealer<S, A, CS, CA>, s: S, a: A)
    ensures var v := FourViews(c, s, a);
            var rev := Revealed(s, a);
            MergedRights(c, [(1, CustomData(v))], [(1, CustomData([v[3], v[2], v[1], v[0]]))])
              == Ok([(1, CustomData([rev, rev, rev, rev]))])
  {
    var v := FourViews(c, s, a);
    var w := [v[3], v[2], v[1], v[0]];
    ReversedViewsReveal(c, s, a);
    var m1: OwnedRights<S, A, CS, CA> := [(1, CustomData(v))];
    var m2: OwnedRights<S, A, CS, CA> := [(1, CustomData(w))];
    assert ConsensusCommitments(c, CustomData(v)) == ConsensusCommitments(c, CustomData(w));
    assert MerkleSource(c, m1) == MerkleSource(c, m2);
    var r := MergedRights(c, m1, m2);
    assert r.Ok? && |r.value| == 1;
    assert r.value == [(1, CustomData([Revealed(s, a), Revealed(s, a), Revealed(s, a), Revealed(s, a)]))];
  }

  /** Merging a map of owned rights with itself gives it back. */
  lemma RightsIdempotent<S, A, CS, CA>(c: Concealer<S, A, CS, CA>, m: OwnedRights<S, A, CS, CA>)
    ensures MergedRights(c, m, m) == Ok(m)
  {
    var r := MergedRights(c, m, m);
    forall i | 0 <= i < |m| ensures r.value[i] == m[i] {
      AssignmentsIdempotent(c, m[i].1);
    }
    assert r.value == m;
  }
}
