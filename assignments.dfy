/** Collection reveal-merge: position-wise merge of two same-kind vectors
    of owned states. */
module AssignmentsMerge {
  import opened RevealErrors
  import opened OwnedStates

  /** The state kind a vector of assignments is tagged with. */
  datatype StateKind = DeclarativeKind | DiscreteFiniteFieldKind | CustomDataKind

  /** `Assignments`: one vector of owned states, tagged by its state kind.
      All three kinds share one state representation here. */
  datatype Assignments<S, A, CS, CA> =
    | Declarative(states: seq<OwnedState<S, A, CS, CA>>)
    | DiscreteFiniteField(states: seq<OwnedState<S, A, CS, CA>>)
    | CustomData(states: seq<OwnedState<S, A, CS, CA>>)

  function KindOf<S, A, CS, CA>(x: Assignments<S, A, CS, CA>): StateKind
  {
    match x
    case Declarative(_) => DeclarativeKind
    case DiscreteFiniteField(_) => DiscreteFiniteFieldKind
    case CustomData(_) => CustomDataKind
  }

  function Min(m: nat, n: nat): nat
  {
    if m < n then m else n
  }

  /** The concealed form of every element, in order. */
  function ConcealAll<S, A, CS, CA>(c: Concealer<S, A, CS, CA>, xs: seq<OwnedState<S, A, CS, CA>>)
    : (r: seq<OwnedState<S, A, CS, CA>>)
    ensures |r| == |xs|
    ensures forall i :: 0 <= i < |xs| ==> r[i] == CommitConceal(c, xs[i])
  {
    seq(|xs|, i requires 0 <= i < |xs| => CommitConceal(c, xs[i]))
  }

  /** `consensus_commitments()`: determined by the kind tag and by the
      commitment of every element in order, and by nothing else. */
  function ConsensusCommitments<S, A, CS, CA>(c: Concealer<S, A, CS, CA>, x: Assignments<S, A, CS, CA>)
    : (StateKind, seq<OwnedState<S, A, CS, CA>>)
  {
    (KindOf(x), ConcealAll(c, x.states))
  }

  /** The `for (first, second) in zip(..) { result.push(first.into_revealed(second)?) }`
      loop: pairs stop at the shorter vector, and the first failing pair
      aborts the whole merge. */
  function ZipMerge<S(==), A(==), CS(==), CA(==)>(
    c: Concealer<S, A, CS, CA>, xs: seq<OwnedState<S, A, CS, CA>>, ys: seq<OwnedState<S, A, CS, CA>>)
    : (r: Result<seq<OwnedState<S, A, CS, CA>>>)
    ensures r.Ok? ==> |r.value| == Min(|xs|, |ys|)
    ensures r.Ok? ==> forall i :: 0 <= i < |r.value| ==> MergeState(c, xs[i], ys[i]) == Ok(r.value[i])
    ensures r.Err? <==> exists i :: 0 <= i < Min(|xs|, |ys|) && MergeState(c, xs[i], ys[i]).Err?
    ensures r.Err? ==> r.error == OwnedStateMismatch
    decreases |xs|
  {
    if |xs| == 0 || |ys| == 0 then Ok([])
    else
      match MergeState(c, xs[0], ys[0])
      case Err(e) => Err(e)
      case Ok(m) =>
        match ZipMerge(c, xs[1..], ys[1..])
        case Err(e) => Err(e)
        case Ok(ms) => Ok([m] + ms)
  }

  /** `Assignments::into_revealed`. */
  function MergedAssignments<S(==), A(==), CS(==), CA(==)>(
    c: Concealer<S, A, CS, CA>, a: Assignments<S, A, CS, CA>, b: Assignments<S, A, CS, CA>)
    : (r: Result<Assignments<S, A, CS, CA>>)
    ensures r.Err? <==> ConsensusCommitments(c, a) != ConsensusCommitments(c, b)
    ensures r.Err? ==> r.error == AssignmentMismatch
    ensures r.Ok? ==> KindOf(r.value) == KindOf(a) == KindOf(b)
    ensures r.Ok? ==> |r.value.states| == |a.states| == |b.states|
    ensures r.Ok? ==> forall i :: 0 <= i < |a.states| ==>
                        MergeState(c, a.states[i], b.states[i]) == Ok(r.value.states[i])
    ensures r.Ok? ==> ConsensusCommitments(c, r.value) == ConsensusCommitments(c, a)
  {
    if ConsensusCommitments(c, a) != ConsensusCommitments(c, b) then Err(AssignmentMismatch)
    else
      ConsistentZipSucceeds(c, a.states, b.states);
      match (a, b)
      case (Declarative(xs), Declarative(ys)) =>
        (match ZipMerge(c, xs, ys)
         case Err(e) => Err(e)
         case Ok(merged) => Ok(Declarative(merged)))
      case (DiscreteFiniteField(xs), DiscreteFiniteField(ys)) =>
        (match ZipMerge(c, xs, ys)
         case Err(e) => Err(e)
         case Ok(merged) => Ok(DiscreteFiniteField(merged)))
      case (CustomData(xs), CustomData(ys)) =>
        (match ZipMerge(c, xs, ys)
         case Err(e) => Err(e)
         case Ok(merged) => Ok(CustomData(merged)))
      case _ =>
        assert false; Err(AssignmentMismatch)
  }

  /** Equal element commitments make every scalar merge succeed, and the
      merged vector commits exactly like the first operand. */
  lemma ConsistentZipSucceeds<S, A, CS, CA>(
    c: Concealer<S, A, CS, CA>, xs: seq<OwnedState<S, A, CS, CA>>, ys: seq<OwnedState<S, A, CS, CA>>)
    requires ConcealAll(c, xs) == ConcealAll(c, ys)
    ensures |xs| == |ys|
    ensures ZipMerge(c, xs, ys).Ok?
    ensures ConcealAll(c, ZipMerge(c, xs, ys).value) == ConcealAll(c, xs)
  {
  }

  /** The merge loop over two state vectors, as the source runs it:
      a growing result vector and an early exit on the first error. */
  method MergeVec<S(==), A(==), CS(==), CA(==)>(
    c: Concealer<S, A, CS, CA>, xs: seq<OwnedState<S, A, CS, CA>>, ys: seq<OwnedState<S, A, CS, CA>>)
    returns (r: Result<seq<OwnedState<S, A, CS, CA>>>)
    ensures r == ZipMerge(c, xs, ys)
  {
    var result: seq<OwnedState<S, A, CS, CA>> := [];
    var n := Min(|xs|, |ys|);
    for i := 0 to n
      invariant |result| == i
      invariant forall j :: 0 <= j < i ==> MergeState(c, xs[j], ys[j]) == Ok(result[j])
    {
      var merged := MergeState(c, xs[i], ys[i]);
      if merged.Err? {
        return Err(merged.error);
      }
      result := result + [merged.value];
    }
    assert ZipMerge(c, xs, ys).Ok?;
    assert ZipMerge(c, xs, ys).value == result;
    return Ok(result);
  }

  /** Assignments of kind `k` holding `states`. */
  function WithKind<S, A, CS, CA>(k: StateKind, states: seq<OwnedState<S, A, CS, CA>>)
    : (x: Assignments<S, A, CS, CA>)
    ensures KindOf(x) == k && x.states == states
  {
    match k
    case DeclarativeKind => Declarative(states)
    case DiscreteFiniteFieldKind => DiscreteFiniteField(states)
    case CustomDataKind => CustomData(states)
  }

  /** Tags a merged vector with its kind, passing an error through: the
      `Ok(Assignments::Kind(result))` and the `?` of each arm. */
  function Rewrap<S, A, CS, CA>(k: StateKind, r: Result<seq<OwnedState<S, A, CS, CA>>>)
    : Result<Assignments<S, A, CS, CA>>
  {
    match r
    case Err(e) => Err(e)
    case Ok(states) => Ok(WithKind(k, states))
  }

  /** `Assignments::into_revealed` as the source runs it. */
  method MergeAssignments<S(==), A(==), CS(==), CA(==)>(
    c: Concealer<S, A, CS, CA>, a: Assignments<S, A, CS, CA>, b: Assignments<S, A, CS, CA>)
    returns (r: Result<Assignments<S, A, CS, CA>>)
    ensures r == MergedAssignments(c, a, b)
  {
    if ConsensusCommitments(c, a) != ConsensusCommitments(c, b) {
      return Err(AssignmentMismatch);
    }
    match (a, b)
    case (Declarative(xs), Declarative(ys)) =>
      var merged := MergeVec(c, xs, ys);
      r := Rewrap(DeclarativeKind, merged);
    case (DiscreteFiniteField(xs), DiscreteFiniteField(ys)) =>
      var merged := MergeVec(c, xs, ys);
      r := Rewrap(DiscreteFiniteFieldKind, merged);
    case (CustomData(xs), CustomData(ys)) =>
      var merged := MergeVec(c, xs, ys);
      r := Rewrap(CustomDataKind, merged);
    case _ =>
      assert false;
  }

  /** Vectors of different kinds never pass the commitment check, so the
      source's `unreachable!` arm cannot be reached. */
  lemma KindMismatchRejected<S, A, CS, CA>(
    c: Concealer<S, A, CS, CA>, a: Assignments<S, A, CS, CA>, b: Assignments<S, A, CS, CA>)
    requires KindOf(a) != KindOf(b)
    ensures MergedAssignments(c, a, b) == Err(AssignmentMismatch)
  {
  }

  /** The four views of one revealed value `(s, a)`, in the order
      `[revealed, seal hidden, state hidden, all hidden]`. */
  function FourViews<S, A, CS, CA>(c: Concealer<S, A, CS, CA>, s: S, a: A)
    : (r: seq<OwnedState<S, A, CS, CA>>)
    ensures |r| == 4
    ensures forall i :: 0 <= i < 4 ==> CommitConceal(c, r[i]) == Confidential(c.seal(s), c.state(a))
  {
    [Revealed(s, a), ConfidentialSeal(c.seal(s), a),
     ConfidentialAmount(s, c.state(a)), Confidential(c.seal(s), c.state(a))]
  }

  /** The four views merged with their own reverse give four revealed states. */
  lemma ReversedViewsReveal<S, A, CS, CA>(c: Concealer<S, A, CS, CA>, s: S, a: A)
    ensures var v := FourViews(c, s, a);
            MergedAssignments(c, CustomData(v), CustomData([v[3], v[2], v[1], v[0]]))
              == Ok(CustomData([Revealed(s, a), Revealed(s, a), Revealed(s, a), Revealed(s, a)]))
  {
    var v := FourViews(c, s, a);
    var w := [v[3], v[2], v[1], v[0]];
    assert ConcealAll(c, v) == ConcealAll(c, w);
    var r := MergedAssignments(c, CustomData(v), CustomData(w));
    assert r.Ok?;
    assert r.value.states[0] == Revealed(s, a);
    assert r.value.states[1] == Revealed(s, a);
    assert r.value.states[2] == Revealed(s, a);
    assert r.value.states[3] == Revealed(s, a);
    assert r.value.CustomData?;
    assert r.value.states == [Revealed(s, a), Revealed(s, a), Revealed(s, a), Revealed(s, a)];
  }

  /** An all-confidential vector merged with the four views gives the four
      views back unchanged. */
  lemma ConfidentialVectorIsIdentity<S, A, CS, CA>(c: Concealer<S, A, CS, CA>, s: S, a: A)
    ensures var v := FourViews(c, s, a);
            var conf := v[3];
            MergedAssignments(c, CustomData([conf, conf, conf, conf]), CustomData(v)) == Ok(CustomData(v))
  {
    var v := FourViews(c, s, a);
    var u := [v[3], v[3], v[3], v[3]];
    assert ConcealAll(c, u) == ConcealAll(c, v);
    var r := MergedAssignments(c, CustomData(u), CustomData(v));
    forall i | 0 <= i < 4
      ensures r.value.states[i] == v[i]
    {
      ConfidentialIdentity(c, u[i], v[i]);
    }
    assert r.value.CustomData?;
    assert r.value.states == v;
  }

  /** Merging a vector of assignments with itself gives it back. */
  lemma AssignmentsIdempotent<S, A, CS, CA>(c: Concealer<S, A, CS, CA>, x: Assignments<S, A, CS, CA>)
    ensures MergedAssignments(c, x, x) == Ok(x)
  {
    var r := MergedAssignments(c, x, x);
    forall i | 0 <= i < |x.states| ensures r.value.states[i] == x.states[i] {
      MergeIdempotent(c, x.states[i]);
    }
    assert r.value.states == x.states;
    assert r.value == WithKind(KindOf(x), x.states);
  }

  /** With a binding concealment the operands of an assignment merge can be
      swapped. */
  lemma AssignmentsCommute<S(!new), A(!new), CS, CA>(
    c: Concealer<S, A, CS, CA>, x: Assignments<S, A, CS, CA>, y: Assignments<S, A, CS, CA>)
    requires Binding(c)
    ensures MergedAssignments(c, x, y) == MergedAssignments(c, y, x)
  {
    var r, q := MergedAssignments(c, x, y), MergedAssignments(c, y, x);
    if r.Ok? {
      forall i | 0 <= i < |x.states| ensures r.value.states[i] == q.value.states[i] {
        MergeCommutes(c, x.states[i], y.states[i]);
      }
      assert r.value.states == q.value.states;
      assert r.value == WithKind(KindOf(x), r.value.states);
      assert q.value == WithKind(KindOf(x), q.value.states);
    }
  }
}
