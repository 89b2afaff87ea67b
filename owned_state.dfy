/** Scalar reveal-merge: joining two disclosure levels of one owned state. */
module OwnedStates {
  import opened RevealErrors

  /** The concealment half of the commitment scheme: how a revealed seal
      definition and a revealed assigned state are turned into their
      confidential forms. The cryptography behind it is abstract here. */
  datatype Concealer<-S, -A, CS, CA> = Concealer(seal: S -> CS, state: A -> CA)

  /** An owned state at one of its four disclosure levels. `S`/`A` are the
      revealed seal definition and assigned state, `CS`/`CA` their concealed
      forms. */
  datatype OwnedState<S, A, CS, CA> =
    | Confidential(concealedSeal: CS, concealedState: CA)
    | ConfidentialSeal(concealedSeal: CS, state: A)
    | ConfidentialAmount(seal: S, concealedState: CA)
    | Revealed(seal: S, state: A)

  /** A disclosure level: which of the two facets is visible. The four levels
      form the product lattice of two booleans, with `Confidential` at the
      bottom and `Revealed` at the top. */
  datatype Level = Level(sealShown: bool, stateShown: bool)

  function LevelOf<S, A, CS, CA>(x: OwnedState<S, A, CS, CA>): Level
  {
    Level(x.ConfidentialAmount? || x.Revealed?, x.ConfidentialSeal? || x.Revealed?)
  }

  /** The information order on levels. */
  predicate Below(l: Level, m: Level)
  {
    (l.sealShown ==> m.sealShown) && (l.stateShown ==> m.stateShown)
  }

  /** The least level at least as disclosed as both arguments. */
  function Join(l: Level, m: Level): (j: Level)
    ensures Below(l, j) && Below(m, j)
    ensures forall u :: Below(l, u) && Below(m, u) ==> Below(j, u)
  {
    Level(l.sealShown || m.sealShown, l.stateShown || m.stateShown)
  }

  /** `commit_conceal`: the fully confidential form of a state. Every
      disclosure level of one value conceals to the same form, so this is
      what the commitment of an owned state is taken over. */
  function CommitConceal<S, A, CS, CA>(c: Concealer<S, A, CS, CA>, x: OwnedState<S, A, CS, CA>)
    : (r: OwnedState<S, A, CS, CA>)
    ensures r.Confidential?
    ensures x.Confidential? ==> r == x
  {
    match x
    case Confidential(cs, ca) => Confidential(cs, ca)
    case ConfidentialSeal(cs, a) => Confidential(cs, c.state(a))
    case ConfidentialAmount(s, ca) => Confidential(c.seal(s), ca)
    case Revealed(s, a) => Confidential(c.seal(s), c.state(a))
  }

  /** The view of the revealed value `(s, a)` at disclosure level `l`. */
  function View<S, A, CS, CA>(c: Concealer<S, A, CS, CA>, l: Level, s: S, a: A)
    : (r: OwnedState<S, A, CS, CA>)
    ensures LevelOf(r) == l
    ensures CommitConceal(c, r) == Confidential(c.seal(s), c.state(a))
  {
    if l.sealShown && l.stateShown then Revealed(s, a)
    else if l.sealShown then ConfidentialAmount(s, c.state(a))
    else if l.stateShown then ConfidentialSeal(c.seal(s), a)
    else Confidential(c.seal(s), c.state(a))
  }

  /** `OwnedState::into_revealed`: the commitments must agree; then the arms
      are tried in the order the source lists them. */
  function MergeState<S(==), A(==), CS(==), CA(==)>(
    c: Concealer<S, A, CS, CA>, a: OwnedState<S, A, CS, CA>, b: OwnedState<S, A, CS, CA>)
    : (r: Result<OwnedState<S, A, CS, CA>>)
    ensures r.Err? <==> CommitConceal(c, a) != CommitConceal(c, b)
    ensures r.Err? ==> r.error == OwnedStateMismatch
    ensures r.Ok? ==> CommitConceal(c, r.value) == CommitConceal(c, a)
    ensures r.Ok? ==> LevelOf(r.value) == Join(LevelOf(a), LevelOf(b))
  {
    if CommitConceal(c, a) != CommitConceal(c, b) then Err(OwnedStateMismatch)
    else
      match (a, b)
      case (_, Revealed(_, _)) => Ok(b)
      case (Revealed(_, _), _) => Ok(a)
      case (ConfidentialSeal(_, state), ConfidentialAmount(seal, _)) => Ok(Revealed(seal, state))
      case (ConfidentialAmount(seal, _), ConfidentialSeal(_, state)) => Ok(Revealed(seal, state))
      case (ConfidentialAmount(_, _), ConfidentialAmount(_, _)) => Ok(a)
      case (ConfidentialSeal(_, _), ConfidentialSeal(_, _)) => Ok(a)
      case (_, Confidential(_, _)) => Ok(a)
      case (Confidential(_, _), _) => Ok(b)
  }

  /** Both concealment functions are collision-free: equal confidential
      forms come only from equal revealed data. */
  ghost predicate Binding<S(!new), A(!new), CS, CA>(c: Concealer<S, A, CS, CA>)
  {
    && (forall s1, s2 :: c.seal(s1) == c.seal(s2) ==> s1 == s2)
    && (forall a1, a2 :: c.state(a1) == c.state(a2) ==> a1 == a2)
  }

  /** Any `Revealed` operand wins; when both are revealed the second one is
      returned, because its arm is listed first. */
  lemma RevealedWins<S, A, CS, CA>(
    c: Concealer<S, A, CS, CA>, a: OwnedState<S, A, CS, CA>, b: OwnedState<S, A, CS, CA>)
    requires CommitConceal(c, a) == CommitConceal(c, b)
    requires a.Revealed? || b.Revealed?
    ensures MergeState(c, a, b) == Ok(if b.Revealed? then b else a)
  {
  }

  /** `ConfidentialSeal` and `ConfidentialAmount` complete each other, in
      either order: the seal definition comes from the `ConfidentialAmount`
      side and the assigned state from the `ConfidentialSeal` side. */
  lemma CrossCompletion<S, A, CS, CA>(
    c: Concealer<S, A, CS, CA>, a: OwnedState<S, A, CS, CA>, b: OwnedState<S, A, CS, CA>)
    requires a.ConfidentialSeal? && b.ConfidentialAmount?
    requires CommitConceal(c, a) == CommitConceal(c, b)
    ensures MergeState(c, a, b) == Ok(Revealed(b.seal, a.state))
    ensures MergeState(c, b, a) == Ok(Revealed(b.seal, a.state))
  {
  }

  /** `Confidential` is a two-sided identity. */
  lemma ConfidentialIdentity<S, A, CS, CA>(
    c: Concealer<S, A, CS, CA>, a: OwnedState<S, A, CS, CA>, x: OwnedState<S, A, CS, CA>)
    requires a.Confidential?
    requires CommitConceal(c, a) == CommitConceal(c, x)
    ensures MergeState(c, a, x) == Ok(x)
    ensures MergeState(c, x, a) == Ok(x)
  {
  }

  /** Two operands of the same partial level: the first one is kept. */
  lemma SamePartialKeepsFirst<S, A, CS, CA>(
    c: Concealer<S, A, CS, CA>, a: OwnedState<S, A, CS, CA>, b: OwnedState<S, A, CS, CA>)
    requires (a.ConfidentialSeal? && b.ConfidentialSeal?) || (a.ConfidentialAmount? && b.ConfidentialAmount?)
    requires CommitConceal(c, a) == CommitConceal(c, b)
    ensures MergeState(c, a, b) == Ok(a)
  {
  }

  /** Merge never lowers disclosure and never fails on consistent operands. */
  lemma MergeMonotone<S, A, CS, CA>(
    c: Concealer<S, A, CS, CA>, a: OwnedState<S, A, CS, CA>, b: OwnedState<S, A, CS, CA>)
    requires CommitConceal(c, a) == CommitConceal(c, b)
    ensures MergeState(c, a, b).Ok?
    ensures Below(LevelOf(a), LevelOf(MergeState(c, a, b).value))
    ensures Below(LevelOf(b), LevelOf(MergeState(c, a, b).value))
  {
  }

  /** Merging a state with itself gives it back. */
  lemma MergeIdempotent<S, A, CS, CA>(
    c: Concealer<S, A, CS, CA>, x: OwnedState<S, A, CS, CA>)
    ensures MergeState(c, x, x) == Ok(x)
  {
  }

  /** The central lattice law: merging two views of one revealed value gives
      the view at the join of their levels. Top absorption, bottom identity,
      idempotence and cross-completion are instances of it. */
  lemma MergeViews<S, A, CS, CA>(
    c: Concealer<S, A, CS, CA>, s: S, a: A, l: Level, m: Level)
    ensures MergeState(c, View(c, l, s, a), View(c, m, s, a)) == Ok(View(c, Join(l, m), s, a))
  {
  }

  /** `merge(rev, x) == rev` and `merge(x, rev) == rev` for every view `x`
      of a revealed state `rev`. */
  lemma RevealedAbsorbsViews<S, A, CS, CA>(
    c: Concealer<S, A, CS, CA>, rev: OwnedState<S, A, CS, CA>, l: Level)
    requires rev.Revealed?
    ensures MergeState(c, rev, View(c, l, rev.seal, rev.state)) == Ok(rev)
    ensures MergeState(c, View(c, l, rev.seal, rev.state), rev) == Ok(rev)
  {
  }

  /** With a binding concealment, the order of consistent operands does not
      matter. Without it, two `Revealed` operands with colliding commitments
      would yield whichever came second. */
  lemma MergeCommutes<S(!new), A(!new), CS, CA>(
    c: Concealer<S, A, CS, CA>, a: OwnedState<S, A, CS, CA>, b: OwnedState<S, A, CS, CA>)
    requires Binding(c)
    ensures MergeState(c, a, b) == MergeState(c, b, a)
  {
  }
}
