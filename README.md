# Reveal-merge of owned state (rgb-core `contract::reveal`)

This project models the reveal-merge of a client-side-validated contract system in Dafny.
Two parties may see different partial views of the same committed owned state. Reveal-merge
combines the two views into the most disclosed consistent view, and never hides something
that was already known. It works on three nested layers. Each layer first checks that both
operands carry the same commitment:

- **Scalar** (`OwnedStates`): an `OwnedState` is `Confidential`, `ConfidentialSeal`,
  `ConfidentialAmount` or `Revealed`. `MergeState` compares the two concealed forms and
  returns `OwnedStateMismatch` if they differ. Otherwise it tries the match arms of
  `OwnedState::into_revealed` in source order.
- **Collection** (`AssignmentsMerge`): `Assignments` is a state vector tagged `Declarative`,
  `DiscreteFiniteField` or `CustomData`. If the two `consensus_commitments()` differ the
  merge returns `AssignmentMismatch`. Otherwise it zips the vectors and merges each pair; the
  first scalar error aborts the merge. `MergedAssignments` is the function that specifies
  the merge. `MergeAssignments` and its loop `MergeVec` are the methods that run it.
- **Map** (`OwnedRightsMerge`): `OwnedRightsInner` is a `BTreeMap` from owned-right type to
  `Assignments`, held as its ascending entry list. If the Merkle-source commitments differ
  the merge returns `OwnedRightsMismatch`. Otherwise it walks both maps in key order and
  `insert`s the key of the first map with the assignment merge of the two values; the first
  error aborts the merge. `MergedRights` specifies it. `MergeRights` and its loop
  `MergeEntries` run it.

**Commitments.** The cryptography is abstract. A `Concealer` holds two function values: how
a revealed seal and how a revealed state are concealed. An owned state commits as its fully
concealed form (`CommitConceal`). An assignment vector commits as its kind tag plus its
elements' concealed forms (`ConsensusCommitments`). A map commits as its ordered list of
keys and vector commitments (`MerkleSource`). These commitments are idealised as
collision-free, so equal commitments mean equal committed data. From this the model proves
three things:

- the `unreachable!` arm of the collection merge is dead;
- equal outer commitments mean every inner merge succeeds;
- each merge result commits like its operands.

**Disclosure lattice.** A level is the pair (seal shown, state shown). `Join` is the
component-wise "or", so `Confidential` is the bottom, `Revealed` is the top, and the two
partial levels are incomparable. `MergeViews` is the central law: merging two views of one
revealed value gives that value's view at the join of their levels.

**Where the code is not symmetric.** A join is expected to commute, and the doc comment at
src/contract/reveal.rs:67-72 lists the partial cases in both orders. The code is not exactly
symmetric:

- when both operands are `Revealed` it returns the second one;
- when both have the same partial level it returns the first one;
- when both are `Confidential` it returns the first one.

The model follows the code (`RevealedWins`, `SamePartialKeepsFirst`). `MergeCommutes`
proves the merge symmetric only when concealment is collision-free (`Binding`).

## Model

| member | source | states |
|---|---|---|
| `OwnedStates.MergeState` | src/contract/reveal.rs:85-140 | Result is `Err(OwnedStateMismatch)` exactly when the concealed forms differ. On success the result commits like both operands and its level is the join of theirs. |
| `OwnedStates.Join` | src/contract/reveal.rs:58-72 | The join is an upper bound of both levels and lies below every other upper bound. |
| `OwnedStates.CommitConceal` | src/contract/reveal.rs:87 | The commitment form is always `Confidential`, and a `Confidential` state is its own commitment form. |
| `OwnedStates.View` | src/contract/reveal.rs:244-260 | The view of a revealed value at a level has exactly that level and commits like the revealed value. |
| `OwnedStates.RevealedWins` | src/contract/reveal.rs:91-93 | On consistent operands where one is `Revealed`, the result is the second operand if it is `Revealed`, else the first. |
| `OwnedStates.CrossCompletion` | src/contract/reveal.rs:95-123 | `ConfidentialSeal` with `ConfidentialAmount`, in either order, gives `Revealed`. Its seal comes from the `ConfidentialAmount` side and its state from the `ConfidentialSeal` side. |
| `OwnedStates.SamePartialKeepsFirst` | src/contract/reveal.rs:125-133 | Two consistent `ConfidentialSeal` operands, or two consistent `ConfidentialAmount` operands, return the first. |
| `OwnedStates.ConfidentialIdentity` | src/contract/reveal.rs:135-137 | `Confidential` is a left and right identity for any consistent operand. |
| `OwnedStates.MergeMonotone` | src/contract/reveal.rs:58-72 | Consistent operands always merge, and the result's level is at least each operand's level. |
| `OwnedStates.MergeIdempotent` | src/contract/reveal.rs:240-242 | `merge(x, x) == Ok(x)` for every state. |
| `OwnedStates.MergeViews` | src/contract/reveal.rs:90-138 | Two views of one revealed value merge to its view at the join of their levels. |
| `OwnedStates.RevealedAbsorbsViews` | src/contract/reveal.rs:238-275 | `merge(rev, x) == merge(x, rev) == Ok(rev)` for every view `x` of a revealed `rev`. |
| `OwnedStates.MergeCommutes` | src/contract/reveal.rs:90-137 | With collision-free concealment, swapping the operands does not change the result. |
| `AssignmentsMerge.ZipMerge` | src/contract/reveal.rs:153-158 | On success the length is the shorter input's and element i is the scalar merge of the i-th pair. It fails exactly when some pair fails, and with `OwnedStateMismatch`. |
| `AssignmentsMerge.MergedAssignments` | src/contract/reveal.rs:143-194 | Fails exactly when the consensus commitments differ, and with `AssignmentMismatch`. On success it keeps the kind and the length, holds the scalar merge of each position, and keeps the commitment. |
| `AssignmentsMerge.ConsistentZipSucceeds` | src/contract/reveal.rs:145-158 | Equal element commitments give equal lengths, a successful zip merge and an unchanged commitment. |
| `AssignmentsMerge.MergeVec` | src/contract/reveal.rs:153-159 | The push loop with early exit returns exactly `ZipMerge`. |
| `AssignmentsMerge.MergeAssignments` | src/contract/reveal.rs:144-193 | The method returns exactly `MergedAssignments`. The catch-all arm is proved unreachable. |
| `AssignmentsMerge.KindMismatchRejected` | src/contract/reveal.rs:187-190 | Vectors of different kinds are rejected with `AssignmentMismatch` before any arm is chosen. |
| `AssignmentsMerge.FourViews` | src/contract/reveal.rs:296-314 | The test vector `[rev, conf_seal, conf_state, conf]` has four entries, all committing like `rev`. |
| `AssignmentsMerge.ReversedViewsReveal` | src/contract/reveal.rs:312-332 | The four views merged with their reverse give four copies of `rev`. |
| `AssignmentsMerge.ConfidentialVectorIsIdentity` | src/contract/reveal.rs:334-346 | An all-`Confidential` vector merged with the four views gives the four views back. |
| `AssignmentsMerge.AssignmentsIdempotent` | src/contract/reveal.rs:144-186 | Merging an assignment vector with itself gives it back. |
| `AssignmentsMerge.AssignmentsCommute` | src/contract/reveal.rs:144-186 | With collision-free concealment, the assignment merge is symmetric. |
| `OwnedRightsMerge.Insert` | src/contract/reveal.rs:209 | `BTreeMap::insert` adds the key to the key set, maps it to the new value, and leaves every other key's lookup unchanged. |
| `OwnedRightsMerge.InsertAscending` | src/contract/reveal.rs:203-209 | `insert` keeps the entries in ascending key order. |
| `OwnedRightsMerge.InsertAbove` | src/contract/reveal.rs:204-210 | Inserting a key above every present key appends the entry. |
| `OwnedRightsMerge.ZipRights` | src/contract/reveal.rs:204-210 | On success the length is the shorter map's, and entry i has the first map's key i and the merge of the two i-th vectors. It fails exactly when some pair fails, and with `AssignmentMismatch`. |
| `OwnedRightsMerge.MergedRights` | src/contract/reveal.rs:196-213 | Fails exactly when the Merkle sources differ, and with `OwnedRightsMismatch`. On success the keys are those of both maps in order, each value is the merge of the aligned vectors, and the commitment and key order are kept. |
| `OwnedRightsMerge.ConsistentRightsSucceed` | src/contract/reveal.rs:198-210 | Equal Merkle sources align the keys, make every vector merge succeed and keep the Merkle source. |
| `OwnedRightsMerge.MergeRights` | src/contract/reveal.rs:197-212 | The method returns exactly `MergedRights`. |
| `OwnedRightsMerge.MergeEntries` | src/contract/reveal.rs:203-211 | The insert loop with early exit returns exactly `ZipRights`. |
| `OwnedRightsMerge.MergedRightsLookup` | src/contract/reveal.rs:203-211 | After a successful merge, a key is present in the result exactly when it is in each operand. Under it the result holds the merge of the two operands' values. |
| `OwnedRightsMerge.SingleRightScenario` | src/contract/reveal.rs:348-365 | `{1: views}` merged with `{1: reversed views}` gives `{1: four copies of rev}`. |
| `OwnedRightsMerge.RightsIdempotent` | src/contract/reveal.rs:197-211 | Merging a map of owned rights with itself gives it back. |

## Left out

- Commitment cryptography: `commit_serialize`, `consensus_commitments`, `to_merkle_source` and `commit_conceal` are external. Concealment is a parameter (`Concealer`). The three commitments are idealised as the data they bind, with no hashing or Pedersen arithmetic: `CommitConceal`, `ConsensusCommitments` and `MerkleSource` are these stand-in definitions, not promises about the external code.
- Commitment collisions: a broken commitment that lets vectors of different kinds pass the check cannot be expressed. So the `unreachable!` panic at src/contract/reveal.rs:189 is proved dead rather than modelled as a fatal fault.
- The `StateTypes` strategies (declarative, Pedersen, hash): all three kinds share one generic state representation.
- The derived traits of `Error` (`Display`, `From`, `Hash`, `Ord`). `AnchorsMismatch` and `NodeMismatch` exist only as constructors. `NodeType` is an opaque tag, because the schema module is not part of this model.
- The strict-encoded test vectors (`strict_decode` of `test/*.in`): the test scenarios are rebuilt from constructors over an arbitrary revealed seal and state.
- Move semantics: Rust consumes both operands. Here operands are values and nothing aliases.
- `OwnedRightsMerge.MergeRights` requires the first map's keys to be ascending, the `BTreeMap` ordering invariant. Map keys are unbounded naturals: the tests key their maps by `usize`, and only key order matters to the merge.
- The loops of the collection and map merges are separate methods (`MergeVec`, `MergeEntries`). In the source they are inline, and the source repeats the collection loop once per kind.
