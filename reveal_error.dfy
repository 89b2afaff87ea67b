/** The error taxonomy shared by the three reveal-merge layers, and the
    result type every merge returns. */
module RevealErrors {

  /** Identifier of a contract node type. The schema module that enumerates
      node types is not part of this model, so the tag stays opaque. */
  type NodeType = nat

  /** Why two structures could not be reveal-merged: each layer reports that
      its operands commit to different values. `AnchorsMismatch` and
      `NodeMismatch` are reserved for sibling merges; nothing here yields them. */
  datatype Error =
    | OwnedStateMismatch
    | AssignmentMismatch
    | OwnedRightsMismatch
    | AnchorsMismatch
    | NodeMismatch(nodeType: NodeType)

  /** `Result<Self, Error>` of the `into_revealed` operations. */
  datatype Result<T> = Ok(value: T) | Err(error: Error)
}
