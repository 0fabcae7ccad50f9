/**
 Hashes as free terms: two hashes are equal exactly when they were built the same way.
 `Null` is the "unknown" marker of the append tree, `Default` the null node of the light tree;
 neither is ever the hash of anything.
 */
module Hashing {

  datatype Hash =
    | Null
    | Default
    | ZeroLeaf
    | Data(id: nat)
    | Parent(left: Hash, right: Hash)

  /** The hash of a perfect subtree of zero leaves with height `h`. */
  function EndPad(h: nat): (r: Hash)
    ensures r != Null && r != Default
  {
    if h == 0 then ZeroLeaf else Parent(EndPad(h - 1), EndPad(h - 1))
  }
}

module Wrappers {
  datatype Option<+T> = None | Some(value: T)
  datatype Result<+T> = Ok(value: T) | Err
}
