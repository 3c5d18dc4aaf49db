/** The pool program's own error codes, and the runtime errors its handlers return. */
module PoolErrors {
  datatype PoolError =
    // program errors, in the order of the frozen interface
    | Paused | InvalidPublicInputCount | ComplianceKeyStale | StaleRoot | NullifierSpent | InvalidProof
    | InvalidLeaf | AmountMismatch | AssetMismatch | AssetCollision | RecipientMismatch
    | IntentHashNotZero | UnsupportedMint | VerifierUnset
    // runtime errors
    | InvalidAccountData | InvalidArgument | InvalidSeeds | IncorrectProgramId | AccountAlreadyInitialized
    | ArithmeticOverflow | VerifierRejected | TokenTransferFailed
}
