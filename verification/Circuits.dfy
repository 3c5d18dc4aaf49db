/** What acceptance of a proof by an honest verifier guarantees about its public inputs.

    Each predicate lists consequences of the corresponding circuit's constraints, on the full
    public-input array the pool hands to the verifier. Ownership and quorum checks are further
    constraints the circuits enforce; nothing proved here needs them. */
module Circuits {
  import opened Hashing
  import opened Outcomes
  import opened PoolAccount
  import InclusionProof

  type Proof = nat  // the 192 compressed proof bytes, as one number

  // Everything outside the pool program: hashes, address hashes, proof decompression, verifier programs.
  datatype Env = Env(
    hashes: Hashes,
    order: nat,  // of the node hash's field; the hash refuses other numbers
    assetId: Key -> Fr,
    recipientField: Key -> Fr,
    decompresses: Proof -> bool,
    accepts: (Key, seq<Fr>, Proof) -> bool)
  {
    function AssetId(mint: Key): Fr { assetId(mint) }
    function RecipientField(account: Key): Fr { recipientField(account) }
    predicate Decompresses(proof: Proof) { decompresses(proof) }
    predicate Accepts(verifier: Key, inputs: seq<Fr>, proof: Proof) { accepts(verifier, inputs, proof) }
  }

  datatype CircuitId = DepositC | TransferC | WithdrawC | TransferMultisigC | SplitC | JoinC | WithdrawMultisigC {
    function Id(): (id: nat)
      ensures id < NUM_VERIFIERS
    {
      match this
      case DepositC => 0 case TransferC => 1 case WithdrawC => 2 case TransferMultisigC => 3
      case SplitC => 4 case JoinC => 5 case WithdrawMultisigC => 6
    }
  }

  datatype Spend = Spend(note: Note, index: nat, path: seq<Fr>)

  // Membership under the root, and the nullifier of exactly that note at exactly that index.
  predicate Opens(H: Hashes, sp: Spend, nullifier: Fr, root: Fr) {
    && InclusionProof.InclusionRoot(H.node, H.Leaf(sp.note), sp.index, sp.path) == Some(root)
    && nullifier == H.Nullifier(sp.note.psi, sp.index)
  }

  // [cpk_x, cpk_y, leaf, eph_x, value, asset, ct0..6]
  predicate DepositHolds(H: Hashes, pub: seq<Fr>, note: Note) {
    |pub| == 13 && pub[2] == H.Leaf(note) && pub[4] == note.value && pub[5] == note.assetId
  }

  // One input, two outputs of the same asset, value conserved.
  predicate SplitsInTwo(H: Hashes, sp: Spend, nullifier: Fr, root: Fr, leaf1: Fr, leaf2: Fr, out1: Note, out2: Note) {
    && Opens(H, sp, nullifier, root)
    && leaf1 == H.Leaf(out1) && leaf2 == H.Leaf(out2)
    && sp.note.assetId == out1.assetId == out2.assetId
    && sp.note.value == out1.value + out2.value
  }

  // [cpk_x, cpk_y, nullifier, root, memo_leaf, eph, tag, wrap, ct0..6, change_leaf, eph, ct0..6]
  predicate TransferHolds(H: Hashes, pub: seq<Fr>, sp: Spend, memo: Note, change: Note) {
    |pub| == 24 && SplitsInTwo(H, sp, pub[2], pub[3], pub[4], pub[15], memo, change)
  }

  // [cpk_x, cpk_y, nullifier, root, out1_leaf, eph, ct0..6, out2_leaf, eph, ct0..6]
  predicate SplitHolds(H: Hashes, pub: seq<Fr>, sp: Spend, out1: Note, out2: Note) {
    |pub| == 22 && SplitsInTwo(H, sp, pub[2], pub[3], pub[4], pub[13], out1, out2)
  }

  // [cpk_x, cpk_y, nullifier_a, nullifier_b, root, out_leaf, eph, ct0..6]
  predicate JoinHolds(H: Hashes, pub: seq<Fr>, a: Spend, b: Spend, out: Note) {
    && |pub| == 14
    && Opens(H, a, pub[2], pub[4]) && Opens(H, b, pub[3], pub[4])
    && a.index < b.index
    && pub[5] == H.Leaf(out)
    && a.note.assetId == b.note.assetId == out.assetId
    && a.note.value + b.note.value == out.value
  }

  // [value, recipient, intent, cpk_x, cpk_y, nullifier, root, asset, change_leaf, eph, ct0..6]
  predicate WithdrawHolds(H: Hashes, pub: seq<Fr>, sp: Spend, change: Note) {
    && |pub| == 17
    && Opens(H, sp, pub[5], pub[6])
    && pub[7] == sp.note.assetId == change.assetId
    && pub[8] == H.Leaf(change)
    && sp.note.value == change.value + pub[0]
  }

  ghost predicate Relation(H: Hashes, circuit: CircuitId, pub: seq<Fr>) {
    match circuit
    case DepositC => exists note :: DepositHolds(H, pub, note)
    case TransferC => exists sp, memo, change :: TransferHolds(H, pub, sp, memo, change)
    case TransferMultisigC => exists sp, memo, change :: TransferHolds(H, pub, sp, memo, change)
    case SplitC => exists sp, out1, out2 :: SplitHolds(H, pub, sp, out1, out2)
    case JoinC => exists a, b, out :: JoinHolds(H, pub, a, b, out)
    case WithdrawC => exists sp, change :: WithdrawHolds(H, pub, sp, change)
    case WithdrawMultisigC => exists sp, change :: WithdrawHolds(H, pub, sp, change)
  }

  // A verifier program is honest for a circuit when acceptance implies the circuit's relation.
  ghost predicate Honest(env: Env, verifier: Key, circuit: CircuitId) {
    forall pub: seq<Fr>, proof: Proof :: env.Accepts(verifier, pub, proof) ==> Relation(env.hashes, circuit, pub)
  }
}
