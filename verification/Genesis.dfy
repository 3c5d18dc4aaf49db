/** Why the genesis leaf must not commit to value: the program accepts any nonzero leaf at initialization. */
module Genesis {
  import opened Hashing
  import opened Outcomes
  import opened Circuits
  import opened PoolSpec
  import opened Solvency
  import opened SolventRuns

  // Start a pool on a genesis leaf that commits to a note. In every state a trusted run without donations
  // reaches, each asset's notes are worth what is held for it plus the note; so the pool is backed exactly
  // as long as the note is worth nothing or its asset is not registered.
  lemma GenesisValueIsUnbacked(env: Env, note: Note, txs: seq<Tx>)
    requires CollisionFree(env.hashes) && AllTrusted(env, Some(note), txs) && NoDonations(txs)
    ensures var s := Run(env, txs).0;
      s.initialized ==>
        && (forall a :: Owed(env, s, a) == Held(s, a) + ValueIn(note, a))
        && (Backed(env, s) <==> note.value == 0 || note.assetId !in s.assets)
  {
    hide CollisionFree, AllTrusted, NoDonations, Owed, Vault, Run;
    EveryRunAddsUp(env, Some(note), txs);
  }
}
