/** The `vrf_rarity` program as a stateful object: the accounts it owns, and
    its two instructions, which update a record's fields in place. */
module Program {
  import opened Bytes
  import opened Tiers
  import opened Records

  class VrfRarity {
    const config: Config
    var accounts: Accounts

    ghost predicate Valid()
      reads this
    {
      ValidAccounts(accounts)
    }

    constructor (config: Config)
      ensures this.config == config && accounts == map[]
      ensures Valid()
    {
      this.config := config;
      accounts := map[];
    }

    /** `roll_rarity`: create the record for (payer, nonce), fill it in and
        ask the VRF program for randomness; on any failure the transaction
        aborts and no account changes. */
    method RollRarity(payer: Pubkey, nonce: u64, bump: u8, oracleQueue: Pubkey, vrfAccepts: bool)
      returns (r: Result<RandomnessRequest>)
      requires Valid()
      modifies this
      ensures Valid()
      ensures (accounts, r) == RollRarityStep(config, old(accounts), payer, nonce, bump, oracleQueue, vrfAccepts)
    {
      var address := RarityAddress(payer, nonce);
      // `init`: the address must not hold an account yet
      if address in accounts {
        return Err(AccountAlreadyInUse);
      }
      // `address = DEFAULT_QUEUE`
      if oracleQueue != config.defaultQueue {
        return Err(ConstraintAddress);
      }
      var result := ZeroRecord;
      result := result.(player := payer);
      result := result.(nonce := nonce);
      result := result.(rarity := 0);
      result := result.(fulfilled := false);
      result := result.(rollValue := 0);
      result := result.(bump := bump);

      var callerSeed := FillCallerSeed(nonce);
      var request := RandomnessRequest(payer, oracleQueue, callerSeed[..],
                                       [AccountMeta(address, false, true)]);
      // the CPI's error aborts the transaction before the record is stored
      if !vrfAccepts {
        return Err(VrfInvocationFailed);
      }
      accounts := accounts[address := result];
      r := Ok(request);
    }

    /** `callback_roll_rarity` with `roll` the value the VRF SDK reduced the
        randomness to, which it keeps in [0, 99]. */
    method CallbackRollRarity(signer: Pubkey, target: Address, roll: u8) returns (r: Result<()>)
      requires Valid()
      requires roll <= 99
      modifies this
      ensures Valid()
      ensures (accounts, r) == CallbackStep(config, old(accounts), signer, target, roll)
    {
      // Anchor loads `rarity_result` before it checks the signer's address
      if target !in accounts {
        return Err(AccountNotInitialized);
      }
      if signer != config.vrfProgramIdentity {
        return Err(ConstraintAddress);
      }
      var rarity := Classify(roll);
      var result := accounts[target];
      result := result.(rarity := rarity);
      result := result.(rollValue := roll);
      result := result.(fulfilled := true);
      accounts := accounts[target := result];
      r := Ok(());
      ExecutePreservesValid(config, old(accounts), Instruction.CallbackRollRarity(signer, target, roll));
    }
  }
}
