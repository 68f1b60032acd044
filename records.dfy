/** The program's persistent state: one `RarityResult` account per roll, at
    an address derived from the seeds (b"rarity", payer, nonce), and the two
    instructions `roll_rarity` and `callback_roll_rarity` as transitions on
    that state. */
module Records {
  import opened Bytes
  import opened Tiers

  /** A 32-byte account key. */
  type Pubkey = k: seq<u8> | |k| == 32 witness seq(32, _ => 0 as u8)

  /** `RARITY_SEED`, the bytes of "rarity". */
  const RaritySeed: seq<u8> := [0x72, 0x61, 0x72, 0x69, 0x74, 0x79]

  /** A program-derived address. The address is a collision-resistant hash
      of its seeds; the model identifies the address with the seeds. */
  datatype Address = Pda(seeds: seq<seq<u8>>)

  /** The address of the record for (payer, nonce). */
  function RarityAddress(payer: Pubkey, nonce: u64): Address
  {
    Pda([RaritySeed, payer, ToLeBytes(nonce)])
  }

  /** Distinct (payer, nonce) pairs have distinct record addresses, so each
      pair owns exactly one slot. */
  lemma RarityAddressInjective(p1: Pubkey, n1: u64, p2: Pubkey, n2: u64)
    ensures RarityAddress(p1, n1) == RarityAddress(p2, n2) <==> p1 == p2 && n1 == n2
  {
    if RarityAddress(p1, n1) == RarityAddress(p2, n2) {
      assert RarityAddress(p1, n1).seeds[2] == RarityAddress(p2, n2).seeds[2];
      ToLeBytesInjective(n1, n2);
    }
  }

  /** The `RarityResult` account. */
  datatype RarityResult = RarityResult(
    player: Pubkey,   // wallet that requested the roll
    nonce: u64,       // roll identifier chosen by the player
    rarity: u8,       // tier code, 0 = Common .. 4 = Legendary
    fulfilled: bool,  // set by the VRF callback
    rollValue: u8,    // raw roll in [0, 99]
    bump: u8)         // address-derivation bump

  /** The program's accounts, by address. */
  type Accounts = map<Address, RarityResult>

  /** The keys fixed by the VRF SDK: the identity the VRF program signs its
      callbacks with, and the oracle queue `roll_rarity` must be given. */
  datatype Config = Config(vrfProgramIdentity: Pubkey, defaultQueue: Pubkey)

  datatype Error =
    | AccountAlreadyInUse    // `init` on an address that already holds an account
    | ConstraintAddress      // an `address = ...` constraint not met
    | AccountNotInitialized  // `Account<RarityResult>` given an address with no record
    | VrfInvocationFailed    // the CPI into the VRF program returned an error

  datatype Result<T> = Ok(value: T) | Err(error: Error)

  /** `SerializableAccountMeta`. */
  datatype AccountMeta = AccountMeta(pubkey: Address, isSigner: bool, isWritable: bool)

  /** The fields of the randomness request `roll_rarity` builds. */
  datatype RandomnessRequest = RandomnessRequest(
    payer: Pubkey,
    oracleQueue: Pubkey,
    callerSeed: seq<u8>,
    accountMetas: seq<AccountMeta>)

  /** A freshly allocated account: all data bytes zero. */
  const ZeroRecord := RarityResult(seq(32, _ => 0 as u8), 0, 0, false, 0, 0)

  /** What a record holds: it lives at the address of its own
      (player, nonce); the roll is in range; a pending record holds zeroed
      results and a fulfilled one the tier of its roll. */
  ghost predicate WellFormed(a: Address, rec: RarityResult)
  {
    && a == RarityAddress(rec.player, rec.nonce)
    && rec.rollValue <= 99
    && (if rec.fulfilled then rec.rarity == Classify(rec.rollValue)
        else rec.rarity == Common && rec.rollValue == 0)
  }

  ghost predicate ValidAccounts(s: Accounts)
  {
    forall a :: a in s ==> WellFormed(a, s[a])
  }

  /** `roll_rarity(nonce)` signed by `payer`. `bump` is the bump the address
      derivation found; `vrfAccepts` is whether the CPI into the VRF program
      succeeds. Any failure aborts the transaction and leaves every account
      as it was. */
  function RollRarityStep(cfg: Config, s: Accounts, payer: Pubkey, nonce: u64, bump: u8,
                          oracleQueue: Pubkey, vrfAccepts: bool): (r: (Accounts, Result<RandomnessRequest>))
    ensures r.1.Ok? <==> RarityAddress(payer, nonce) !in s && oracleQueue == cfg.defaultQueue && vrfAccepts
    ensures RarityAddress(payer, nonce) in s ==> r.1 == Err(AccountAlreadyInUse)
    ensures oracleQueue != cfg.defaultQueue ==> r.1.Err?
    ensures r.1.Err? ==> r.0 == s
    ensures r.1.Ok? ==> r.0.Keys == s.Keys + {RarityAddress(payer, nonce)}
    ensures r.1.Ok? ==> r.0[RarityAddress(payer, nonce)] == RarityResult(payer, nonce, Common, false, 0, bump)
    ensures r.1.Ok? ==> forall a :: a in s ==> r.0[a] == s[a]
    ensures r.1.Ok? ==> r.1.value.callerSeed == CallerSeed(nonce)
    ensures r.1.Ok? ==> r.1.value.accountMetas == [AccountMeta(RarityAddress(payer, nonce), false, true)]
  {
    var address := RarityAddress(payer, nonce);
    if address in s then (s, Err(AccountAlreadyInUse))
    else if oracleQueue != cfg.defaultQueue then (s, Err(ConstraintAddress))
    else if !vrfAccepts then (s, Err(VrfInvocationFailed))
    else
      var rec := RarityResult(payer, nonce, Common, false, 0, bump);
      var request := RandomnessRequest(payer, oracleQueue, CallerSeed(nonce),
                                       [AccountMeta(address, false, true)]);
      (s[address := rec], Ok(request))
  }

  /** `callback_roll_rarity` signed by `signer` for the record at `target`,
      with `roll` the value the VRF SDK reduced the randomness to. Anchor
      loads the record before it checks the signer's address. There is no
      check that the record is still pending. */
  function CallbackStep(cfg: Config, s: Accounts, signer: Pubkey, target: Address, roll: u8): (r: (Accounts, Result<()>))
    ensures r.1.Ok? <==> target in s && signer == cfg.vrfProgramIdentity
    ensures target !in s ==> r.1 == Err(AccountNotInitialized)
    ensures target in s && signer != cfg.vrfProgramIdentity ==> r.1 == Err(ConstraintAddress)
    ensures r.1.Err? ==> r.0 == s
    ensures r.1.Ok? ==> r.0.Keys == s.Keys
    ensures r.1.Ok? ==> forall a :: a in s && a != target ==> r.0[a] == s[a]
    ensures r.1.Ok? ==> r.0[target].rarity == Classify(roll)
    ensures r.1.Ok? ==> r.0[target].rollValue == roll && r.0[target].fulfilled
    ensures r.1.Ok? ==> r.0[target].player == s[target].player && r.0[target].nonce == s[target].nonce
                        && r.0[target].bump == s[target].bump
  {
    if target !in s then (s, Err(AccountNotInitialized))
    else if signer != cfg.vrfProgramIdentity then (s, Err(ConstraintAddress))
    else
      var rec := s[target].(rarity := Classify(roll), rollValue := roll, fulfilled := true);
      (s[target := rec], Ok(()))
  }

  /** An instruction sent to the program. */
  datatype Instruction =
    | RollRarity(payer: Pubkey, nonce: u64, bump: u8, oracleQueue: Pubkey, vrfAccepts: bool)
    | CallbackRollRarity(signer: Pubkey, target: Address, roll: u8)

  function Execute(cfg: Config, s: Accounts, ix: Instruction): Accounts
  {
    match ix
    case RollRarity(payer, nonce, bump, queue, accepts) => RollRarityStep(cfg, s, payer, nonce, bump, queue, accepts).0
    case CallbackRollRarity(signer, target, roll) => CallbackStep(cfg, s, signer, target, roll).0
  }

  /** The accounts after a sequence of transactions. */
  function Run(cfg: Config, s: Accounts, ixs: seq<Instruction>): Accounts
    decreases |ixs|
  {
    if ixs == [] then s else Run(cfg, Execute(cfg, s, ixs[0]), ixs[1..])
  }

  /** The range the VRF SDK's reduction promises for every callback. */
  predicate RollsInRange(ixs: seq<Instruction>)
  {
    forall i :: 0 <= i < |ixs| && ixs[i].CallbackRollRarity? ==> ixs[i].roll <= 99
  }

  // ---- Properties of single instructions ----

  /** A second `roll_rarity` for the same (payer, nonce) fails, whatever
      happened in between, and leaves the first record untouched. */
  lemma DuplicateRollFails(cfg: Config, s: Accounts, payer: Pubkey, nonce: u64, bump1: u8, bump2: u8,
                           queue: Pubkey, ixs: seq<Instruction>, queue2: Pubkey, accepts2: bool)
    requires RollRarityStep(cfg, s, payer, nonce, bump1, queue, true).1.Ok?
    ensures var s1 := Run(cfg, RollRarityStep(cfg, s, payer, nonce, bump1, queue, true).0, ixs);
            RollRarityStep(cfg, s1, payer, nonce, bump2, queue2, accepts2) == (s1, Err(AccountAlreadyInUse))
  {
    var s0 := RollRarityStep(cfg, s, payer, nonce, bump1, queue, true).0;
    RunKeepsRecords(cfg, s0, ixs, RarityAddress(payer, nonce));
  }

  /** Creating the record for (payer, nonce) leaves the record of every
      other (player, nonce) pair as it was, present or absent. */
  lemma RollIsolated(cfg: Config, s: Accounts, payer: Pubkey, nonce: u64, bump: u8, queue: Pubkey,
                     accepts: bool, other: Pubkey, otherNonce: u64)
    requires (other, otherNonce) != (payer, nonce)
    ensures var s' := RollRarityStep(cfg, s, payer, nonce, bump, queue, accepts).0;
            var a := RarityAddress(other, otherNonce);
            (a in s' <==> a in s) && (a in s ==> s'[a] == s[a])
  {
    RarityAddressInjective(payer, nonce, other, otherNonce);
  }

  /** Only the VRF program's identity can finalise a record: a callback
      signed by anyone else fails on every state and changes nothing. */
  lemma UntrustedCallbackRejected(cfg: Config, s: Accounts, signer: Pubkey, target: Address, roll: u8)
    requires signer != cfg.vrfProgramIdentity
    ensures CallbackStep(cfg, s, signer, target, roll).1.Err?
    ensures CallbackStep(cfg, s, signer, target, roll).0 == s
  {
  }

  /** The code has no already-fulfilled check: a second authorised callback
      replaces the roll and tier of the first. */
  lemma SecondCallbackOverwrites(cfg: Config, s: Accounts, target: Address, r1: u8, r2: u8)
    requires target in s
    ensures var s1 := CallbackStep(cfg, s, cfg.vrfProgramIdentity, target, r1).0;
            var (s2, res) := CallbackStep(cfg, s1, cfg.vrfProgramIdentity, target, r2);
            res.Ok? && s2[target].rollValue == r2 && s2[target].rarity == Classify(r2)
  {
  }

  /** A request with nonce 7 followed by an authorised callback with roll 83
      leaves a fulfilled Rare record. */
  lemma EndToEnd(cfg: Config, a: Pubkey, bump: u8)
    ensures var s1 := RollRarityStep(cfg, map[], a, 7, bump, cfg.defaultQueue, true).0;
            var s2 := CallbackStep(cfg, s1, cfg.vrfProgramIdentity, RarityAddress(a, 7), 83).0;
            && s1[RarityAddress(a, 7)] == RarityResult(a, 7, Common, false, 0, bump)
            && s2[RarityAddress(a, 7)] == RarityResult(a, 7, Rare, true, 83, bump)
  {
  }

  // ---- Invariants over any sequence of transactions ----

  /** How a record may change from one state to a later one: its identity
      and bump never change, and once fulfilled it stays fulfilled. */
  predicate Persists(was: RarityResult, now: RarityResult)
  {
    && now.player == was.player && now.nonce == was.nonce && now.bump == was.bump
    && (was.fulfilled ==> now.fulfilled)
  }

  lemma ExecutePreservesValid(cfg: Config, s: Accounts, ix: Instruction)
    requires ValidAccounts(s)
    requires ix.CallbackRollRarity? ==> ix.roll <= 99
    ensures ValidAccounts(Execute(cfg, s, ix))
  {
    var s' := Execute(cfg, s, ix);
    forall a | a in s' ensures WellFormed(a, s'[a]) {
      if a !in s || s'[a] != s[a] {
        match ix
        case RollRarity(payer, nonce, bump, queue, accepts) =>
          assert a == RarityAddress(payer, nonce);
        case CallbackRollRarity(signer, target, roll) =>
          assert a == target;
      }
    }
  }

  /** Every reachable state is well formed, given that callback rolls are
      in range. */
  lemma {:induction false} RunPreservesValid(cfg: Config, s: Accounts, ixs: seq<Instruction>)
    requires ValidAccounts(s) && RollsInRange(ixs)
    ensures ValidAccounts(Run(cfg, s, ixs))
    decreases |ixs|
  {
    if ixs != [] {
      ExecutePreservesValid(cfg, s, ixs[0]);
      assert RollsInRange(ixs[1..]) by {
        forall i | 0 <= i < |ixs| - 1 && ixs[1..][i].CallbackRollRarity?
          ensures ixs[1..][i].roll <= 99
        {
          assert ixs[1..][i] == ixs[i + 1];
        }
      }
      RunPreservesValid(cfg, Execute(cfg, s, ixs[0]), ixs[1..]);
    }
  }

  lemma ExecuteKeepsRecords(cfg: Config, s: Accounts, ix: Instruction, a: Address)
    requires a in s
    ensures a in Execute(cfg, s, ix) && Persists(s[a], Execute(cfg, s, ix)[a])
  {
  }

  /** Records are never deleted, never change owner, nonce or bump, and
      `fulfilled` never goes back to false. */
  lemma {:induction false} RunKeepsRecords(cfg: Config, s: Accounts, ixs: seq<Instruction>, a: Address)
    requires a in s
    ensures a in Run(cfg, s, ixs) && Persists(s[a], Run(cfg, s, ixs)[a])
    decreases |ixs|
  {
    if ixs != [] {
      var s1 := Execute(cfg, s, ixs[0]);
      ExecuteKeepsRecords(cfg, s, ixs[0], a);
      RunKeepsRecords(cfg, s1, ixs[1..], a);
    }
  }

  /** A record becomes fulfilled only through a callback signed by the VRF
      program's identity and aimed at that record. */
  lemma OnlyOracleFulfils(cfg: Config, s: Accounts, ix: Instruction, a: Address)
    requires a in Execute(cfg, s, ix) && Execute(cfg, s, ix)[a].fulfilled
    requires a !in s || !s[a].fulfilled
    ensures ix.CallbackRollRarity? && ix.signer == cfg.vrfProgramIdentity && ix.target == a
  {
  }
}
