# vrf-rarity in Dafny

A model of the `vrf_rarity` Anchor program (`programs/vrf-rarity/src/lib.rs`).
The program assigns an item a rarity tier from verifiable randomness, in two
phases:

- `roll_rarity(nonce)` creates a `RarityResult` account. The account lives at
  the address derived from the seeds `(b"rarity", payer, nonce as 8
  little-endian bytes)`. The instruction then asks the VRF program for
  randomness. The request carries a 32-byte caller seed (the nonce, then zero
  padding) and names the record as its only writable account.
- `callback_roll_rarity(randomness)` is accepted only when it is signed by the
  VRF program's identity. It reduces the randomness to a roll in [0, 99],
  maps the roll to a tier (Common, Uncommon, Rare, Epic or Legendary) and
  writes `rarity`, `roll_value` and `fulfilled = true` into the record.

Modules:

- `Bytes` (`bytes.dfy`): `u8` and `u64`, the little-endian codec with its
  round trips, the caller seed, and the loop that copies the nonce into the
  seed buffer.
- `Tiers` (`tiers.dfy`): the rarity classifier. It is proved against the band
  table, is monotone, and gives the band sizes 50/30/15/4/1.
- `Records` (`records.dfy`): the record, its address, and the program's
  accounts as a map from address to record. The two instructions are pure
  transitions (`RollRarityStep`, `CallbackStep`). Lemmas cover single steps
  and any sequence of transactions (`Run`).
- `Program` (`program.dfy`): the class `VrfRarity`. Its `accounts` field is
  the account map, and its two methods update a record field by field. Each
  method is proved equal to its transition and to preserve the record
  invariant.

The address is a collision-resistant hash of its seeds. The model therefore
uses the seeds themselves as the address. `RarityAddressInjective` proves that
distinct `(payer, nonce)` pairs get distinct addresses, using the fact that
the nonce's little-endian encoding is one-to-one. The map is therefore an
insert-if-absent store keyed by `(payer, nonce)`.

A two-phase request/fulfilment protocol is often expected to reject a second
fulfilment of the same record (an `AlreadyFulfilled` error). This code has no
such check, and the model follows the code: a second authorised callback
overwrites the roll and the tier (`SecondCallbackOverwrites`). So "fulfilled
stays true" holds, but the roll and the tier are not write-once.

## Model

| member | source | states |
|---|---|---|
| `Bytes.ToLeBytes` | programs/vrf-rarity/src/lib.rs:27 | `nonce.to_le_bytes()` is 8 bytes whose little-endian value is the nonce |
| `Bytes.ToLeBytesInjective` | programs/vrf-rarity/src/lib.rs:100 | two nonces have the same little-endian bytes iff they are equal |
| `Bytes.LeValueOfLeBytes` | programs/vrf-rarity/src/lib.rs:27 | decoding the k-byte little-endian encoding of any n < 256^k gives back n |
| `Bytes.LeBytesOfLeValue` | programs/vrf-rarity/src/lib.rs:27 | re-encoding the value of any byte string gives back the bytes |
| `Bytes.CallerSeed` | programs/vrf-rarity/src/lib.rs:26-27 | the caller seed is 32 bytes; bytes 0..8 decode to the nonce; bytes 8..32 are zero |
| `Bytes.FillCallerSeed` | programs/vrf-rarity/src/lib.rs:26-27 | zeroing a fresh 32-byte buffer and copying the nonce's bytes into its head yields exactly `CallerSeed(nonce)` |
| `Bytes.CallerSeedRoundTrip` | programs/vrf-rarity/src/lib.rs:26-27 | the head of the caller seed is `to_le_bytes(nonce)` and decodes back to the nonce |
| `Tiers.Classify` | programs/vrf-rarity/src/lib.rs:58-74 | the tier is at most 4 (Legendary); for a roll in [0, 99] the roll lies in the tier's band of the table 0/50/80/95/99/100 |
| `Tiers.ClassifyIsBand` | programs/vrf-rarity/src/lib.rs:58-74 | for a roll in [0, 99], Classify returns t exactly when the roll is in band t (both directions) |
| `Tiers.ClassifyBoundaries` | programs/vrf-rarity/src/lib.rs:58-74 | 0 and 49 give Common; 50 and 79 Uncommon; 80 and 94 Rare; 95 and 98 Epic; 99 Legendary |
| `Tiers.ClassifyMonotone` | programs/vrf-rarity/src/lib.rs:64-74 | r1 <= r2 implies Classify(r1) <= Classify(r2) |
| `Tiers.BandSizes` | programs/vrf-rarity/src/lib.rs:58-63 | of the rolls 0..99, exactly 50/30/15/4/1 map to tiers 0..4, and none map to any other code |
| `Records.RarityAddressInjective` | programs/vrf-rarity/src/lib.rs:100 | the record addresses of (p1, n1) and (p2, n2) are equal iff p1 = p2 and n1 = n2 |
| `Records.RollRarityStep` | programs/vrf-rarity/src/lib.rs:16-47 | succeeds iff the address is free, the queue is the default queue and the VRF call succeeds; an existing record gives `AccountAlreadyInUse`; every failure leaves the accounts unchanged; success adds exactly one record (player, nonce, Common, not fulfilled, roll 0, bump) and a request with the caller seed and the record as its only account, writable and not a signer |
| `Records.CallbackStep` | programs/vrf-rarity/src/lib.rs:51-84 | succeeds iff the record exists and the signer is the VRF identity; a missing record gives `AccountNotInitialized`, a wrong signer `ConstraintAddress`, and failure changes nothing; success sets rarity = Classify(roll), roll_value = roll and fulfilled, keeps player, nonce and bump, and changes no other record |
| `Records.DuplicateRollFails` | programs/vrf-rarity/src/lib.rs:96-102 | after a successful roll for (payer, nonce), any later roll for the same pair fails with `AccountAlreadyInUse` and changes nothing, whatever ran in between |
| `Records.RollIsolated` | programs/vrf-rarity/src/lib.rs:96-102 | a roll for (payer, nonce) leaves the record of every other pair as it was, present or absent |
| `Records.UntrustedCallbackRejected` | programs/vrf-rarity/src/lib.rs:112-114 | a callback not signed by the VRF identity fails on every state and changes no account |
| `Records.SecondCallbackOverwrites` | programs/vrf-rarity/src/lib.rs:78-81 | a second authorised callback succeeds and replaces the roll and the tier |
| `Records.EndToEnd` | programs/vrf-rarity/src/lib.rs:16-84 | a roll with nonce 7 creates a pending zeroed record; a callback with roll 83 then makes it fulfilled, Rare, roll 83 |
| `Records.RunPreservesValid` | programs/vrf-rarity/src/lib.rs:122-131 | after any sequence of transactions every record sits at its own (player, nonce) address, has roll_value <= 99, and holds rarity = Classify(roll_value) if fulfilled or zeroed results if pending |
| `Records.RunKeepsRecords` | programs/vrf-rarity/src/lib.rs:78-81 | after any sequence of transactions an existing record still exists, keeps its player, nonce and bump, and stays fulfilled once fulfilled |
| `Records.OnlyOracleFulfils` | programs/vrf-rarity/src/lib.rs:110-118 | a record becomes fulfilled only through a callback signed by the VRF identity and aimed at that record |
| `Program.VrfRarity.RollRarity` | programs/vrf-rarity/src/lib.rs:16-47 | the field-by-field initialisation and the seed buffer give exactly `RollRarityStep`, and the record invariant is kept |
| `Program.VrfRarity.CallbackRollRarity` | programs/vrf-rarity/src/lib.rs:51-84 | the in-place writes of rarity, roll_value and fulfilled give exactly `CallbackStep`, and the record invariant is kept |

## Left out

- Range reduction: `random_u8_with_range` is an SDK function. The callback takes the roll as input. The class method requires `roll <= 99`, which is the range the SDK promises.
- VRF request dispatch: `create_request_randomness_ix` and `invoke_signed_vrf` are a cross-program call. The model keeps the request's payer, queue, caller seed and account metas. The call's outcome is the parameter `vrfAccepts`. The callback program id and the instruction discriminator are not modelled.
- Address derivation: the PDA hash and the bump search are host cryptography. The address is the seed list, and the bump is an input stored as given.
- SDK constants: the values of `VRF_PROGRAM_IDENTITY` and `DEFAULT_QUEUE` are not part of this model. They are the fields of `Config`.
- Host platform: rent and `space`, account discriminators, owner checks and serialisation are not modelled. `msg!` logging is not modelled. The signature check behind `Signer` is not modelled either.
- Anchor's order of account checks is modelled as record load, then address constraint (callback), and `init`, then queue address (roll). When several checks fail, only the error code depends on this order.
- Records.RollRarityStep: the record is stored only when the whole instruction succeeds. The source writes it before the VRF call and relies on the transaction reverting when the call fails.
