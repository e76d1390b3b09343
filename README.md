# mitum-currency core in Dafny

This project models the accounting core of the mitum-currency blockchain
extension. It has three parts.

- **Weighted key sets** (`currency/keys.go`). A `Key` is a public key with a
  weight. `Keys` is a list of keys with a threshold and a stored content hash.
  The module covers:
  - key and key-set validation;
  - the canonical byte serialisation, sorted in place by public key;
  - lookup by public key;
  - order-insensitive equality;
  - `checkThreshold`, the weighted signature check.
- **Genesis bootstrap** (`currency/genesis_currencies_process.go`).
  `GenesisCurrencies.Process` checks every "must not exist" precondition
  against the state pool. Only then does it write the genesis account, one
  balance and one design per currency, in a single `setState` batch under the
  fact hash.
- **Currency policy update** (`currency/currency_policy_updater_process_test.go`).
  The processor that rewrites a currency's policy is modelled from its tests:
  - authorization by the suffrage keys and a percentage threshold;
  - an "empty publickeys" configuration error;
  - a "not enough suffrage signs" error;
  - on success, the stored design has the fact's policy and the same total
    supply;
  - the operation-processor registry (`SetProcessor`, then `New(pool)`).

Modules:

- `Primitives` (`primitives.dfy`) holds the shared building blocks:
  - bytes, and Go's 64-bit `uint` with its wrap-around written out;
  - `util.UintToBytes` as 8 big-endian bytes;
  - `bytes.Compare` as the lexicographic order;
  - public keys, fact signatures;
  - the cryptographic capability `Crypto` (SHA-256 and public-key validation).
    It is passed in as a parameter and left uninterpreted.
- `CurrencyKeys` (`keys.dfy`):
  - The pure parts of `keys.go` are functions, with lemmas about them.
  - `Keys` is a class. Its key slice is an `array<Key>`, because `Keys.Bytes`
    and `Keys.Equal` sort the shared slice in place. Its methods are proved
    against the functions: `Keys.IsValid` against `KeysCheck`, and
    `checkThreshold` against `ThresholdCheck`.
  - `sort.Slice` is an in-place selection sort (`SortByPublickey`). It
    promises only what `sort.Slice` promises: a sorted permutation, with no
    stability. A separate insertion sort (`SortKeys`) defines the canonical
    order. For keys whose public keys are distinct, every sorted permutation
    is proved to be that canonical order.
- `StateStore` (`state.dfy`):
  - the state values (account, balance amount, currency design and policy);
  - the state-key builders;
  - the `StatePool` class. Its `GetState` and `SetState` stand for the
    processors' `getState`/`setState`, and it keeps a log of every
    `setState` batch.
- `GenesisCurrenciesProcess` (`genesis.dfy`): `Process` as a method over the
  pool. It is proved against `GenesisCheck` (the verdict) and
  `GenesisStates` (the batch).
- `CurrencyPolicyUpdaterProcess` (`policy_updater.dfy`): the processor class,
  the registry class, and the specification function `PolicyUpdate`.

Behaviour of `currency/keys.go` worth knowing:

- **Sort order.** `Keys.Bytes` sorts the keys by their public-key bytes
  (`currency/keys.go:116-118`).
- **Check order.** `Keys.IsValid` checks in this order: the threshold, the
  stored hash, the key count, each key (validity, then duplicate public key),
  the total weight, and finally the recomputed hash
  (`currency/keys.go:128-171`).
- **Duplicate signers.** `checkThreshold` adds one weight per signature entry,
  so a signer listed twice counts twice (`currency/keys.go:217-232`).

## Model

| member | source | states |
|---|---|---|
| CurrencyKeys.KeyIsValid | currency/keys.go:43-53 | a key passes iff 1 <= weight <= 100 and its public key is valid; an out-of-range weight is reported before the public key is looked at |
| CurrencyKeys.NewKey | currency/keys.go:37-41 | the key holds the given public key and weight, and the accompanying error is absent iff the weight is in [1, 100] and the public key is valid |
| CurrencyKeys.KeyBytesDecode | currency/keys.go:67-69 | Key.Bytes is the public-key bytes followed by the 8-byte weight, and both can be read back |
| Primitives.UintToBytesRoundTrip | currency/keys.go:68 | the 8-byte big-endian encoding of a uint decodes to the same uint |
| Primitives.UintToBytesInjective | currency/keys.go:123 | two thresholds (or weights) encode alike iff they are equal |
| CurrencyKeys.KeyBytes | currency/keys.go:67-69 | Key.Bytes is exactly 8 bytes longer than the public key's bytes: the weight is written at fixed width |
| CurrencyKeys.KeyEqual | currency/keys.go:71-81 | Key.Equal holds iff weight and public key agree, i.e. iff the keys are the same |
| Primitives.CompareZeroIffEqual | currency/keys.go:117 | bytes.Compare is 0 exactly for equal byte strings |
| Primitives.CompareAntisymmetric | currency/keys.go:117 | swapping the arguments of bytes.Compare negates it |
| Primitives.CompareTransitive | currency/keys.go:117 | "compares below" is transitive, so the sort's less function is a strict order |
| CurrencyKeys.SortByPublickey | currency/keys.go:116-118 | the in-place sort leaves the slice sorted by public key and a permutation of what it held |
| CurrencyKeys.SortKeys | currency/keys.go:116-118 | the canonical order is sorted by public key and a permutation of the input |
| CurrencyKeys.SortedPermutationIsSortKeys | currency/keys.go:116-118 | for keys with distinct public keys, every sorted permutation is the canonical order, so an unstable sort still yields one result |
| CurrencyKeys.SortKeysCanonical | currency/keys.go:116-118 | for keys with distinct public keys, two key lists have the same canonical order iff they hold the same keys |
| CurrencyKeys.Keys.Bytes | currency/keys.go:112-126 | sorts the shared slice in place (into the canonical order when public keys are distinct) and returns every key's bytes in that order followed by the threshold's 8 bytes |
| CurrencyKeys.KeysBytesLayout | currency/keys.go:112-126 | the serialisation is one (public key, weight) block per key followed by 8 bytes from which the threshold reads back |
| CurrencyKeys.KeysBytesOrderInsensitive | currency/keys.go:112-126 | for distinct public keys, any two arrangements of the same keys serialise to the same bytes |
| CurrencyKeys.Keys.GenerateHash | currency/keys.go:108-110 | the hash is SHA-256 of the bytes of the freshly sorted slice |
| CurrencyKeys.Keys.IsValid | currency/keys.go:128-171 | returns exactly KeysCheck's verdict on the stored hash, slice and threshold; the slice is left as it was or, when all public keys are distinct, put into the canonical order |
| CurrencyKeys.Keys.ScanEach | currency/keys.go:143-153 | the per-key loop with the set of seen public keys returns the first invalid key's error or a duplicated-keys error, as ScanKeys does |
| CurrencyKeys.ScanKeysPassIff | currency/keys.go:143-153 | the per-key loop passes iff every key is valid, none was seen before, and no two keys share a public key |
| CurrencyKeys.Keys.SumWeights | currency/keys.go:155-158 | the weight sum accumulated in a uint equals the exact sum: valid weights cannot wrap it |
| CurrencyKeys.TotalWeightBound | currency/keys.go:155-158 | valid weights sum to at most 100 per key |
| CurrencyKeys.KeysCheck | currency/keys.go:128-171 | a pass means the threshold is in [1, 100], the stored hash is valid, there are 1 to 10 keys with distinct public keys and the weights reach the threshold; a hash mismatch is reported only for key sets that got past the distinctness and weight checks |
| CurrencyKeys.KeysCheckPassIff | currency/keys.go:128-171 | Keys.IsValid passes iff the threshold is in [1, 100], there are 1 to 10 keys, every key is valid, no public key repeats, the weights reach the threshold and the stored hash is SHA-256 of the canonical bytes |
| CurrencyKeys.NewKeys | currency/keys.go:89-98 | the caller's slice ends up sorted and permuted; the stored hash is SHA-256 of its bytes; the error is Keys.IsValid's verdict, is never a hash mismatch or an invalid hash, and is absent iff the keys as given are well formed |
| CurrencyKeys.NewKeysHashAccepted | currency/keys.go:89-98 | a sorted key set carrying SHA-256 of its own bytes is never rejected for its hash, and it passes iff it is well formed |
| CurrencyKeys.WellFormedKeysPermutation | currency/keys.go:89-98 | whether a key list is well formed does not depend on its order |
| CurrencyKeys.DistinctPermutation | currency/keys.go:143-153 | rearranging a key list keeps its public keys distinct |
| CurrencyKeys.TotalWeightPermutation | currency/keys.go:155-158 | rearranging a key list keeps its total weight |
| CurrencyKeys.Keys.GetKey | currency/keys.go:181-190 | the linear search finds the first key with the given public key, and reports a zero key and false when there is none |
| CurrencyKeys.LookupKey | currency/keys.go:181-190 | a key found is in the set and has the public key asked for; nothing found means no key in the set has it |
| CurrencyKeys.LookupKeySpec | currency/keys.go:181-190 | a key is found iff some key has that public key, and the key found has it |
| CurrencyKeys.LookupKeyDistinct | currency/keys.go:181-190 | without repeated public keys, looking up a member's public key finds exactly that member |
| CurrencyKeys.Keys.Equal | currency/keys.go:192-215 | false with nothing sorted when thresholds or lengths differ; otherwise both slices are sorted in place and the result is their pairwise equality; it holds for a key set compared with itself; when the receiver has distinct public keys it holds iff thresholds agree and both hold the same keys in any order |
| CurrencyKeys.CheckThreshold | currency/keys.go:217-232 | returns exactly ThresholdCheck: the first unknown signer's error, else whether the uint sum of one weight per signature entry reaches the threshold |
| CurrencyKeys.ThresholdCheck | currency/keys.go:217-232 | a pass means every signer is in the key set; a failure is either UnknownKey naming the signer of some entry that is not in the set, or NotPassedThreshold with a sum below the threshold |
| CurrencyKeys.FirstUnknownSignerSpec | currency/keys.go:219-225 | there is no unknown signer iff every signer is in the key set; a reported one is the signer of some entry and is not in the set |
| CurrencyKeys.ThresholdCheckUnknownSigner | currency/keys.go:219-225 | any signer missing from the key set fails the check with UnknownKey, whatever the other signers' weights |
| CurrencyKeys.ThresholdCheckPassIff | currency/keys.go:217-232 | when the sum does not wrap, the check passes iff every signer is in the key set and the matched weights reach the threshold |
| CurrencyKeys.MatchedWeightBound | currency/keys.go:218-222 | with weights of at most 100 the sum is at most 100 per signature entry |
| CurrencyKeys.MatchedWeightPermutation | currency/keys.go:218-222 | the matched weight does not depend on the order of the signature entries |
| CurrencyKeys.ThresholdCheckOrderInsensitive | currency/keys.go:217-232 | whether the check passes does not depend on the order of the signature entries |
| StateStore.StateKeysDisjoint | currency/genesis_currencies_process.go:24-41 | account, balance and currency-design keys never collide |
| StateStore.StateKeyAccountInjective | currency/genesis_currencies_process.go:24 | two addresses have the same account key iff they are equal |
| StateStore.StateKeyCurrencyDesignInjective | currency/genesis_currencies_process.go:35 | two currencies have the same design key iff they are equal |
| StateStore.StateKeyBalanceInjective | currency/genesis_currencies_process.go:41 | for currency ids without a colon, a balance key determines the address and the currency |
| StateStore.StatePool.GetState | currency/genesis_currencies_process.go:11 | reports whether the key holds a state and returns it, or a blank state for the key, logging the read |
| StateStore.StatePool.SetState | currency/genesis_currencies_process.go:12 | appends the batch to the update log under its transaction hash and lays its states over the store |
| GenesisCurrenciesProcess.FirstExistingSpec | currency/genesis_currencies_process.go:32-46 | the per-currency checks find nothing iff no listed currency has a design or a genesis balance yet; what they report exists |
| GenesisCurrenciesProcess.GenesisCheck | currency/genesis_currencies_process.go:16-55 | an address that cannot be derived fails first; an AlreadyExists failure names a key that is in the store; a pass means the address and account were built and the genesis account key is not in the store |
| GenesisCurrenciesProcess.GenesisCheckPassIff | currency/genesis_currencies_process.go:16-55 | Process succeeds iff the address and the account can be built and neither the genesis account nor any listed currency's design or genesis balance exists |
| GenesisCurrenciesProcess.GenesisCheckAlreadyExists | currency/genesis_currencies_process.go:24-46 | an existing genesis account, design or genesis balance of any listed currency fails Process with AlreadyExists naming an existing key |
| GenesisCurrenciesProcess.CurrencyStatesShape | currency/genesis_currencies_process.go:57-67 | the per-currency part of the batch is, for each currency in order, its balance holding the currency's supply and then its design |
| GenesisCurrenciesProcess.GenesisStates | currency/genesis_currencies_process.go:48-67 | the batch holds 1 + 2 x (number of currencies) states and starts with the genesis account under its account key |
| GenesisCurrenciesProcess.GenesisStatesShape | currency/genesis_currencies_process.go:48-67 | the batch has 1 + 2 x (number of currencies) states: the account first, then balance and design per currency in the fact's order, each balance equal to the total supply |
| StateStore.ApplyLastWrite | currency/genesis_currencies_process.go:69 | after a setState batch, a key holds the value of the last state in the batch written under it |
| GenesisCurrenciesProcess.GenesisStoreAccount | currency/genesis_currencies_process.go:48-69 | after the genesis batch is written, the store holds the genesis account under its account key, whatever currencies follow it |
| GenesisCurrenciesProcess.GenesisStoreBalance | currency/genesis_currencies_process.go:57-69 | after the genesis batch is written, the genesis account's balance of each currency is that currency's whole supply, from its last listing when a currency is listed twice (currency ids carry no colon) |
| GenesisCurrenciesProcess.GenesisStoreDesign | currency/genesis_currencies_process.go:57-69 | after the genesis batch is written, each currency's design is stored under its design key, from its last listing when a currency is listed twice |
| GenesisCurrenciesProcess.CheckCurrencies | currency/genesis_currencies_process.go:30-46 | the loop stops at the first existing design or balance and reports its key; when none exists it has read every design and balance key in order and kept a blank state per currency |
| GenesisCurrenciesProcess.BuildStates | currency/genesis_currencies_process.go:48-67 | the append loop builds exactly the genesis batch |
| GenesisCurrenciesProcess.Process | currency/genesis_currencies_process.go:10-70 | the verdict is GenesisCheck on the store as it was; a failure leaves the store and the update log untouched; a success makes exactly one setState with the whole batch under the fact hash after every check's read; a failed address derivation reads nothing |
| CurrencyPolicyUpdaterProcess.Quorum | currency/currency_policy_updater_process_test.go:54 | the threshold is the smallest number of keys that is at least the given percentage of the total |
| CurrencyPolicyUpdaterProcess.QuorumBounds | currency/currency_policy_updater_process_test.go:54 | a 100% threshold over n keys is n, and no threshold of at most 100% exceeds the number of keys |
| CurrencyPolicyUpdaterProcess.SuffrageSignedSpec | currency/currency_policy_updater_process_test.go:174-177 | the suffrage count is at most one per entry, and equals the number of entries iff every signer is a suffrage key |
| CurrencyPolicyUpdaterProcess.CountSuffrageSigns | currency/currency_policy_updater_process_test.go:44-62 | the nested search loop counts the entries whose signer is a configured suffrage key |
| CurrencyPolicyUpdaterProcess.PolicyUpdate | currency/currency_policy_updater_process_test.go:68-177 | no suffrage key fails with EmptyPublickeys; every failure is one of empty publickeys, not enough suffrage signs (with a count below the threshold and at most one per entry), unknown currency (whose design key is not stored) or not a design; a success writes under the currency's design key, which is stored |
| CurrencyPolicyUpdaterProcess.EmptyPublickeysFails | currency/currency_policy_updater_process_test.go:129-147 | a processor with no suffrage keys fails every operation with "empty publickeys", not a threshold error |
| CurrencyPolicyUpdaterProcess.TooFewSignsFail | currency/currency_policy_updater_process_test.go:150-177 | fewer signature entries than the threshold fail with "not enough suffrage signs" |
| CurrencyPolicyUpdaterProcess.PartialSuffrageFails | currency/currency_policy_updater_process_test.go:174-177 | under a 100% threshold, signing with fewer keys than are configured (2 of 3) fails with "not enough suffrage signs" |
| CurrencyPolicyUpdaterProcess.AllSuffrageSignersPass | currency/currency_policy_updater_process_test.go:71-93 | under a 100% threshold, at least as many entries as suffrage keys, each signed by a suffrage key, update an existing design |
| CurrencyPolicyUpdaterProcess.PolicyUpdateSuccessIff | currency/currency_policy_updater_process_test.go:68-108 | the update succeeds iff a suffrage key is configured, the suffrage count reaches the threshold, and a design is stored for the currency |
| CurrencyPolicyUpdaterProcess.PolicyUpdateKeepsAmount | currency/currency_policy_updater_process_test.go:95-107 | the written state is the currency's design key, with the fact's policy and the original total supply and genesis account |
| CurrencyPolicyUpdaterProcess.CurrencyPolicyUpdaterProcessor.Process | currency/currency_policy_updater_process_test.go:93 | returns PolicyUpdate's verdict; a failure writes nothing; a success makes one setState of the updated design under the fact hash |
| CurrencyPolicyUpdaterProcess.OperationProcessor.constructor | currency/currency_policy_updater_process_test.go:57 | a new operation processor has no registered processors |
| CurrencyPolicyUpdaterProcess.OperationProcessor.SetProcessor | currency/currency_policy_updater_process_test.go:57-58 | registers the processor of an operation kind once; a second registration of the kind fails and changes nothing |
| CurrencyPolicyUpdaterProcess.OperationProcessor.New | currency/currency_policy_updater_process_test.go:89 | a fresh operation processor sharing the registry, bound to the given pool |
| CurrencyPolicyUpdaterProcess.OperationProcessor.Process | currency/currency_policy_updater_process_test.go:89-93 | runs the registered processor of the operation's kind against the bound pool, or fails with no write when none is registered |

## Left out

- **Public key as one byte string.** A public key is modelled as a single byte
  string that stands for its `String()`, `Bytes()` and `Equal` alike. Sorting
  uses `Bytes()`, while `Key.Bytes` and the duplicate check use `String()`;
  the model assumes the two agree.
- **External cryptography.** SHA-256 and `Publickey.IsValid` are
  uninterpreted functions of the `Crypto` parameter. Signature creation and
  verification of the fact signatures are not modelled.
- **Stored-hash validity.** `valuehash.Hash.IsValid` is not part of this
  model. A stored hash is taken to be valid when it is not empty.
- **getState errors.** A failing `getState` (a storage error) is not
  modelled: reads always succeed. Encoding errors of
  `SetState*Value`/`NewAmountState` are not modelled either, because those
  functions are not part of this model.
- StateStore.StatePool.SetState: cannot fail. A failing `setState`, which
  becomes the error of `Process` (`currency/genesis_currencies_process.go:69`),
  is not modelled, so `GenesisCurrenciesProcess.Process` passes after every
  write it makes.
- **`util.IgnoreError` wrapping.** The genesis process wraps two of its
  errors this way. The model reports those errors plainly.
- **Address and account building.** `GenesisCurrenciesFact.Address()` and
  `NewAccountFromKeys` are not part of this model. Their outcomes are
  parameters of `GenesisCurrenciesProcess.Process`, so the account's own
  address is not tied to the derived address.
- **State-key strings.** The state-key builders are not part of this model.
  The keys follow the scheme `account:<address>`,
  `balance:<address>:<currency>` and `currency-design:<currency>`. Their
  disjointness and injectivity are proved, and the genesis store lemmas use
  them.
- **Amount state wrapper.** `NewAmountState` adds fee bookkeeping that is not
  modelled. The balance state carries only the amount.
- **Processor source.** The source of the CurrencyPolicyUpdater processor
  and of `checkFactSignsByPubs` is not part of this model. The model follows
  their tests:
  - the suffrage count is the number of signature entries whose signer is a
    configured suffrage key;
  - the checks run in this order: suffrage keys configured, suffrage count,
    design stored.
- **Threshold construction.** `base.NewThreshold` is not part of this model.
  The threshold is the integer ceiling of total x percent / 100; the source
  computes it in floating point.
- **Registry fallback.** An operation whose kind has no registered processor
  fails with `NoProcessor`. The registry's fallback to the operation's own
  processing is not modelled. `SetProcessor` rejecting a second registration
  of the same kind is a modelling choice.
- **Operation processor bookkeeping.** Duplicate-fact tracking and fee pools
  are not modelled.
- CurrencyPolicyUpdaterProcess.CountSuffrageSigns: counts in an unbounded
  integer. A Go `uint` counter cannot wrap, because a slice is shorter than
  2^63 entries.
- CurrencyKeys.Keys.Equal: order-insensitivity is stated only when the
  receiver's public keys are distinct. With repeated public keys, the result
  depends on how the unstable sort arranges them.
- **Other sources.** Hint and type constants (`currency/keys.go:16-21`),
  `Keys.Hint`, `Keys.Hash` and the field getters are not modelled. Neither
  are `currency/keys_encode.go` (decoding through a foreign encoder), the
  CLI commands, and the HTTP and JSON digest layers.
- **Concurrency.** Concurrent readers of a slice sorted in place are not
  modelled.
