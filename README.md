# Delegated signing credentials and persisted observables, in Dafny

This project models the delegated-signing path of the Towns protocol. A root
wallet authorises a short-lived device key by signing a byte string, the
"delegate hash source". That string binds the device's public key to an
expiry. Anyone can later recover the root address from the signature and the
string alone.

The model covers three parts:

- **`core/node/crypto/sign.go`** (modules `Bytes` and `Sign`). It covers the
  `RIVERSIG` delegate hash source, the domain-separated `TownsHash` preimage,
  address derivation and the EIP-191 personal-message prefix. These are
  byte-layout constructions. The lemmas are about their lengths, how to
  decode them, injectivity, and domain separation.
- **`packages/sdk/src/signerContext.ts`** (modules `Delegation` and `Hex`).
  It covers issuing and checking a delegation, computing an expiry from a
  duration, building a `SignerContext`, and the bearer token together with
  rebuilding a context from one. The main theorem is the bearer-token round
  trip.
- **`packages/sdk/src/observable/persistedObservable.ts`** (module
  `Persistence`). It covers the `loading → loaded | error` state machine, the
  id-preserving `setData` merge and its rollback when a save fails, and the
  registry of table names.

The cryptography is not implemented:

- Keccak-256, secp256k1 signing and recovery, and the public key of a private
  key are fields of a `Primitives` record passed in as a parameter.
- The bearer token's protobuf codec is a `TokenCodec` parameter.
- The proofs rest on two assumptions, each stated as a precondition of the
  lemmas that need it. `RecoveryInvertsSigning`: recovering a signature over
  a digest yields the signer's public key. `CodecRoundTrips`: parsing a
  serialised token gives the token back (`Delegation.BearerTokenRoundTrip`
  uses both).
- The current time (`Date.now()`) and the random device key
  (`ethers.Wallet.createRandom()`) are parameters.

Facts about the code that the model records:

- The delegate hash source is `RIVERSIG`, then the raw public key, then the
  expiry as 8 little-endian bytes (sign.go:95-103).
- The EIP-191 personal-message prefix is added by the signing wallet
  (`signMessage`) and by the verifier (`hashPersonalMessage`), not by the
  hash source.
- An absolute expiry of 0 is accepted; only negative expiries are refused
  (sign.go:89-91).
- `makeExpiryEpochMs` refuses a duration whose weighted sum is zero. So
  `{days: 1, hours: -24}` is refused and `{seconds: -1}` is accepted
  (`Delegation.CancellingDurationRefused`).

## Model

| member | source | states |
|---|---|---|
| `Bytes.LittleEndian` | core/node/crypto/sign.go:67-80 | the fixed-width little-endian encoding has exactly `width` bytes |
| `Bytes.LittleEndianAt` | core/node/crypto/sign.go:69-79 | byte k of the encoding of n is `(n >> 8k)` truncated to a byte |
| `Bytes.LittleEndian64Bytes` | core/node/crypto/sign.go:69-80 | the eight shifted bytes written by `TownsHash.Hash` are the 8-byte little-endian encoding of the length |
| `Bytes.LittleEndianRoundTrip` | core/node/crypto/sign.go:98-99 | decoding the little-endian bytes gives back any value that fits the width |
| `Bytes.FromLittleEndianRoundTrip` | core/node/crypto/sign.go:98-99 | re-encoding a decoded value gives back the same bytes, so the encoding is a bijection |
| `Bytes.LittleEndianInjective` | core/node/crypto/sign.go:98-99 | distinct values that fit the width have distinct encodings |
| `Bytes.Decimal` | core/node/crypto/sign.go:362 | `%d` of a length is a non-empty string of ASCII digits with no leading zero |
| `Bytes.DecimalRoundTrip` | core/node/crypto/sign.go:362 | the decimal digits read back as the number written |
| `Bytes.DecimalLengthMonotone` | core/node/crypto/sign.go:360-363 | a larger length never has fewer decimal digits |
| `Sign.ConstantsSpellTheirNames` | core/node/crypto/sign.go:33-59 | the separator, footer and header byte constants spell 'ABCDEFG>', '<GFEDCBA', 'RIVERSIG', 'CSBLANCA', 'SNAPSHOT' and 'INTRCERT' |
| `Sign.TownsHashPreimage` | core/node/crypto/sign.go:64-84 | the preimage is 32 bytes longer than the buffer |
| `Sign.TownsHashPreimageFields` | core/node/crypto/sign.go:64-84 | the preimage reads back as header, the buffer length in LE64, separator, buffer and footer |
| `Sign.TownsHashPreimageInjective` | core/node/crypto/sign.go:64-84 | under one header, distinct buffers give distinct preimages |
| `Sign.TownsHashDomainSeparation` | core/node/crypto/sign.go:49-66 | distinct headers never share a preimage, whatever the buffers |
| `Sign.TownsHashHeadersDistinct` | core/node/crypto/sign.go:52-59 | the events, snapshots and certificate headers are pairwise distinct |
| `Sign.Hash` | core/node/crypto/sign.go:64-85 | writing header, shifted length bytes, separator, buffer and footer in turn hashes exactly the preimage |
| `Sign.DelegateHashSource` | core/node/crypto/sign.go:88-104 | a negative expiry fails with NegativeExpiry and a key that is not 64 or 65 bytes fails with BadKeyLength, in that order; on success the output is `RIVERSIG`, the key and the expiry as 8 little-endian bytes, `len(key) + 16` bytes in all, and it decodes back to the key and the expiry |
| `Sign.DecodeDelegateHashSourceSound` | core/node/crypto/sign.go:95-103 | every decodable byte string is exactly the hash source of what it decodes to |
| `Sign.DelegateHashSourceInjective` | core/node/crypto/sign.go:95-103 | distinct (key, expiry) pairs give distinct hash sources |
| `Sign.ZeroExpiryAccepted` | core/node/crypto/sign.go:89-91 | an expiry of 0 is accepted and encodes as eight zero bytes |
| `Sign.RiverDelegateHashSrc` | core/node/crypto/sign.go:88-104 | the step-by-step buffer writes produce the delegate hash source, and with an int64 expiry the out-of-range error never arises |
| `Sign.PublicKeyToAddress` | core/node/crypto/sign.go:317-319 | the address is 20 bytes long and is the last 20 bytes of the Keccak digest of the key without its first byte |
| `Sign.AddressIgnoresFormatByte` | core/node/crypto/sign.go:317-319 | keys that differ only in their first byte have the same address |
| `Sign.EthMessagePreimage` | core/node/crypto/sign.go:359-366 | the personal-message preimage starts with the 26-byte prefix, ends with the message and is as long as prefix, decimal length and message together |
| `Sign.EthMessagePreimageInjective` | core/node/crypto/sign.go:359-366 | distinct messages give distinct personal-message preimages |
| `Sign.ToEthMessageHash` | core/node/crypto/sign.go:359-366 | a 32-byte hash is always prefixed with the length "32" |
| `Hex.ToHex` | packages/sdk/src/signerContext.ts:131 | the encoding has two lower-case hexadecimal digits per byte |
| `Hex.FromHexRoundTrip` | packages/sdk/src/signerContext.ts:131-137 | decoding undoes encoding, with or without a "0x" prefix |
| `Delegation.AddressOf` | packages/sdk/src/signerContext.ts:104 | a wallet's address is 20 bytes long |
| `Delegation.HashPersonalMessage` | packages/sdk/src/signerContext.ts:63 | the digest is Keccak over the EIP-191 prefix, the decimal message length and the message |
| `Delegation.BinFromHex` | packages/sdk/src/signerContext.ts:137 | hexadecimal decoding succeeds exactly on hexadecimal strings and fails with MalformedHex otherwise |
| `Delegation.SignMessage` | packages/sdk/src/signerContext.ts:80 | an approving wallet returns its signature over the personal-message hash as 0x-hex; a refusing one fails with SignerRejected |
| `Delegation.GetAddress` | packages/sdk/src/signerContext.ts:104 | the address string decodes to the wallet's address |
| `Delegation.WalletPrivateKey` | packages/sdk/src/signerContext.ts:127 | a wallet's private-key string is "0x" followed by the hexadecimal key, 66 characters in all |
| `Delegation.ParseWalletKey` | packages/sdk/src/signerContext.ts:138 | the wallet constructor accepts exactly the strings that decode to 32 bytes and fails with BadPrivateKey otherwise |
| `Delegation.ParseWalletKeyRoundTrip` | packages/sdk/src/signerContext.ts:138 | a wallet rebuilt from its own private-key string holds the same key |
| `Delegation.Slice2` | packages/sdk/src/signerContext.ts:145 | the accessor's key is the stored string without its first two characters (`0x`) |
| `Delegation.RecoverPublicKeyFromDelegateSig` | packages/sdk/src/signerContext.ts:52-68 | hash-source errors are passed on; otherwise recovery succeeds exactly when a public key is recovered from the personal-message hash, and the result is that key's 20-byte address |
| `Delegation.CheckDelegateSig` | packages/sdk/src/signerContext.ts:34-50 | passes if and only if the recovered address equals `creatorAddress` byte for byte; fails with BadDelegateSig if and only if recovery succeeds with a different address; a recovery failure is passed on unchanged |
| `Delegation.MakeRiverDelegateSig` | packages/sdk/src/signerContext.ts:70-82 | a device key that is not 65 bytes fails with BadPublicKey whatever the wallet does; with a 65-byte key, the hash-source error is passed on and a refusing wallet fails with SignerRejected; succeeds if and only if the key is 65 bytes, the expiry is in range and the wallet approves; the signature is the wallet's signature over the personal-message hash of the hash source |
| `Delegation.IssuedDelegationVerifies` | packages/sdk/src/signerContext.ts:40-82 | a delegation issued by a root wallet is accepted by checkDelegateSig for that device key, that expiry and the root's address |
| `Delegation.ExpiryFromDuration` | packages/sdk/src/signerContext.ts:183-202 | fails with BadExpiration exactly when the weighted sum of the fields is 0; otherwise the expiry exceeds `now` by that sum |
| `Delegation.MakeExpiryEpochMs` | packages/sdk/src/signerContext.ts:172-203 | the four guarded additions give `now + 86400000·days + 3600000·hours + 60000·minutes + 1000·seconds`, with absent or zero fields adding nothing, and a zero total is refused |
| `Delegation.EmptyDurationRefused` | packages/sdk/src/signerContext.ts:188-201 | a duration whose fields are all absent or zero is refused |
| `Delegation.CancellingDurationRefused` | packages/sdk/src/signerContext.ts:188-201 | fields that cancel out are refused, and a negative total is accepted |
| `Delegation.ResolveExpiry` | packages/sdk/src/signerContext.ts:96-98 | an absent expiry becomes 0, an absolute expiry passes through unchanged, and a duration is resolved as makeExpiryEpochMs does |
| `Delegation.MakeSignerContext` | packages/sdk/src/signerContext.ts:84-111 | succeeds exactly when the expiry resolves and the delegation is issued; otherwise the expiry error (BadExpiration) or the issuing error is passed on, in that order; the context carries the primary wallet's address, the delegate key without "0x", the issued signature and the resolved expiry |
| `Delegation.MadeContextIsConsistent` | packages/sdk/src/signerContext.ts:96-110 | the delegation in a made context recovers, with the delegate's public key, to the context's creator address |
| `Delegation.MakeSignerDelegate` | packages/sdk/src/signerContext.ts:152-170 | returns the generated delegate key together with the context made for it, and fails with makeSignerContext's error when that fails |
| `Delegation.MakeBearerToken` | packages/sdk/src/signerContext.ts:114-132 | the token is the lower-case, unprefixed hexadecimal rendering of the serialised record holding the delegate's private-key string, the signature and the expiry, and decodes back to that record's bytes; a failure to make the delegate is passed on |
| `Delegation.DecodeBearerToken` | packages/sdk/src/signerContext.ts:137 | parsing succeeds exactly when the string is hexadecimal and its bytes parse as a token; a non-hexadecimal string fails with MalformedHex and bytes that do not parse fail with MalformedToken |
| `Delegation.MakeSignerContextFromBearerToken` | packages/sdk/src/signerContext.ts:134-150 | succeeds exactly when the token decodes, its key string parses as a private key and the delegation recovers; otherwise the decoding error, BadPrivateKey or the recovery error is passed on, in that order; the creator address is the one recovered from the delegate key, signature and expiry, never read from the token; the signature and expiry are copied unchanged; the key loses its first two characters |
| `Delegation.BearerTokenRoundTrip` | packages/sdk/src/signerContext.ts:114-150 | the context rebuilt from a freshly made token equals the context it was made from, with the signer's address, the same signature and the same expiry |
| `Persistence.Merge` | packages/sdk/src/observable/persistedObservable.ts:91 | the merged record has the fields of both records; the partial's values overwrite and all other fields keep their values |
| `Persistence.UpdatedData` | packages/sdk/src/observable/persistedObservable.ts:88-92 | refuses an undefined partial with ValueUndefined and a partial that changes the id with IdMismatch, and nothing else; on success it returns the merge with the id unchanged |
| `Persistence.PersistedObservable.constructor` | packages/sdk/src/observable/persistedObservable.ts:51-55 | a new instance is loading with the initial data |
| `Persistence.PersistedObservable.Decorated` | packages/sdk/src/observable/persistedObservable.ts:24-36 | a decorated instance also has the registered table name, and its call to load leaves exactly one load awaiting the store |
| `Persistence.PersistedObservable.Data` | packages/sdk/src/observable/persistedObservable.ts:83-85 | the data getter returns the current value's record, which always has an id |
| `Persistence.PersistedObservable.Load` | packages/sdk/src/observable/persistedObservable.ts:57-73 | load is refused with AlreadyLoaded unless the status is loading; an accepted load adds one load awaiting the store and changes nothing else |
| `Persistence.PersistedObservable.OnLoadSuccess` | packages/sdk/src/observable/persistedObservable.ts:63-65 | answers a pending load: the status becomes loaded, with the loaded record if there is one, else the current data |
| `Persistence.PersistedObservable.OnLoadError` | packages/sdk/src/observable/persistedObservable.ts:66-68 | answers a pending load: the status becomes error, the data is kept and the error is recorded |
| `Persistence.PersistedObservable.SetValue` | packages/sdk/src/observable/persistedObservable.ts:79-81 | setValue always fails, so the state changes only through load and setData |
| `Persistence.PersistedObservable.SetData` | packages/sdk/src/observable/persistedObservable.ts:88-107 | refusals leave the state untouched; otherwise the status is loaded, the data is the merge, the id is unchanged, and a save starts that remembers the previous data |
| `Persistence.PersistedObservable.OnSaveError` | packages/sdk/src/observable/persistedObservable.ts:99-101 | a failed save sets status error and rolls the data back to what it was before that save's setData |
| `Persistence.PersistedObservable.OnSaveSuccess` | packages/sdk/src/observable/persistedObservable.ts:102-104 | a successful save leaves the value as it is |
| `Persistence.UpdateThenSaveFails` | packages/sdk/src/observable/persistedObservable.ts:88-101 | an accepted setData followed by a failed save ends in error with the data from before the update; a refused setData changes nothing |
| `Persistence.TableRegistry.constructor` | packages/sdk/src/observable/persistedObservable.ts:18 | the registry of table names starts empty |
| `Persistence.TableRegistry.Register` | packages/sdk/src/observable/persistedObservable.ts:21-23 | a name already registered is refused with DuplicateTableName and nothing changes; otherwise exactly that name is added |

## Left out

- Wallet creation, loading and saving in sign.go (`NewWallet`, `NewWalletFromPrivKey`, `NewWalletFromEnv`, `LoadWallet`, `SaveWallet`, `String`, `GoString`) are key generation, environment and file I/O, and logging.
- `SignHash`, `RecoverSignerPublicKey`, Keccak-256, secp256k1 and the ethers and `@ethereumjs/util` calls are foreign cryptography. They are the `Primitives` parameter, with only the recovery property assumed.
- `PackWithNonce` is a thin wrapper over go-ethereum's ABI packer.
- The bearer token's protobuf schema and its `toBinary`/`fromBinary` are generated code. They are the `TokenCodec` parameter, with only the round trip assumed.
- `bin_toHexString` and `bin_fromHexString` are library code. The `Hex` module is a plain stand-in: lower-case output, an optional "0x" prefix and either case on input.
- packages/sdk/src/sign.ts is not part of this model. Its `riverDelegateHashSrc` is taken to build the same bytes as Go's `RiverDelegateHashSrc`, including rejecting negative expiries.
- Delegation.MakeRiverDelegateSig and Delegation.RecoverPublicKeyFromDelegateSig: they refuse expiries above the largest int64 with ExpiryOutOfRange, through `Sign.DelegateHashSource`. Go's `int64` type rules these out; what the SDK helper does with such a bigint is not part of this model.
- `ecrecover` (signerContext.ts:65) returns the 64-byte public key without its format byte, and the SDK's `publicKeyToAddress` (in sign.ts) is taken to hash those 64 bytes. In the model, `recover` returns the 65-byte key with its format byte, and `Sign.PublicKeyToAddress` drops that byte before hashing. The address is the same Keccak suffix of the same 64 bytes.
- The string overloads of `delegatePubKey`, `creatorAddress` and `devicePubKey` are left out. The SDK converts them with `publicKeyToUint8Array` from sign.ts, which is not part of this model; the model takes bytes only.
- Delegation.ParseWalletKey: it does not check that the 32 bytes are a valid secp256k1 scalar, which the ethers wallet constructor also enforces.
- Delegation.GetAddress: it ignores the mixed-case checksum of the address string. The decoder accepts either case, so the bytes are the same.
- Delegation.MakeExpiryEpochMs: it takes integer fields only. JavaScript numbers are floating point, so fractional, huge or NaN durations are not modelled.
- The `async`/`await` suspension around the external wallet is left out. Issuing is one call that either returns a signature or fails (`RootSigner.approves`).
- The `Observable` base class (subscribers and notifications), the `Store`, its transactions, `loadPriority`, and the `onLoaded`/`onSaved` hooks are left out. The store's callbacks are explicit methods.
- Persistence.PersistedObservable.Decorated: it takes the table name as given and is not tied to a `TableRegistry`. The decorator registers the name when the class is defined, before any instance exists.
- Persistence.PersistedObservable.OnLoadSuccess: it requires a loaded record to carry an id, as the record type demands. It does not check that this id equals the requested one, and neither does the source.
- core/node/rpc/create_stream.go, the generated ABI files, packages/stress/src/demo.ts, core/cmd/ping_cmd.go and the device-key integration test are not part of this model.
