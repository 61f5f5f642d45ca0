/**
 * The SDK's delegated-signing credentials: issuing and checking a delegation
 * signature, computing an expiry from a duration, assembling a
 * `SignerContext`, and exporting it as a bearer token from which the context
 * can be rebuilt.
 *
 * The cryptographic primitives (Keccak-256, secp256k1 signing and public-key
 * recovery, the public key of a private key) are a record of functions passed
 * in as a parameter, and the bearer token's binary schema is a pair of
 * functions. The proofs rely on two properties of these, stated as
 * preconditions where needed: recovery inverts signing
 * (`RecoveryInvertsSigning`) and parsing inverts serialising
 * (`CodecRoundTrips`). The current time and the freshly generated device key
 * are parameters.
 */
module Delegation {
  import opened Common
  import opened Hex
  import opened Sign

  /** A secp256k1 private key: 32 bytes. */
  type PrivateKey = s: seq<byte> | |s| == 32 witness seq(32, _ => 1)

  /** An uncompressed secp256k1 public key: 65 bytes, as a wallet exposes it. */
  type PublicKey = s: seq<byte> | |s| == 65 witness seq(65, _ => 4)

  datatype Primitives = Primitives(
    keccak: seq<byte> -> Digest,
    publicKeyOf: PrivateKey -> PublicKey,
    sign: (PrivateKey, Digest) -> seq<byte>,
    recover: (Digest, seq<byte>) -> Option<PublicKey>)

  /** Recovering a signature over a digest yields the signer's public key. */
  ghost predicate RecoveryInvertsSigning(p: Primitives) {
    forall k: PrivateKey, d: Digest :: p.recover(d, p.sign(k, d)) == Some(p.publicKeyOf(k))
  }

  /** The address of the wallet that holds private key `k`. */
  function AddressOf(p: Primitives, k: PrivateKey): (address: seq<byte>)
    ensures |address| == 20
  {
    PublicKeyToAddress(p.keccak, p.publicKeyOf(k))
  }

  /** `hashPersonalMessage`: Keccak over the EIP-191 personal-message preimage. */
  function HashPersonalMessage(p: Primitives, message: seq<byte>): (d: Digest)
    ensures d == p.keccak(EthMessagePrefix + Bytes.Decimal(|message|) + message)
  {
    p.keccak(EthMessagePreimage(message))
  }

  /**
   * `bin_fromHexString`, with the failure it raises on a string that is not
   * hexadecimal.
   */
  function BinFromHex(s: string): (r: Result<seq<byte>>)
    ensures r.Success? <==> FromHex(s).Some?
    ensures r.Success? ==> FromHex(s) == Some(r.value)
    ensures r.Failure? ==> r.error == MalformedHex
  {
    match FromHex(s)
    case Some(bytes) => Success(bytes)
    case None => Failure(MalformedHex)
  }

  // ---------------------------------------------------------------------------
  // The external root wallet (an `ethers.Signer`)

  /**
   * The root wallet: it holds `key` and signs only when its owner approves;
   * a refusal rejects the `signMessage` promise.
   */
  datatype RootSigner = RootSigner(key: PrivateKey, approves: bool)

  /**
   * `signMessage`: the signature over the personal-message hash of
   * `message`, as a 0x-prefixed hexadecimal string.
   */
  function SignMessage(p: Primitives, signer: RootSigner, message: seq<byte>): (r: Result<string>)
    ensures r.Success? <==> signer.approves
    ensures r.Success? ==> r.value == "0x" + ToHex(p.sign(signer.key, HashPersonalMessage(p, message)))
    ensures r.Failure? ==> r.error == SignerRejected
  {
    if signer.approves then Success("0x" + ToHex(p.sign(signer.key, HashPersonalMessage(p, message))))
    else Failure(SignerRejected)
  }

  /** `getAddress`: the wallet's address as a 0x-prefixed hexadecimal string. */
  function GetAddress(p: Primitives, signer: RootSigner): (s: string)
    ensures FromHex(s) == Some(AddressOf(p, signer.key))
  {
    FromHexRoundTrip(AddressOf(p, signer.key));
    "0x" + ToHex(AddressOf(p, signer.key))
  }

  /** The `privateKey` property of an ethers wallet: "0x" and 64 hex digits. */
  function WalletPrivateKey(k: PrivateKey): (s: string)
    ensures |s| == 66 && s[..2] == "0x" && s[2..] == ToHex(k)
  {
    "0x" + ToHex(k)
  }

  /**
   * `new ethers.Wallet(privateKey)`: the string must decode to 32 bytes,
   * otherwise the constructor throws.
   */
  function ParseWalletKey(s: string): (r: Result<PrivateKey>)
    ensures r.Success? <==> FromHex(s).Some? && |FromHex(s).value| == 32
    ensures r.Success? ==> FromHex(s) == Some(r.value)
    ensures r.Failure? ==> r.error == BadPrivateKey
  {
    match FromHex(s)
    case Some(bytes) => if |bytes| == 32 then Success(bytes) else Failure(BadPrivateKey)
    case None => Failure(BadPrivateKey)
  }

  /** A wallet rebuilt from its own private-key string holds the same key. */
  lemma ParseWalletKeyRoundTrip(k: PrivateKey)
    ensures ParseWalletKey(WalletPrivateKey(k)) == Success(k)
  {
    FromHexRoundTrip(k);
  }

  /** JavaScript's `s.slice(2)`: everything after the first two characters, or "" if there are fewer. */
  function Slice2(s: string): (r: string)
    ensures |s| >= 2 ==> s == s[..2] + r
    ensures |s| < 2 ==> r == ""
  {
    if |s| >= 2 then s[2..] else ""
  }

  // ---------------------------------------------------------------------------
  // checkDelegateSig and recoverPublicKeyFromDelegateSig

  /**
   * `recoverPublicKeyFromDelegateSig`: rebuilds the delegation hash source,
   * takes its personal-message hash, passes the signature through its
   * 0x-hexadecimal form (`fromRPCSig`), recovers the signer's public key and
   * returns that key's address.
   */
  function RecoverPublicKeyFromDelegateSig(
    p: Primitives, delegatePubKey: seq<byte>, delegateSig: seq<byte>, expiryEpochMs: int): (r: Result<seq<byte>>)
    ensures DelegateHashSource(delegatePubKey, expiryEpochMs).Failure? ==>
      r == Failure(DelegateHashSource(delegatePubKey, expiryEpochMs).error)
    ensures r.Success? ==> |r.value| == 20
    ensures DelegateHashSource(delegatePubKey, expiryEpochMs).Success? ==>
      var digest := HashPersonalMessage(p, DelegateHashSource(delegatePubKey, expiryEpochMs).value);
      && (r.Success? <==> p.recover(digest, delegateSig).Some?)
      && (r.Success? ==> r.value == PublicKeyToAddress(p.keccak, p.recover(digest, delegateSig).value))
  {
    var hashSource :- DelegateHashSource(delegatePubKey, expiryEpochMs);
    var hash := HashPersonalMessage(p, hashSource);
    FromHexRoundTrip(delegateSig);
    match BinFromHex("0x" + ToHex(delegateSig))
    case Failure(e) => Failure(e)
    case Success(sig) =>
      match p.recover(hash, sig)
      case None => Failure(RecoveryFailed)
      case Some(publicKey) => Success(PublicKeyToAddress(p.keccak, publicKey))
  }

  /**
   * `checkDelegateSig`: passes exactly when the address recovered from the
   * delegation equals `creatorAddress` byte for byte; a mismatch fails with
   * `BAD_DELEGATE_SIG`, and a failure to recover is passed on.
   */
  function CheckDelegateSig(
    p: Primitives, delegatePubKey: seq<byte>, creatorAddress: seq<byte>,
    delegateSig: seq<byte>, expiryEpochMs: int): (r: Outcome)
    ensures r == Pass <==>
      RecoverPublicKeyFromDelegateSig(p, delegatePubKey, delegateSig, expiryEpochMs) == Success(creatorAddress)
    ensures r == Fail(BadDelegateSig) <==>
      var recovered := RecoverPublicKeyFromDelegateSig(p, delegatePubKey, delegateSig, expiryEpochMs);
      recovered.Success? && recovered.value != creatorAddress
    ensures var recovered := RecoverPublicKeyFromDelegateSig(p, delegatePubKey, delegateSig, expiryEpochMs);
      recovered.Failure? ==> r == Fail(recovered.error)
  {
    match RecoverPublicKeyFromDelegateSig(p, delegatePubKey, delegateSig, expiryEpochMs)
    case Failure(e) =>
      assert e != BadDelegateSig;
      Fail(e)
    case Success(recovered) => if recovered == creatorAddress then Pass else Fail(BadDelegateSig)
  }

  // ---------------------------------------------------------------------------
  // makeRiverDelegateSig

  /**
   * `makeRiverDelegateSig`: a device key that is not 65 bytes long fails with
   * `BAD_PUBLIC_KEY` before anything is asked of the wallet; otherwise the
   * wallet signs the delegation hash source and its hexadecimal answer is
   * decoded.
   */
  function MakeRiverDelegateSig(p: Primitives, primary: RootSigner, devicePubKey: seq<byte>, expiryEpochMs: int)
    : (r: Result<seq<byte>>)
    ensures |devicePubKey| != 65 ==> r == Failure(BadPublicKey)
    ensures r.Success? <==> |devicePubKey| == 65 && 0 <= expiryEpochMs <= MaxInt64 && primary.approves
    ensures |devicePubKey| == 65 && DelegateHashSource(devicePubKey, expiryEpochMs).Failure? ==>
      r == Failure(DelegateHashSource(devicePubKey, expiryEpochMs).error)
    ensures |devicePubKey| == 65 && DelegateHashSource(devicePubKey, expiryEpochMs).Success? && !primary.approves ==>
      r == Failure(SignerRejected)
    ensures r.Success? ==>
      r.value == p.sign(primary.key, HashPersonalMessage(p, DelegateHashSource(devicePubKey, expiryEpochMs).value))
  {
    if |devicePubKey| != 65 then Failure(BadPublicKey)
    else
      var hashSrc :- DelegateHashSource(devicePubKey, expiryEpochMs);
      var signed :- SignMessage(p, primary, hashSrc);
      FromHexRoundTrip(p.sign(primary.key, HashPersonalMessage(p, hashSrc)));
      BinFromHex(signed)
  }

  /**
   * The partner of issuing: a delegation issued by a root wallet for a device
   * key is accepted by `checkDelegateSig` for that device key, that expiry
   * and the root wallet's address.
   */
  lemma IssuedDelegationVerifies(p: Primitives, primary: RootSigner, device: PrivateKey, expiryEpochMs: int)
    requires RecoveryInvertsSigning(p)
    requires MakeRiverDelegateSig(p, primary, p.publicKeyOf(device), expiryEpochMs).Success?
    ensures var sig := MakeRiverDelegateSig(p, primary, p.publicKeyOf(device), expiryEpochMs).value;
      CheckDelegateSig(p, p.publicKeyOf(device), AddressOf(p, primary.key), sig, expiryEpochMs) == Pass
  {
    var sig := MakeRiverDelegateSig(p, primary, p.publicKeyOf(device), expiryEpochMs).value;
    var src := DelegateHashSource(p.publicKeyOf(device), expiryEpochMs).value;
    var digest := HashPersonalMessage(p, src);
    assert p.recover(digest, p.sign(primary.key, digest)) == Some(p.publicKeyOf(primary.key));
  }

  // ---------------------------------------------------------------------------
  // makeExpiryEpochMs

  const MsPerSecond: int := 1000
  const MsPerMinute: int := MsPerSecond * 60
  const MsPerHour: int := MsPerMinute * 60
  const MsPerDay: int := MsPerHour * 24

  /** An expiry given as a duration; an absent field is `None`. */
  datatype Duration = Duration(days: Option<int>, hours: Option<int>, minutes: Option<int>, seconds: Option<int>)

  /** The duration in milliseconds; absent fields count as zero. */
  function DurationMs(d: Duration): int {
    86_400_000 * d.days.GetOr(0) + 3_600_000 * d.hours.GetOr(0)
    + 60_000 * d.minutes.GetOr(0) + 1000 * d.seconds.GetOr(0)
  }

  /** The expiry `now + duration`, refused when the duration adds up to zero. */
  function ExpiryFromDuration(d: Duration, now: int): (r: Result<int>)
    ensures r.Failure? <==> DurationMs(d) == 0
    ensures r.Failure? ==> r.error == BadExpiration
    ensures r.Success? ==> r.value - now == DurationMs(d)
  {
    if DurationMs(d) == 0 then Failure(BadExpiration) else Success(now + DurationMs(d))
  }

  /**
   * `makeExpiryEpochMs`: adds each present, non-zero field's milliseconds to
   * `delta` in turn, refuses a `delta` of zero, and offsets the current time.
   */
  method MakeExpiryEpochMs(d: Duration, now: int) returns (r: Result<int>)
    ensures r == ExpiryFromDuration(d, now)
    ensures r.Failure? <==> DurationMs(d) == 0
    ensures r.Success? ==> r.value == now + DurationMs(d)
  {
    var delta := 0;
    if d.days.Some? && d.days.value != 0 {
      delta := delta + MsPerDay * d.days.value;
    }
    if d.hours.Some? && d.hours.value != 0 {
      delta := delta + MsPerHour * d.hours.value;
    }
    if d.minutes.Some? && d.minutes.value != 0 {
      delta := delta + MsPerMinute * d.minutes.value;
    }
    if d.seconds.Some? && d.seconds.value != 0 {
      delta := delta + MsPerSecond * d.seconds.value;
    }
    if delta == 0 {
      return Failure(BadExpiration);
    }
    return Success(now + delta);
  }

  /** A duration with every field absent or zero is refused. */
  lemma EmptyDurationRefused(d: Duration, now: int)
    requires d.days.GetOr(0) == 0 && d.hours.GetOr(0) == 0
    requires d.minutes.GetOr(0) == 0 && d.seconds.GetOr(0) == 0
    ensures ExpiryFromDuration(d, now) == Failure(BadExpiration)
  {
  }

  /**
   * The check is on the total, not on the fields: fields that cancel out are
   * refused too, and a negative total is accepted.
   */
  lemma CancellingDurationRefused(now: int)
    ensures ExpiryFromDuration(Duration(Some(1), Some(-24), None, None), now) == Failure(BadExpiration)
    ensures ExpiryFromDuration(Duration(None, None, None, Some(-1)), now) == Success(now - 1000)
  {
  }

  // ---------------------------------------------------------------------------
  // SignerContext and makeSignerContext

  /**
   * The credential bundle. `signerPrivateKey` is the string the context's
   * accessor returns; the delegation fields are present in a delegated
   * context and absent in a self-signed one.
   */
  datatype SignerContext = SignerContext(
    signerPrivateKey: string,
    creatorAddress: seq<byte>,
    delegateSig: Option<seq<byte>>,
    delegateExpiryEpochMs: Option<int>)

  /** The expiry argument: an absolute epoch time in milliseconds or a duration from now. */
  datatype ExpiryInput = EpochMs(ms: int) | After(duration: Duration)

  /**
   * How `makeSignerContext` settles the expiry: absent means 0, an absolute
   * value passes through unchanged, a duration goes through
   * `makeExpiryEpochMs`.
   */
  function ResolveExpiry(inExpiry: Option<ExpiryInput>, now: int): (r: Result<int>)
    ensures inExpiry.None? ==> r == Success(0)
    ensures inExpiry.Some? && inExpiry.value.EpochMs? ==> r == Success(inExpiry.value.ms)
    ensures inExpiry.Some? && inExpiry.value.After? ==>
      (r.Failure? <==> DurationMs(inExpiry.value.duration) == 0)
    ensures inExpiry.Some? && inExpiry.value.After? && r.Success? ==>
      r.value == now + DurationMs(inExpiry.value.duration)
  {
    match inExpiry.GetOr(EpochMs(0))
    case EpochMs(ms) => Success(ms)
    case After(d) => ExpiryFromDuration(d, now)
  }

  /**
   * `makeSignerContext`: settles the expiry, has the primary wallet sign a
   * delegation for the delegate wallet's public key, and returns a context
   * that signs with the delegate key (its "0x" prefix removed) on behalf of
   * the primary wallet's address.
   */
  function MakeSignerContext(
    p: Primitives, primary: RootSigner, delegateKey: PrivateKey, inExpiry: Option<ExpiryInput>, now: int)
    : (r: Result<SignerContext>)
    ensures r.Success? <==>
      && ResolveExpiry(inExpiry, now).Success?
      && MakeRiverDelegateSig(p, primary, p.publicKeyOf(delegateKey), ResolveExpiry(inExpiry, now).value).Success?
    ensures r.Success? ==>
      var expiry := ResolveExpiry(inExpiry, now).value;
      && r.value.creatorAddress == AddressOf(p, primary.key)
      && r.value.signerPrivateKey == ToHex(delegateKey)
      && r.value.delegateSig == Some(MakeRiverDelegateSig(p, primary, p.publicKeyOf(delegateKey), expiry).value)
      && r.value.delegateExpiryEpochMs == Some(expiry)
    // the failing step's error is passed on
    ensures ResolveExpiry(inExpiry, now).Failure? ==> r == Failure(ResolveExpiry(inExpiry, now).error)
    ensures ResolveExpiry(inExpiry, now).Success? ==>
      var issued := MakeRiverDelegateSig(p, primary, p.publicKeyOf(delegateKey), ResolveExpiry(inExpiry, now).value);
      issued.Failure? ==> r == Failure(issued.error)
  {
    var delegateExpiryEpochMs :- ResolveExpiry(inExpiry, now);
    var delegateSig :- MakeRiverDelegateSig(p, primary, p.publicKeyOf(delegateKey), delegateExpiryEpochMs);
    match BinFromHex(GetAddress(p, primary))
    case Failure(e) => Failure(e)
    case Success(creatorAddress) =>
      Success(SignerContext(
        Slice2(WalletPrivateKey(delegateKey)), creatorAddress, Some(delegateSig), Some(delegateExpiryEpochMs)))
  }

  /**
   * A context made by `makeSignerContext` is consistent: the delegation it
   * carries recovers, with the delegate's public key, to its creator address.
   */
  lemma MadeContextIsConsistent(
    p: Primitives, primary: RootSigner, delegateKey: PrivateKey, inExpiry: Option<ExpiryInput>, now: int)
    requires RecoveryInvertsSigning(p)
    requires MakeSignerContext(p, primary, delegateKey, inExpiry, now).Success?
    ensures var ctx := MakeSignerContext(p, primary, delegateKey, inExpiry, now).value;
      && ctx.delegateSig.Some? && ctx.delegateExpiryEpochMs.Some?
      && CheckDelegateSig(p, p.publicKeyOf(delegateKey), ctx.creatorAddress,
                          ctx.delegateSig.value, ctx.delegateExpiryEpochMs.value) == Pass
  {
    IssuedDelegationVerifies(p, primary, delegateKey, ResolveExpiry(inExpiry, now).value);
  }

  /** What `makeSignerDelegate` returns: the fresh delegate wallet and its context. */
  datatype SignerDelegate = SignerDelegate(delegateWallet: PrivateKey, signerContext: SignerContext)

  /**
   * `makeSignerDelegate`: `randomKey` stands for the key that
   * `ethers.Wallet.createRandom()` generates.
   */
  function MakeSignerDelegate(
    p: Primitives, signer: RootSigner, randomKey: PrivateKey, expiry: Option<ExpiryInput>, now: int)
    : (r: Result<SignerDelegate>)
    ensures r.Success? <==> MakeSignerContext(p, signer, randomKey, expiry, now).Success?
    ensures r.Success? ==> r.value.delegateWallet == randomKey
    ensures r.Success? ==> r.value.signerContext == MakeSignerContext(p, signer, randomKey, expiry, now).value
    ensures r.Failure? ==> r.error == MakeSignerContext(p, signer, randomKey, expiry, now).error
  {
    var signerContext :- MakeSignerContext(p, signer, randomKey, expiry, now);
    Success(SignerDelegate(randomKey, signerContext))
  }

  // ---------------------------------------------------------------------------
  // Bearer tokens

  /** The fields of the bearer-token record. */
  datatype BearerToken = BearerToken(delegatePrivateKey: string, delegateSig: seq<byte>, expiryEpochMs: int)

  /** The token's binary schema: serialisation and parsing (which can fail). */
  datatype TokenCodec = TokenCodec(
    toBinary: BearerToken -> seq<byte>,
    fromBinary: seq<byte> -> Option<BearerToken>)

  ghost predicate CodecRoundTrips(c: TokenCodec) {
    forall t :: c.fromBinary(c.toBinary(t)) == Some(t)
  }

  /**
   * `makeBearerToken`: makes a delegate wallet and context, records the
   * delegate's private-key string, the signature and the expiry (an unset
   * field takes the schema's default), serialises the record and renders it
   * in hexadecimal.
   */
  function MakeBearerToken(
    p: Primitives, codec: TokenCodec, signer: RootSigner, randomKey: PrivateKey, expiry: ExpiryInput, now: int)
    : (r: Result<string>)
    ensures r.Success? <==> MakeSignerDelegate(p, signer, randomKey, Some(expiry), now).Success?
    ensures r.Failure? ==> r.error == MakeSignerDelegate(p, signer, randomKey, Some(expiry), now).error
    // lower-case hexadecimal with no prefix, which decodes back to the serialised record
    ensures r.Success? ==>
      var ctx := MakeSignerDelegate(p, signer, randomKey, Some(expiry), now).value.signerContext;
      var token := BearerToken(WalletPrivateKey(randomKey), ctx.delegateSig.value, ctx.delegateExpiryEpochMs.value);
      && r.value == ToHex(codec.toBinary(token))
      && FromHex(r.value) == Some(codec.toBinary(token))
  {
    var delegate :- MakeSignerDelegate(p, signer, randomKey, Some(expiry), now);
    var token := BearerToken(
      WalletPrivateKey(delegate.delegateWallet),
      delegate.signerContext.delegateSig.GetOr([]),
      delegate.signerContext.delegateExpiryEpochMs.GetOr(0));
    FromHexRoundTrip(codec.toBinary(token));
    Success(ToHex(codec.toBinary(token)))
  }

  /** `fromBinary(BearerTokenSchema, bin_fromHexString(s))`, with its parse failure. */
  function DecodeBearerToken(codec: TokenCodec, bearerTokenStr: string): (r: Result<BearerToken>)
    ensures r.Success? <==> FromHex(bearerTokenStr).Some? && codec.fromBinary(FromHex(bearerTokenStr).value).Some?
    ensures r.Success? ==> Some(r.value) == codec.fromBinary(FromHex(bearerTokenStr).value)
    ensures FromHex(bearerTokenStr).None? ==> r == Failure(MalformedHex)
    ensures FromHex(bearerTokenStr).Some? && codec.fromBinary(FromHex(bearerTokenStr).value).None? ==>
      r == Failure(MalformedToken)
  {
    var bytes :- BinFromHex(bearerTokenStr);
    match codec.fromBinary(bytes)
    case None => Failure(MalformedToken)
    case Some(token) => Success(token)
  }

  /**
   * `makeSignerContextFromBearerToken`: rebuilds the delegate wallet from the
   * token's private key and derives the creator address by recovery from the
   * delegation; the address is never read from the token. The signature and
   * expiry are copied unchanged, and the accessor returns the stored key
   * string without its first two characters.
   */
  function MakeSignerContextFromBearerToken(p: Primitives, codec: TokenCodec, bearerTokenStr: string)
    : (r: Result<SignerContext>)
    // each step's failure is passed on unchanged
    ensures DecodeBearerToken(codec, bearerTokenStr).Failure? ==>
      r == Failure(DecodeBearerToken(codec, bearerTokenStr).error)
    ensures DecodeBearerToken(codec, bearerTokenStr).Success? ==>
      var token := DecodeBearerToken(codec, bearerTokenStr).value;
      ParseWalletKey(token.delegatePrivateKey).Failure? ==> r == Failure(BadPrivateKey)
    ensures DecodeBearerToken(codec, bearerTokenStr).Success? ==>
      var token := DecodeBearerToken(codec, bearerTokenStr).value;
      ParseWalletKey(token.delegatePrivateKey).Success? ==>
      var recovered := RecoverPublicKeyFromDelegateSig(
        p, p.publicKeyOf(ParseWalletKey(token.delegatePrivateKey).value), token.delegateSig, token.expiryEpochMs);
      recovered.Failure? ==> r == Failure(recovered.error)
    // and it succeeds exactly when every step does
    ensures r.Success? <==>
      && DecodeBearerToken(codec, bearerTokenStr).Success?
      && var token := DecodeBearerToken(codec, bearerTokenStr).value;
      && ParseWalletKey(token.delegatePrivateKey).Success?
      && RecoverPublicKeyFromDelegateSig(
           p, p.publicKeyOf(ParseWalletKey(token.delegatePrivateKey).value), token.delegateSig, token.expiryEpochMs)
         .Success?
    ensures r.Success? ==>
      && DecodeBearerToken(codec, bearerTokenStr).Success?
      && var token := DecodeBearerToken(codec, bearerTokenStr).value;
      && ParseWalletKey(token.delegatePrivateKey).Success?
      && var delegatePubKey := p.publicKeyOf(ParseWalletKey(token.delegatePrivateKey).value);
      && RecoverPublicKeyFromDelegateSig(p, delegatePubKey, token.delegateSig, token.expiryEpochMs)
         == Success(r.value.creatorAddress)
      && r.value.delegateSig == Some(token.delegateSig)
      && r.value.delegateExpiryEpochMs == Some(token.expiryEpochMs)
      && r.value.signerPrivateKey == Slice2(token.delegatePrivateKey)
  {
    var bearerToken :- DecodeBearerToken(codec, bearerTokenStr);
    var delegateWallet :- ParseWalletKey(bearerToken.delegatePrivateKey);
    var creatorAddress :- RecoverPublicKeyFromDelegateSig(
      p, p.publicKeyOf(delegateWallet), bearerToken.delegateSig, bearerToken.expiryEpochMs);
    Success(SignerContext(
      Slice2(bearerToken.delegatePrivateKey), creatorAddress,
      Some(bearerToken.delegateSig), Some(bearerToken.expiryEpochMs)))
  }

  /**
   * Round trip: the context rebuilt from a freshly made bearer token is the
   * very context the token was made from, so it names the signer's address,
   * the same signature and the same expiry.
   */
  lemma BearerTokenRoundTrip(
    p: Primitives, codec: TokenCodec, signer: RootSigner, randomKey: PrivateKey, expiry: ExpiryInput, now: int)
    requires RecoveryInvertsSigning(p) && CodecRoundTrips(codec)
    requires MakeBearerToken(p, codec, signer, randomKey, expiry, now).Success?
    ensures var token := MakeBearerToken(p, codec, signer, randomKey, expiry, now).value;
      var ctx := MakeSignerContext(p, signer, randomKey, Some(expiry), now).value;
      && MakeSignerContextFromBearerToken(p, codec, token) == Success(ctx)
      && ctx.creatorAddress == AddressOf(p, signer.key)
  {
    var ctx := MakeSignerContext(p, signer, randomKey, Some(expiry), now).value;
    var token := BearerToken(WalletPrivateKey(randomKey), ctx.delegateSig.value, ctx.delegateExpiryEpochMs.value);
    var tokenStr := MakeBearerToken(p, codec, signer, randomKey, expiry, now).value;
    assert codec.fromBinary(codec.toBinary(token)) == Some(token);
    assert DecodeBearerToken(codec, tokenStr) == Success(token);
    ParseWalletKeyRoundTrip(randomKey);
    MadeContextIsConsistent(p, signer, randomKey, Some(expiry), now);
  }
}
