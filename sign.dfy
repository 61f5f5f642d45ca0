/**
 * The hash layouts of the Go node's `crypto` package: the domain-separated
 * `TownsHash` preimage, the delegation hash source that a root wallet signs
 * to authorise a device key, address derivation, and the EIP-191 personal
 * message prefix.
 *
 * Keccak-256 is not implemented: every operation that hashes takes the hash
 * function as a parameter `keccak`, and nothing is assumed of it beyond its
 * 32-byte output.
 */
module Sign {
  import opened Common
  import opened Bytes

  /** A `common.Hash`: exactly 32 bytes. */
  type Digest = s: seq<byte> | |s| == 32 witness seq(32, _ => 0)

  /** Go's `int64`. */
  type Int64 = x: int | -0x8000_0000_0000_0000 <= x < 0x8000_0000_0000_0000

  const MaxInt64: int := 0x7FFF_FFFF_FFFF_FFFF
  const TwoTo64: int := 0x1_0000_0000_0000_0000

  /** A `TownsHash`: the 8-byte header that separates one kind of hash from another. */
  type TownsHash = s: seq<byte> | |s| == 8 witness seq(8, _ => 0)

  /** 'ABCDEFG>' */
  const HashSeparator: seq<byte> := [65, 66, 67, 68, 69, 70, 71, 62]
  /** '<GFEDCBA' */
  const HashFooter: seq<byte> := [60, 71, 70, 69, 68, 67, 66, 65]
  /** 'RIVERSIG' */
  const DelegateHashHeader: seq<byte> := [82, 73, 86, 69, 82, 83, 73, 71]

  /** 'CSBLANCA', for events. */
  const TownsHashForEvents: TownsHash := [67, 83, 66, 76, 65, 78, 67, 65]
  /** 'SNAPSHOT', for snapshots. */
  const TownsHashForSnapshots: TownsHash := [83, 78, 65, 80, 83, 72, 79, 84]
  /** 'INTRCERT', for node-to-node certificate hashes. */
  const TownsHashForCert: TownsHash := [73, 78, 84, 82, 67, 69, 82, 84]

  /** The byte constants spell the strings their comments name. */
  lemma ConstantsSpellTheirNames()
    ensures HashSeparator == Ascii("ABCDEFG>")
    ensures HashFooter == Ascii("<GFEDCBA")
    ensures DelegateHashHeader == Ascii("RIVERSIG")
    ensures TownsHashForEvents == Ascii("CSBLANCA")
    ensures TownsHashForSnapshots == Ascii("SNAPSHOT")
    ensures TownsHashForCert == Ascii("INTRCERT")
  {
  }

  // ---------------------------------------------------------------------------
  // TownsHash.Hash

  /**
   * What `TownsHash.Hash` feeds to Keccak: the header, the buffer length as a
   * 64-bit little-endian unsigned integer (`uint64(len(buffer))`), the
   * separator, the buffer and the footer.
   */
  function TownsHashPreimage(h: TownsHash, buffer: seq<byte>): (r: seq<byte>)
    ensures |r| == |buffer| + 32
  {
    h + LittleEndian(|buffer| % TwoTo64, 8) + HashSeparator + buffer + HashFooter
  }

  /** Every field of the preimage can be read back from it, the length included. */
  lemma TownsHashPreimageFields(h: TownsHash, buffer: seq<byte>)
    requires |buffer| < TwoTo64
    ensures var p := TownsHashPreimage(h, buffer);
      && p[..8] == h
      && FromLittleEndian(p[8..16]) == |buffer|
      && p[16..24] == HashSeparator
      && p[24..|p| - 8] == buffer
      && p[|p| - 8..] == HashFooter
  {
    var p := TownsHashPreimage(h, buffer);
    assert Pow256(8) == TwoTo64;
    assert p[8..16] == LittleEndian(|buffer|, 8);
    LittleEndianRoundTrip(|buffer|, 8);
  }

  /** Under one header, distinct buffers give distinct preimages. */
  lemma TownsHashPreimageInjective(h: TownsHash, b1: seq<byte>, b2: seq<byte>)
    requires TownsHashPreimage(h, b1) == TownsHashPreimage(h, b2)
    ensures b1 == b2
  {
    var p := TownsHashPreimage(h, b1);
    assert |b1| == |b2|;
    assert b1 == p[24..|p| - 8];
    assert b2 == TownsHashPreimage(h, b2)[24..|p| - 8];
  }

  /** Domain separation: distinct headers never share a preimage, whatever the buffers. */
  lemma TownsHashDomainSeparation(h1: TownsHash, h2: TownsHash, b1: seq<byte>, b2: seq<byte>)
    requires h1 != h2
    ensures TownsHashPreimage(h1, b1) != TownsHashPreimage(h2, b2)
  {
    assert TownsHashPreimage(h1, b1)[..8] == h1;
    assert TownsHashPreimage(h2, b2)[..8] == h2;
  }

  /** The three headers in use are pairwise distinct. */
  lemma TownsHashHeadersDistinct()
    ensures TownsHashForEvents != TownsHashForSnapshots
    ensures TownsHashForEvents != TownsHashForCert
    ensures TownsHashForSnapshots != TownsHashForCert
  {
    assert TownsHashForEvents[0] != TownsHashForSnapshots[0];
    assert TownsHashForEvents[0] != TownsHashForCert[0];
    assert TownsHashForSnapshots[0] != TownsHashForCert[0];
  }

  /**
   * `TownsHash.Hash`: writes header, length bytes, separator, buffer and
   * footer into the hasher one after another and returns the digest.
   */
  method Hash(keccak: seq<byte> -> Digest, h: TownsHash, buffer: seq<byte>) returns (digest: Digest)
    ensures digest == keccak(TownsHashPreimage(h, buffer))
  {
    var written: seq<byte> := [];
    written := written + h;
    var l := |buffer| % TwoTo64;
    LittleEndian64Bytes(l);
    written := written + [
      l % 0x100,
      (l / 0x100) % 0x100,
      (l / 0x1_0000) % 0x100,
      (l / 0x100_0000) % 0x100,
      (l / 0x1_0000_0000) % 0x100,
      (l / 0x100_0000_0000) % 0x100,
      (l / 0x1_0000_0000_0000) % 0x100,
      (l / 0x100_0000_0000_0000) % 0x100];
    written := written + HashSeparator;
    written := written + buffer;
    written := written + HashFooter;
    assert written == TownsHashPreimage(h, buffer);
    digest := keccak(written);
  }

  // ---------------------------------------------------------------------------
  // RiverDelegateHashSrc

  /**
   * The bytes a root wallet signs to authorise `key` until `expiryEpochMs`:
   * 'RIVERSIG', the raw public key, then the expiry as an 8-byte
   * little-endian integer. A negative expiry and a key of any length other
   * than 64 or 65 are rejected, in that order. An expiry above the largest
   * `int64` cannot reach the Go function; callers with unbounded integers get
   * `ExpiryOutOfRange` for it.
   */
  function DelegateHashSource(key: seq<byte>, expiryEpochMs: int): (r: Result<seq<byte>>)
    ensures r.Success? <==> 0 <= expiryEpochMs <= MaxInt64 && (|key| == 64 || |key| == 65)
    ensures expiryEpochMs < 0 ==> r == Failure(NegativeExpiry)
    ensures 0 <= expiryEpochMs && |key| != 64 && |key| != 65 ==> r == Failure(BadKeyLength)
    ensures r.Success? ==> |r.value| == |key| + 16
    ensures r.Success? ==> r.value == DelegateHashHeader + key + LittleEndian(expiryEpochMs, 8)
    ensures r.Success? ==> DecodeDelegateHashSource(r.value) == Some((key, expiryEpochMs))
  {
    if expiryEpochMs < 0 then Failure(NegativeExpiry)
    else if |key| != 64 && |key| != 65 then Failure(BadKeyLength)
    else if expiryEpochMs > MaxInt64 then Failure(ExpiryOutOfRange)
    else
      var src := DelegateHashHeader + key + LittleEndian(expiryEpochMs, 8);
      assert src[..8] == DelegateHashHeader;
      assert src[8..|src| - 8] == key;
      assert src[|src| - 8..] == LittleEndian(expiryEpochMs, 8);
      assert Pow256(8) == TwoTo64;
      LittleEndianRoundTrip(expiryEpochMs, 8);
      assert FromLittleEndian(src[|src| - 8..]) == expiryEpochMs;
      assert |src| == 8 + |key| + 8;
      assert DecodeDelegateHashSource(src) == Some((key, expiryEpochMs));
      Success(src)
  }

  /** Reads the key and the expiry back from a delegation hash source. */
  function DecodeDelegateHashSource(src: seq<byte>): Option<(seq<byte>, int)> {
    if (|src| == 80 || |src| == 81) && src[..8] == DelegateHashHeader then
      var expiry := FromLittleEndian(src[|src| - 8..]);
      if expiry <= MaxInt64 then Some((src[8..|src| - 8], expiry)) else None
    else None
  }

  /** Every decodable byte string is the hash source of what it decodes to. */
  lemma DecodeDelegateHashSourceSound(src: seq<byte>)
    requires DecodeDelegateHashSource(src).Some?
    ensures var (key, expiry) := DecodeDelegateHashSource(src).value;
      DelegateHashSource(key, expiry) == Success(src)
  {
    var (key, expiry) := DecodeDelegateHashSource(src).value;
    FromLittleEndianRoundTrip(src[|src| - 8..]);
    assert |key| == |src| - 16;
    assert 0 <= expiry <= MaxInt64;
    assert src == DelegateHashHeader + key + LittleEndian(expiry, 8);
  }

  /**
   * Distinct (key, expiry) pairs give distinct hash sources, so a delegation
   * signature binds one device key and one expiry.
   */
  lemma DelegateHashSourceInjective(k1: seq<byte>, e1: int, k2: seq<byte>, e2: int)
    requires DelegateHashSource(k1, e1).Success?
    requires DelegateHashSource(k1, e1) == DelegateHashSource(k2, e2)
    ensures k1 == k2 && e1 == e2
  {
  }

  /** An expiry of 0 is accepted; only negative expiries are refused. */
  lemma ZeroExpiryAccepted(key: seq<byte>)
    requires |key| == 64 || |key| == 65
    ensures DelegateHashSource(key, 0) == Success(DelegateHashHeader + key + seq(8, _ => 0))
  {
    assert LittleEndian(0, 8) == seq(8, _ => 0);
  }

  /**
   * `RiverDelegateHashSrc`: the two argument checks, then the header, the key
   * and the expiry written into a buffer one after another. With Go's
   * `int64` expiry, the out-of-range error never arises.
   */
  method RiverDelegateHashSrc(delegatePublicKey: seq<byte>, expiryEpochMs: Int64) returns (r: Result<seq<byte>>)
    ensures r == DelegateHashSource(delegatePublicKey, expiryEpochMs)
    ensures r != Failure(ExpiryOutOfRange)
  {
    if expiryEpochMs < 0 {
      return Failure(NegativeExpiry);
    }
    if |delegatePublicKey| != 64 && |delegatePublicKey| != 65 {
      return Failure(BadKeyLength);
    }
    var writer: seq<byte> := [];
    writer := writer + DelegateHashHeader;
    writer := writer + delegatePublicKey;
    // binary.Write of a non-negative int64 in little-endian order
    writer := writer + LittleEndian(expiryEpochMs, 8);
    assert expiryEpochMs <= MaxInt64;
    assert writer == DelegateHashHeader + delegatePublicKey + LittleEndian(expiryEpochMs, 8);
    assert DelegateHashSource(delegatePublicKey, expiryEpochMs).Success?;
    return Success(writer);
  }

  // ---------------------------------------------------------------------------
  // PublicKeyToAddress

  /**
   * Drops the format byte of an uncompressed public key, hashes the rest and
   * keeps the last 20 bytes of the digest. An empty key makes Go's slice
   * expression panic, so callers must pass at least one byte.
   */
  function PublicKeyToAddress(keccak: seq<byte> -> Digest, publicKey: seq<byte>): (address: seq<byte>)
    requires |publicKey| >= 1
    ensures |address| == 20
    ensures keccak(publicKey[1..])[..12] + address == keccak(publicKey[1..])
  {
    keccak(publicKey[1..])[12..]
  }

  /** The address does not depend on the key's first (format) byte. */
  lemma AddressIgnoresFormatByte(keccak: seq<byte> -> Digest, k1: seq<byte>, k2: seq<byte>)
    requires |k1| >= 1 && |k2| >= 1 && k1[1..] == k2[1..]
    ensures PublicKeyToAddress(keccak, k1) == PublicKeyToAddress(keccak, k2)
  {
  }

  // ---------------------------------------------------------------------------
  // ToEthMessageHash

  /** "\x19Ethereum Signed Message:\n" */
  const EthMessagePrefix: seq<byte> := [0x19] + Ascii("Ethereum Signed Message:\n")

  /**
   * The EIP-191 personal-message preimage: the prefix, the message length in
   * decimal, then the message.
   */
  function EthMessagePreimage(message: seq<byte>): (r: seq<byte>)
    ensures |r| == 26 + |Decimal(|message|)| + |message|
    ensures r[..26] == EthMessagePrefix && r[|r| - |message|..] == message
  {
    EthMessagePrefix + Decimal(|message|) + message
  }

  /**
   * The preimage determines the message: its length grows strictly with the
   * message length, and the message is its suffix.
   */
  lemma EthMessagePreimageInjective(m1: seq<byte>, m2: seq<byte>)
    requires EthMessagePreimage(m1) == EthMessagePreimage(m2)
    ensures m1 == m2
  {
    if |m1| < |m2| {
      DecimalLengthMonotone(|m1|, |m2|);
      assert false;
    } else if |m2| < |m1| {
      DecimalLengthMonotone(|m2|, |m1|);
      assert false;
    }
  }

  /**
   * `ToEthMessageHash`: a `common.Hash` is always 32 bytes long, so the
   * length written into the prefix is always "32".
   */
  function ToEthMessageHash(keccak: seq<byte> -> Digest, messageHash: Digest): (r: Digest)
    ensures r == keccak(EthMessagePrefix + Ascii("32") + messageHash)
  {
    assert Decimal(32) == Ascii("32");
    keccak(EthMessagePreimage(messageHash))
  }
}
