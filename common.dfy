/**
 * Types shared by every module of the model: bytes, the optional value and
 * the result of an operation that can fail, and the error conditions that the
 * Go node and the TypeScript SDK raise.
 */
module Common {

  /** A byte, as Go's `byte` and an element of a JavaScript `Uint8Array`. */
  type byte = b: int | 0 <= b < 256

  datatype Option<+T> = None | Some(value: T) {
    function GetOr(default: T): T {
      match this
      case Some(v) => v
      case None => default
    }
  }

  /**
   * Every error the modelled code raises. In Go these are `RiverError`
   * values; in TypeScript they are exceptions thrown by `check(...)` or by a
   * library the SDK calls.
   */
  datatype Error =
    // sign.go: Err_INVALID_ARGUMENT, "expiryEpochMs must be non-negative"
    | NegativeExpiry
    // sign.go: Err_INVALID_ARGUMENT, "delegatePublicKey must be 64 or 65 bytes"
    | BadKeyLength
    // an expiry that does not fit the signed 64-bit field of the hash source
    | ExpiryOutOfRange
    // signerContext.ts: Err.BAD_PUBLIC_KEY, "Bad public key"
    | BadPublicKey
    // signerContext.ts: Err.BAD_DELEGATE_SIG, "delegateSig does not match creatorAddress"
    | BadDelegateSig
    // signerContext.ts: "Bad expiration, no values were set"
    | BadExpiration
    // the external wallet refused to sign (its promise rejected)
    | SignerRejected
    // a string that is not hexadecimal
    | MalformedHex
    // bytes that do not parse as a bearer token
    | MalformedToken
    // a private-key string the wallet constructor does not accept
    | BadPrivateKey
    // no public key can be recovered from the signature
    | RecoveryFailed
    // persistedObservable.ts: "already loaded"
    | AlreadyLoaded
    // persistedObservable.ts: "value is undefined"
    | ValueUndefined
    // persistedObservable.ts: "id mismatch"
    | IdMismatch
    // persistedObservable.ts: "use updateData instead of set value"
    | UseUpdateData
    // persistedObservable.ts: "duplicate table name: ..."
    | DuplicateTableName

  datatype Result<+T> = Success(value: T) | Failure(error: Error) {
    predicate IsFailure() {
      Failure?
    }

    function PropagateFailure<U>(): Result<U>
      requires Failure?
    {
      Failure(error)
    }

    function Extract(): T
      requires Success?
    {
      value
    }
  }

  datatype Outcome = Pass | Fail(error: Error)
}
