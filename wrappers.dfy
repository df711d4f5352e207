/** The exceptions the core throws, as one error datatype with a reason per message. */
module Errors {

  /** Why an operation was refused: one constructor per distinct exception message of the Java code. */
  datatype Reason =
    // Url
    | BlankUrl | UrlTooLong
    // ShortCode
    | BlankCode | CodeLengthOutOfRange | CodeNotAlphanumeric | NotUnderBaseUrl
    // UserId
    | InvalidUuid
    // ShortenedUrl
    | ExpiryInPast | NotAccessible
    // CodeGeneratorImpl
    | GeneratedLengthOutOfRange
    // UrlShortenerServiceImpl
    | InvalidUrl | ExpiryNotInFuture | ExpiryBeyondMaxTtl | TtlNotPositive | TtlBeyondMax
    | ClicksNotPositive | DuplicateActiveLink | LinkExpired | QuotaExhausted | LinkBlocked
    // UserServiceImpl
    | BlankUserId | UserNotFound
    // CommandParser
    | NotPositive | BadIntegerFormat

  /** The exception classes: Java's own and the domain's (ValidationException, UrlNotFoundException, PermissionDeniedException). */
  datatype Error =
    | IllegalArgument(why: Reason)
    | IllegalState(why: Reason)
    | Validation(why: Reason)
    | NotFound(code: string)
    | PermissionDenied
    | IndexOutOfBounds
}

/** Option for Java's null / Optional, Result for "returns a value or throws". */
module Wrappers {
  import opened Errors

  datatype Option<+T> = None | Some(value: T)

  datatype Result<+T> = Ok(value: T) | Err(error: Error)

  /** A check that passes or fails with an error, for the Java code's void validators. */
  datatype Outcome = Pass | Fail(error: Error)
}

/** Cardinality facts about the maps and sets the stores keep. */
module Collections {

  lemma SubsetCard<T>(a: set<T>, b: set<T>)
    requires a <= b
    ensures |a| <= |b|
  {
    assert b == a + (b - a);
  }

  /** Putting a key grows a map by one exactly when the key was new. */
  lemma UpdateCard<K, V>(m: map<K, V>, k: K, v: V)
    ensures |m[k := v]| == if k in m then |m| else |m| + 1
  {
    if k in m {
      assert m[k := v].Keys == m.Keys;
    } else {
      assert m[k := v].Keys == m.Keys + {k};
    }
  }
}
