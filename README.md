# ShortLinks core in Dafny

This project models the domain core of ShortLinks, a console URL shortener written in Java. The model is a set of verified Dafny modules.

- Users are identified by a UUID, with an 8-character short id.
- A user shortens a destination URL into a 3–10 character code. Each code carries a click quota and an expiry instant.
- Following a code counts one click. Once the quota is used up or the expiry has passed, the link is refused.
- Links are kept in two in-memory indices: code → link and owner → codes. Users are kept by id and by short id.

Each Java file of the core becomes one module:

| Java file | Dafny module (file) | form |
|---|---|---|
| `Url.java` | `Urls` (url.dfy) | functions and lemmas |
| `ShortCode.java` | `ShortCodes` (short_code.dfy) | functions and lemmas |
| `UserId.java` | `UserIds` (user_id.dfy) | functions and lemmas |
| `User.java` | `Users` (user.dfy) | functions and lemmas |
| `ShortenedUrl.java` | `Links` (shortened_url.dfy) | a `LinkState` value and pure queries, plus the class `ShortenedUrl`; its methods update `expiresAt`, `currentClicks` and `active` in place |
| `CodeGeneratorImpl.java` | `CodeGenerator` (code_generator.dfy) | each loop is a method proved against a specification function |
| `FileUrlRepository.java` | `UrlRepository` (url_repository.dfy) | the class `FileUrlRepository`, with the two maps as fields |
| `InMemoryUserRepository.java` | `UserRepository` (user_repository.dfy) | a class with its two maps |
| `UrlShortenerServiceImpl.java` | `UrlService` (url_service.dfy) | a class over the link repository |
| `UserServiceImpl.java` | `UserService` (user_service.dfy) | a class holding the current-user field |
| `StatisticsServiceImpl.java`, `Config.java` | `Statistics` (statistics.dfy) | functions, plus one method for the stream reductions |
| `UserValidator.java` | `UserValidator` (user_validator.dfy) | predicates and lemmas |
| `UrlValidatorImpl.java` | `UrlValidator` (url_validator.dfy) | predicates and lemmas |
| `CommandParser.java` | `CommandParser` (command_parser.dfy) | functions and lemmas |

Shared modules:

- `Errors` and `Wrappers` (wrappers.dfy) turn exceptions into `Result`/`Outcome` values, one `Reason` per distinct message.
- `Collections` (wrappers.dfy) holds cardinality lemmas.
- `JavaInts` (java_ints.dfy) writes out Java's `int`/`long` wrap-around, `Math.abs`, the truncating `%` and `String.hashCode`.
- `Text` (text.dfy) defines `trim`, the regex character classes used, `indexOf`, `reverse` and decimal rendering.

Conventions of the model:

- **Time.** An instant is an integer number of seconds. Every operation that reads a clock takes a single `now` parameter. The entity's own reads of `LocalDateTime.now()` and the service's `dateTimeProvider.now()` are both this one `now`.
- **Digest.** The SHA-256 digest is an input, `Option<seq<JavaByte>>`. `None` stands for a missing algorithm, which selects the fallback generator.
- **Other inputs.** `System.nanoTime`, the random UUID of a new user, and the `UrlValidator` port's `isValid` are also inputs.
- **null.** A Java `null` is `None` wherever the Java code tests for it.

Where the code and its documentation disagree, the model follows the code:

- `switchUser(UserId)` never throws. Its `.or(...)` always supplies a user, so the `orElseThrow` never fires, and an unknown id is saved as a new user.
- `switchUser(String)` throws when neither the UUID parse nor the short-id lookup finds anyone.
- `bytesToBase62` folds the first eight digest bytes into a signed `long`. A digest with a first byte of 0x80 or more therefore folds to a negative number. Every character then comes from the padding loop (`CodeGenerator.AllPaddingWhenNotPositive`).
- `makeReadable` also replaces `5`, `8` and `B`, because they are keys of its table. The only confusable it can emit is `S`, and only in place of `O` (`CodeGenerator.ReadableAvoidsConfusables`).
- The service calls `generate`, not `generateForUser`. A new code that is already stored, under any owner, is therefore settled only by `save` overwriting the entry (`UrlService.UrlShortenerServiceImpl.ShortenUrlWithExpirationAndClicks`).
- After a cross-owner overwrite, the first owner's set still lists the code. A later `delete` then leaves a listed code that is no longer a key (`UrlRepository.DeleteLeavesDangling`).
- `Url` checks its length limit before normalising. A stored value can therefore reach 2056 characters (`Urls.StoredValueCanExceedLimit`). Such a value fails the service's own URL check, and reloading it from the file throws, so the record is skipped (`UrlValidator.LongStoredValueInvalid`, `UrlRepository.DecodeDropsLongUrl`).
- A Unicode line separator defeats the scheme pattern, because `.` does not match it. Each normalisation then prepends `https://` again (`Urls.LineTerminatorNotIdempotent`).
- `redirect` ranks the reasons for a refusal as expired, then quota, then blocked. `getStatus` ranks them as blocked, then expired, then limit. The two disagree on a link that is both blocked and expired (`UrlService.ReasonOrderDiffersFromStatus`).

## Model

| member | source | states |
|---|---|---|
| Urls.MakeUrl | src/main/java/com/urlshortener/core/domain/valueobjects/Url.java:14-26 | accepted iff non-null, non-blank and at most 2048 raw characters, with BlankUrl checked before UrlTooLong; the stored value starts with http://, https:// or ftp://, holds no control or whitespace character, and has at most 2056 characters |
| Urls.Normalize | src/main/java/com/urlshortener/core/domain/valueobjects/Url.java:28-40 | the result starts with a scheme, holds no control or whitespace character, is at most 8 characters longer than the input, and has no line terminator if the input had none |
| Urls.RemoveStripped | src/main/java/com/urlshortener/core/domain/valueobjects/Url.java:31-32 | deleting `[\p{Cntrl}\s]` leaves none of them, never lengthens, and leaves clean text unchanged |
| Urls.RemoveStrippedOne | src/main/java/com/urlshortener/core/domain/valueobjects/Url.java:31-32 | a single character is deleted iff it is a control or whitespace character |
| Urls.RemoveStrippedAppend | src/main/java/com/urlshortener/core/domain/valueobjects/Url.java:31-32 | deletion distributes over concatenation, so every other character is kept in order |
| Urls.RemoveStrippedDeletes | src/main/java/com/urlshortener/core/domain/valueobjects/Url.java:31-32 | a control or whitespace character inside the text disappears and its neighbours join |
| Urls.NormalizeClean | src/main/java/com/urlshortener/core/domain/valueobjects/Url.java:28-40 | on text without control or whitespace characters, normalisation only decides whether to prepend https:// |
| Urls.NormalizeFixedPoint | src/main/java/com/urlshortener/core/domain/valueobjects/Url.java:28-40 | a normalised value without line terminators normalises to itself |
| Urls.NormalizeIdempotent | src/main/java/com/urlshortener/core/domain/valueobjects/Url.java:28-40 | normalising twice equals normalising once, for input without line terminators |
| Urls.Reconstruct | src/main/java/com/urlshortener/core/domain/valueobjects/Url.java:14-40 | new Url(u.value()) equals u when the value has at most 2048 characters, and throws UrlTooLong otherwise |
| Urls.StoredValueCanExceedLimit | src/main/java/com/urlshortener/core/domain/valueobjects/Url.java:19-26 | 2048 characters without a scheme are accepted and stored as 2056 characters |
| Urls.LineTerminatorNotIdempotent | src/main/java/com/urlshortener/core/domain/valueobjects/Url.java:35-39 | with a line terminator anywhere, every normalisation prepends https:// once more |
| Urls.MakeUrlAddsScheme | src/main/java/com/urlshortener/core/domain/valueobjects/Url.java:35-37 | clean text without a scheme is stored with https:// in front |
| Urls.MakeUrlKeepsNormalized | src/main/java/com/urlshortener/core/domain/valueobjects/Url.java:35-39 | clean text that matches the scheme pattern is stored unchanged |
| Urls.SchemeIsOptional | src/main/java/com/urlshortener/core/domain/valueobjects/Url.java:47-53 | equality is by normalised value: `v` and `https://v` make equal Urls |
| ShortCodes.MakeShortCode | src/main/java/com/urlshortener/core/domain/valueobjects/ShortCode.java:13-29 | accepted iff 3..10 characters, all in [A-Za-z0-9]; the value is kept unchanged; the checks run blank, then length, then pattern |
| ShortCodes.CutAtSeparators | src/main/java/com/urlshortener/core/domain/valueobjects/ShortCode.java:41-47 | the result is a prefix with no '/' or '?', and ends the text or stops at one of them |
| ShortCodes.CutAtSeparatorsUnique | src/main/java/com/urlshortener/core/domain/valueobjects/ShortCode.java:41-47 | any prefix with those three properties is the cut |
| ShortCodes.FromShortUrl | src/main/java/com/urlshortener/core/domain/valueobjects/ShortCode.java:36-50 | refused unless the text starts with the base; a result is a valid code that directly follows the base and ends at '/', '?' or the end, and contains neither separator |
| ShortCodes.FromShortUrlStopsAtSeparator | src/main/java/com/urlshortener/core/domain/valueobjects/ShortCode.java:36-50 | base + code + a path or query yields exactly that code |
| UserIds.ToString | src/main/java/com/urlshortener/core/domain/valueobjects/UserId.java:60-63 | 36 characters: dashes at 8, 13, 18 and 23, and lower-case hex digits of the nibbles elsewhere |
| UserIds.FromString | src/main/java/com/urlshortener/core/domain/valueobjects/UserId.java:24-30 | accepted iff the text has the canonical 8-4-4-4-12 hex form, in either case; otherwise IllegalArgument; the result's string is the lower-cased input |
| UserIds.FromStringToString | src/main/java/com/urlshortener/core/domain/valueobjects/UserId.java:24-30 | fromString(u.toString()) == u |
| UserIds.ShortId | src/main/java/com/urlshortener/core/domain/valueobjects/UserId.java:37-39 | 8 characters, a prefix of the canonical string, the hex digits of the first 8 nibbles |
| UserIds.MatchesShortId | src/main/java/com/urlshortener/core/domain/valueobjects/UserId.java:41-45 | holds iff the text is non-null, has 8..36 characters, and lower-case matches the canonical string position by position |
| UserIds.MatchesOwnForms | src/main/java/com/urlshortener/core/domain/valueobjects/UserId.java:41-45 | an id matches its own short id and its own full string |
| UserIds.MatchesIgnoresCase | src/main/java/com/urlshortener/core/domain/valueobjects/UserId.java:41-45 | a short id in any letter case matches |
| Users.NewUser | src/main/java/com/urlshortener/core/domain/models/User.java:19-28 | the new user has the given id, was created now, and has a url count of 0 |
| Users.GetShortId | src/main/java/com/urlshortener/core/domain/models/User.java:35-38 | the user's short id is its id's short id, and the id matches it |
| Users.SameUserIffSameId | src/main/java/com/urlshortener/core/domain/models/User.java:40-46 | two users are equal iff their ids are |
| Links.CreateWithCustomExpiration | src/main/java/com/urlshortener/core/domain/models/ShortenedUrl.java:62-80 | refused iff the expiry is before now; otherwise created now, 0 clicks, active, with the given fields; the result is accessible, and keeps the quota invariant, iff maxClicks > 0 |
| Links.StatusOf | src/main/java/com/urlshortener/core/domain/models/ShortenedUrl.java:140-152 | Active iff accessible; Blocked iff inactive; Expired only when expired; LimitReached only when unexpired and out of clicks |
| Links.IsExpired | src/main/java/com/urlshortener/core/domain/models/ShortenedUrl.java:83-85 | now is strictly after the expiry |
| Links.CanBeAccessed | src/main/java/com/urlshortener/core/domain/models/ShortenedUrl.java:88-90 | active, not expired, and fewer clicks than the quota |
| Links.Restore | src/main/java/com/urlshortener/core/domain/models/ShortenedUrl.java:44-60 | the Jackson constructor's fields, with a missing creation instant replaced by now |
| Links.ExhaustedReportsBlocked | src/main/java/com/urlshortener/core/domain/models/ShortenedUrl.java:141-152 | under the quota invariant an exhausted link reports Blocked, never LimitReached |
| Links.RemainingClicks | src/main/java/com/urlshortener/core/domain/models/ShortenedUrl.java:105-108 | never negative; max(0, maxClicks − currentClicks) for non-negative fields; exactly maxClicks − currentClicks under the quota invariant |
| Links.RemainingClicksWrap | src/main/java/com/urlshortener/core/domain/models/ShortenedUrl.java:105-108 | a negative stored click count can make the int subtraction wrap to 0 remaining clicks |
| Links.RemainingHours | src/main/java/com/urlshortener/core/domain/models/ShortenedUrl.java:100-103 | never negative, 0 once the expiry is reached, otherwise the whole hours left |
| Links.ClickPreservesInvariant | src/main/java/com/urlshortener/core/domain/models/ShortenedUrl.java:110-119 | a click on an accessible link keeps the quota invariant, adds exactly one click, and deactivates exactly when the quota is reached |
| Links.QuotaBoundary | src/main/java/com/urlshortener/core/domain/models/ShortenedUrl.java:110-119 | on a fresh link with quota N, clicks 1..N find it accessible, and after the N-th it is inactive and inaccessible |
| Links.ShortUrl | src/main/java/com/urlshortener/core/domain/models/ShortenedUrl.java:92-98 | the base, with '/' added when missing, followed by the code |
| Links.ShortUrlRoundTrip | src/main/java/com/urlshortener/core/domain/models/ShortenedUrl.java:92-98 | with a base ending in '/', fromShortUrl recovers the link's code from its short URL |
| Links.ShortUrlWithoutSlashFails | src/main/java/com/urlshortener/core/domain/models/ShortenedUrl.java:92-98 | without the trailing '/', fromShortUrl finds an empty code and throws |
| Links.WithUpdatedParams | src/main/java/com/urlshortener/core/domain/models/ShortenedUrl.java:184-196 | code, owner, creation instant, quota, clicks and active are kept; the URL and expiry are replaced where given |
| Links.SameLink | src/main/java/com/urlshortener/core/domain/models/ShortenedUrl.java:199-204 | equals compares the codes only |
| Links.ShortenedUrl.constructor | src/main/java/com/urlshortener/core/domain/models/ShortenedUrl.java:43-60 | the new object holds the given field values |
| Links.ShortenedUrl.IncrementClicks | src/main/java/com/urlshortener/core/domain/models/ShortenedUrl.java:110-119 | on an inaccessible link: IllegalState and no change; otherwise the new state is exactly one click later, deactivated when the quota is reached |
| Links.ShortenedUrl.UpdateUrl | src/main/java/com/urlshortener/core/domain/models/ShortenedUrl.java:121-127 | always answers false and changes nothing |
| Links.ShortenedUrl.UpdateExpiration | src/main/java/com/urlshortener/core/domain/models/ShortenedUrl.java:129-138 | true iff the new expiry is present, not before now and not after a present ceiling; then only expiresAt changes, otherwise nothing |
| Links.ExpirationPreservesInvariant | src/main/java/com/urlshortener/core/domain/models/ShortenedUrl.java:129-138 | a new expiry keeps the quota invariant |
| CodeGenerator.ValidateLength | src/main/java/com/urlshortener/infrastructure/utils/CodeGeneratorImpl.java:112-116 | passes iff 4 ≤ length ≤ 10 |
| CodeGenerator.FoldEight | src/main/java/com/urlshortener/infrastructure/utils/CodeGeneratorImpl.java:121-124 | eight bytes fold to the signed-long reading of their big-endian value, negative iff the first byte is |
| CodeGenerator.FoldShort | src/main/java/com/urlshortener/infrastructure/utils/CodeGeneratorImpl.java:121-124 | fewer than eight bytes fold to their non-negative big-endian value |
| CodeGenerator.Base62Spec | src/main/java/com/urlshortener/infrastructure/utils/CodeGeneratorImpl.java:118-139 | exactly length characters, all from BASE62_ALPHABET |
| CodeGenerator.AllPaddingWhenNotPositive | src/main/java/com/urlshortener/infrastructure/utils/CodeGeneratorImpl.java:126-136 | when the first byte is negative, every character comes from the padding loop |
| CodeGenerator.BytesToBase62 | src/main/java/com/urlshortener/infrastructure/utils/CodeGeneratorImpl.java:118-139 | computes Base62Spec: length characters from BASE62_ALPHABET |
| CodeGenerator.FoldLeading | src/main/java/com/urlshortener/infrastructure/utils/CodeGeneratorImpl.java:122-124 | the first loop folds min(8, n) bytes in long arithmetic |
| CodeGenerator.EmitDigits | src/main/java/com/urlshortener/infrastructure/utils/CodeGeneratorImpl.java:126-130 | the second loop emits the base-62 digits, least significant first, while positive and short |
| CodeGenerator.PadFromBytes | src/main/java/com/urlshortener/infrastructure/utils/CodeGeneratorImpl.java:132-136 | the third loop appends, at each position k, the character picked by byte k mod n |
| CodeGenerator.ReadableChar | src/main/java/com/urlshortener/infrastructure/utils/CodeGeneratorImpl.java:141-153 | non-keys are unchanged; a key is never replaced by 0, O, 1, I, l, 5, 8 or B; alphanumerics stay alphanumeric |
| CodeGenerator.ReadableTable | src/main/java/com/urlshortener/infrastructure/utils/CodeGeneratorImpl.java:23-35 | the nine replacements: 0→t, O→S, 1→u, I→L, l→y, 5→y, S→W, 8→3, B→D |
| CodeGenerator.ReadableAvoidsConfusables | src/main/java/com/urlshortener/infrastructure/utils/CodeGeneratorImpl.java:141-153 | the output holds no 0, O, 1, I, l, 5, 8 or B, and an S in it replaced an O |
| CodeGenerator.MakeReadable | src/main/java/com/urlshortener/infrastructure/utils/CodeGeneratorImpl.java:141-153 | the char-array loop keeps the length and rewrites each character as ReadableChar does |
| CodeGenerator.PadSpec | src/main/java/com/urlshortener/infrastructure/utils/CodeGeneratorImpl.java:170-177 | the result extends the code to max(length, its own length) with READABLE_ALPHABET characters; a negative index throws |
| CodeGenerator.PadFailsOnlyOnMinHash | src/main/java/com/urlshortener/infrastructure/utils/CodeGeneratorImpl.java:173 | a prefix whose hash is not Integer.MIN_VALUE always gets its next character |
| CodeGenerator.PadCode | src/main/java/com/urlshortener/infrastructure/utils/CodeGeneratorImpl.java:170-177 | the loop computes PadSpec |
| CodeGenerator.AddSuffix | src/main/java/com/urlshortener/infrastructure/utils/CodeGeneratorImpl.java:155-168 | below maxLength it appends READABLE_ALPHABET[attempt % 55]; otherwise only the last character changes, to RotatedChar of it; the result is a valid code |
| CodeGenerator.RotatedChar | src/main/java/com/urlshortener/infrastructure/utils/CodeGeneratorImpl.java:162-165 | the character READABLE_ALPHABET[(indexOf(last) + attempt + 1) % 55], always in READABLE_ALPHABET; READABLE_ALPHABET[attempt % 55] when last is not in it (indexOf gives -1) |
| CodeGenerator.AppendSuffix | src/main/java/com/urlshortener/infrastructure/utils/CodeGeneratorImpl.java:158-160 | the code with READABLE_ALPHABET[attempt % 55] appended; `new ShortCode` refuses it iff the code already has 10 characters |
| CodeGenerator.RotateLast | src/main/java/com/urlshortener/infrastructure/utils/CodeGeneratorImpl.java:162-166 | same length and prefix, the last character replaced by RotatedChar, still a valid code |
| CodeGenerator.FallbackAsWritten | src/main/java/com/urlshortener/infrastructure/utils/CodeGeneratorImpl.java:179-190 | as written: succeeds iff no index is negative, and then gives length characters from READABLE_ALPHABET |
| CodeGenerator.FallbackFailsOnMinHash | src/main/java/com/urlshortener/infrastructure/utils/CodeGeneratorImpl.java:181 | a seed hashing to Integer.MIN_VALUE makes the first index negative, so charAt throws |
| CodeGenerator.FallbackFailsOnOverflow | src/main/java/com/urlshortener/infrastructure/utils/CodeGeneratorImpl.java:183-186 | a seed hashing to Integer.MAX_VALUE overflows at the second character, so charAt throws |
| CodeGenerator.FallbackAgreesInRange | src/main/java/com/urlshortener/infrastructure/utils/CodeGeneratorImpl.java:179-190 | when the hash is far from both ends of the int range, the code as written gives the intended characters |
| CodeGenerator.FallbackGenerate | src/main/java/com/urlshortener/infrastructure/utils/CodeGeneratorImpl.java:179-190 | corrected: length characters, character i being READABLE_ALPHABET[(abs(hash) + 31·i) mod 55]; always a valid code |
| CodeGenerator.Generate | src/main/java/com/urlshortener/infrastructure/utils/CodeGeneratorImpl.java:43-68 | refused iff the length is outside 4..10; the code is valid and has exactly the requested length; with a digest it is makeReadable(bytesToBase62(digest)), so the truncate and pad branches are dead; without one, character i is the corrected fallback's READABLE_ALPHABET[(abs(hash) + 31·i) mod 55] |
| CodeGenerator.GenerateDefault | src/main/java/com/urlshortener/infrastructure/utils/CodeGeneratorImpl.java:38-40 | generate at length 6: with a digest exactly makeReadable(bytesToBase62(digest, 6)), without one character i is the corrected fallback's READABLE_ALPHABET[(abs(hash) + 31·i) mod 55]; always a valid code of length 6 |
| CodeGenerator.GenerateForUser | src/main/java/com/urlshortener/infrastructure/utils/CodeGeneratorImpl.java:70-90 | refused iff the length is outside 4..10; `first` is generate's code (exact with and without a digest); the answer is Perturbed(first, attempts), i.e. addSuffix applied with attempts 0..attempts-1; each of those earlier codes was in existingCodes under the same user; at most 10 attempts, and an answer still held by the same user means all 10 were made |
| CodeGenerator.Perturbed | src/main/java/com/urlshortener/infrastructure/utils/CodeGeneratorImpl.java:78-87 | the code after k rounds of the loop's addSuffix: still a valid code, of unchanged length once it has the target length |
| CodeGenerator.PerturbedKeepsPrefix | src/main/java/com/urlshortener/infrastructure/utils/CodeGeneratorImpl.java:78-87 | for a code at the target length the loop only ever changes the last character |
| CodeGenerator.IsValid | src/main/java/com/urlshortener/infrastructure/utils/CodeGeneratorImpl.java:92-109 | holds iff non-null, 3..10 characters, all letters or digits |
| CodeGenerator.IsLetterOrDigit | src/main/java/com/urlshortener/infrastructure/utils/CodeGeneratorImpl.java:103 | Character.isLetterOrDigit on ASCII, the Latin-1 letters and the basic Cyrillic block |
| CodeGenerator.IsValidIsLaxer | src/main/java/com/urlshortener/infrastructure/utils/CodeGeneratorImpl.java:92-109 | every ShortCode-valid string passes isValid; a Cyrillic word passes isValid but is not a ShortCode |
| UrlRepository.AddToOwner | src/main/java/com/urlshortener/infrastructure/persistence/FileUrlRepository.java:49-50 | the owner's set gains the code and no other owner's set changes |
| UrlRepository.AddToOwnerListed | src/main/java/com/urlshortener/infrastructure/persistence/FileUrlRepository.java:49-50 | re-adding a code the owner already lists changes nothing |
| UrlRepository.RemoveFromOwner | src/main/java/com/urlshortener/infrastructure/persistence/FileUrlRepository.java:84-91 | the code leaves the owner's set, an emptied set is dropped, and other owners are untouched |
| UrlRepository.Insert | src/main/java/com/urlshortener/infrastructure/persistence/FileUrlRepository.java:70 | inserting keeps the list newest first and adds exactly the one element |
| UrlRepository.DecodeRecord | src/main/java/com/urlshortener/infrastructure/persistence/FileUrlRepository.java:141-181 | a record yields a link iff its Url, ShortCode and UserId validate and every field is present; the link carries those validated values |
| UrlRepository.DecodeEncode | src/main/java/com/urlshortener/infrastructure/persistence/FileUrlRepository.java:140-185 | a link with a reloadable URL and a valid code survives the save/load round trip unchanged |
| UrlRepository.DecodeDropsLongUrl | src/main/java/com/urlshortener/infrastructure/persistence/FileUrlRepository.java:140-185 | a stored URL value longer than 2048 characters makes its record be skipped on reload |
| UrlRepository.LoadedKeysAreCodes | src/main/java/com/urlshortener/infrastructure/persistence/FileUrlRepository.java:140-185 | every loaded key is a valid code, and the code of the link under it |
| UrlRepository.LoadedKeepsLastDecoded | src/main/java/com/urlshortener/infrastructure/persistence/FileUrlRepository.java:140-185 | every record that decodes is found under its code |
| UrlRepository.LoadedComesFromRecord | src/main/java/com/urlshortener/infrastructure/persistence/FileUrlRepository.java:140-185 | every loaded link is the decoding of some record |
| UrlRepository.ActiveExpiredDisjoint | src/main/java/com/urlshortener/infrastructure/persistence/FileUrlRepository.java:106-118 | no link is both active and expired, so countActive + countExpired ≤ count |
| UrlRepository.FileUrlRepository.constructor | src/main/java/com/urlshortener/infrastructure/persistence/FileUrlRepository.java:32-40 | starts from empty maps, and after the record loop holds the loaded state and owner index, consistently |
| UrlRepository.FileUrlRepository.LoadRecords | src/main/java/com/urlshortener/infrastructure/persistence/FileUrlRepository.java:140-185 | the loadData loop skips records that fail and indexes the others as save does |
| UrlRepository.FileUrlRepository.Save | src/main/java/com/urlshortener/infrastructure/persistence/FileUrlRepository.java:42-56 | stores the link under its code, adds the code to its owner's set, keeps the indices consistent, and answers the link |
| UrlRepository.FileUrlRepository.FindByShortCode | src/main/java/com/urlshortener/infrastructure/persistence/FileUrlRepository.java:58-61 | present iff stored, and then the stored link, whose code is the one asked for |
| UrlRepository.FileUrlRepository.CountActive | src/main/java/com/urlshortener/infrastructure/persistence/FileUrlRepository.java:106-111 | the number of accessible links, at most count() |
| UrlRepository.FileUrlRepository.CountExpired | src/main/java/com/urlshortener/infrastructure/persistence/FileUrlRepository.java:113-118 | the number of expired links, at most count() |
| UrlRepository.FileUrlRepository.Delete | src/main/java/com/urlshortener/infrastructure/persistence/FileUrlRepository.java:74-94 | a no-op for an absent code; otherwise the code leaves the map and its owner's set, and an emptied set is dropped |
| UrlRepository.FileUrlRepository.FindAll | src/main/java/com/urlshortener/infrastructure/persistence/FileUrlRepository.java:120-123 | every stored link exactly once |
| UrlRepository.FileUrlRepository.ExistsByShortCode | src/main/java/com/urlshortener/infrastructure/persistence/FileUrlRepository.java:97-99 | the code is a key of the storage map |
| UrlRepository.FileUrlRepository.Count | src/main/java/com/urlshortener/infrastructure/persistence/FileUrlRepository.java:102-104 | the number of stored codes |
| UrlRepository.FileUrlRepository.FindByUserId | src/main/java/com/urlshortener/infrastructure/persistence/FileUrlRepository.java:63-72 | exactly the stored links the owner's set lists, each once, newest first; every stored link of the owner is included; empty for an unknown owner |
| UrlRepository.CollectNewestFirst | src/main/java/com/urlshortener/infrastructure/persistence/FileUrlRepository.java:66-71 | the stream: the links stored under the codes, each once, sorted newest first |
| UrlRepository.DeleteLeavesDangling | src/main/java/com/urlshortener/infrastructure/persistence/FileUrlRepository.java:75-94 | after two owners save the same code and one deletes it, the other still lists it |
| UrlRepository.ListedLinksAfterOverwrite | src/main/java/com/urlshortener/infrastructure/persistence/FileUrlRepository.java:43-56 | after a cross-owner overwrite, the first owner's list shows the second owner's link |
| UrlRepository.SaveKeepsNoDangling | src/main/java/com/urlshortener/infrastructure/persistence/FileUrlRepository.java:48-50 | save keeps every listed code a key |
| UrlRepository.ResaveKeepsCount | src/main/java/com/urlshortener/infrastructure/persistence/FileUrlRepository.java:43-56 | re-saving a stored code does not change count() |
| UserRepository.InMemoryUserRepository.constructor | src/main/java/com/urlshortener/infrastructure/persistence/InMemoryUserRepository.java:20-23 | both maps start empty |
| UserRepository.InMemoryUserRepository.Save | src/main/java/com/urlshortener/infrastructure/persistence/InMemoryUserRepository.java:25-30 | stores the user by id, indexes its short id to that id, keeps both indices consistent, and answers the user |
| UserRepository.InMemoryUserRepository.FindById | src/main/java/com/urlshortener/infrastructure/persistence/InMemoryUserRepository.java:32-35 | present iff stored, and then the user with that id |
| UserRepository.InMemoryUserRepository.FindByShortId | src/main/java/com/urlshortener/infrastructure/persistence/InMemoryUserRepository.java:37-53 | empty for null or fewer than 8 characters; an index hit answers the indexed user; any answer is a stored user that matches; empty iff no stored user matches |
| UserRepository.SaveCount | src/main/java/com/urlshortener/infrastructure/persistence/InMemoryUserRepository.java:26-30 | saving a stored id keeps count(); a new id adds one |
| UserRepository.ShortIdKeyIsIndexKey | src/main/java/com/urlshortener/infrastructure/persistence/InMemoryUserRepository.java:38-53 | a short id is already lower case and 8 long, so save indexes it under the key that findByShortId looks up |
| UserRepository.SavedUserFoundByShortId | src/main/java/com/urlshortener/infrastructure/persistence/InMemoryUserRepository.java:26-53 | after save(u), the key findByShortId builds from u's short id is indexed and leads back to u |
| UserRepository.InMemoryUserRepository.Count | src/main/java/com/urlshortener/infrastructure/persistence/InMemoryUserRepository.java:56-58 | the number of stored users |
| UrlService.UnavailableReason | src/main/java/com/urlshortener/core/services/UrlShortenerServiceImpl.java:133-143 | expired first; then the quota when clicks ≥ maxClicks; blocked otherwise |
| UrlService.ReasonOrderDiffersFromStatus | src/main/java/com/urlshortener/core/services/UrlShortenerServiceImpl.java:133-143 | a link both blocked and expired is refused as expired but reported Blocked |
| UrlService.ExhaustedRedirectReason | src/main/java/com/urlshortener/core/services/UrlShortenerServiceImpl.java:133-143 | under the quota invariant an exhausted link is refused for its quota |
| UrlService.UrlShortenerServiceImpl.constructor | src/main/java/com/urlshortener/core/services/UrlShortenerServiceImpl.java:34-50 | the service keeps the given repository, validator and settings |
| UrlService.UrlShortenerServiceImpl.ValidateUrl | src/main/java/com/urlshortener/core/services/UrlShortenerServiceImpl.java:225-229 | passes iff the validator port accepts the text |
| UrlService.UrlShortenerServiceImpl.ValidateExpirationDate | src/main/java/com/urlshortener/core/services/UrlShortenerServiceImpl.java:231-242 | passes iff now ≤ expiry ≤ now + maxTTLDays, reporting "not in the future" before "beyond the maximum" |
| UrlService.UrlShortenerServiceImpl.ValidateTtl | src/main/java/com/urlshortener/core/services/UrlShortenerServiceImpl.java:244-255 | passes iff 0 < ttlHours ≤ maxTTLDays·24 (when that product fits an int) |
| UrlService.UrlShortenerServiceImpl.ValidateMaxClicks | src/main/java/com/urlshortener/core/services/UrlShortenerServiceImpl.java:257-261 | passes iff maxClicks > 0 |
| UrlService.UrlShortenerServiceImpl.CreationCheck | src/main/java/com/urlshortener/core/services/UrlShortenerServiceImpl.java:104-110 | passes iff URL valid, expiry in range, maxClicks > 0 and no active duplicate, with failures reported in that order |
| UrlService.UrlShortenerServiceImpl.HasActiveDuplicate | src/main/java/com/urlshortener/core/services/UrlShortenerServiceImpl.java:263-274 | one of the owner's listed links has an equal URL and is accessible; CheckForDuplicate is proved to refuse exactly then |
| UrlService.UrlShortenerServiceImpl.CheckForDuplicate | src/main/java/com/urlshortener/core/services/UrlShortenerServiceImpl.java:263-274 | refuses iff one of the owner's listed links has an equal URL and is accessible |
| UrlService.UrlShortenerServiceImpl.ShortenUrlWithExpirationAndClicks | src/main/java/com/urlshortener/core/services/UrlShortenerServiceImpl.java:99-125 | the first failing check is the answer and nothing changes; a pass saves a fresh accessible link with the requested fields, created now, with a valid code of the configured length, overwriting any stored entry under that code |
| UrlService.UrlShortenerServiceImpl.ShortenUrl | src/main/java/com/urlshortener/core/services/UrlShortenerServiceImpl.java:52-60 | with expiry now + defaultTTLHours and the default quota: the first failing creation check is the answer; once they pass, it succeeds iff the code length is 4..10; a success saves a fresh accessible link with those fields under its code and adds the code to the owner's set; a refusal changes nothing |
| UrlService.UrlShortenerServiceImpl.ShortenUrlWithTtl | src/main/java/com/urlshortener/core/services/UrlShortenerServiceImpl.java:62-72 | validateTTL first; then, with expiry now + ttlHours and the default quota, the creation checks, the success condition and the saved link and owner entry as ShortenUrl states them; a refusal changes nothing |
| UrlService.UrlShortenerServiceImpl.ShortenUrlWithClicks | src/main/java/com/urlshortener/core/services/UrlShortenerServiceImpl.java:74-84 | validateMaxClicks first; then, with the default lifetime and that quota, the creation checks, the success condition and the saved link and owner entry as ShortenUrl states them; a refusal changes nothing |
| UrlService.UrlShortenerServiceImpl.ShortenUrlWithExpiration | src/main/java/com/urlshortener/core/services/UrlShortenerServiceImpl.java:86-97 | validateExpirationDate first; then, with that expiry and the default quota, the creation checks, the success condition and the saved link and owner entry as ShortenUrl states them; a refusal changes nothing |
| UrlService.UrlShortenerServiceImpl.Redirect | src/main/java/com/urlshortener/core/services/UrlShortenerServiceImpl.java:127-150 | unknown: NotFound; inaccessible: IllegalState with the ranked reason, nothing changes; otherwise exactly one more click on that link only, and its URL |
| UrlService.UrlShortenerServiceImpl.GetUrlInfo | src/main/java/com/urlshortener/core/services/UrlShortenerServiceImpl.java:152-156 | the stored link, or NotFound |
| UrlService.UrlShortenerServiceImpl.UrlExists | src/main/java/com/urlshortener/core/services/UrlShortenerServiceImpl.java:214-216 | the repository stores the code |
| UrlService.UrlShortenerServiceImpl.HasPermission | src/main/java/com/urlshortener/core/services/UrlShortenerServiceImpl.java:219-222 | the code is stored and the given user owns its link |
| UrlService.UrlShortenerServiceImpl.GetUserUrls | src/main/java/com/urlshortener/core/services/UrlShortenerServiceImpl.java:208-211 | findByUserId's list: newest first, exactly the owner's listed links, each once, including every stored link of the owner; empty for an unknown owner |
| UrlService.UrlShortenerServiceImpl.DeleteUrl | src/main/java/com/urlshortener/core/services/UrlShortenerServiceImpl.java:158-169 | NotFound, then PermissionDenied, with no change; succeeds iff the user owns the code, which then leaves the map and the user's set (an emptied set is dropped) |
| UrlService.UrlShortenerServiceImpl.EditedLink | src/main/java/com/urlshortener/core/services/UrlShortenerServiceImpl.java:182-199 | refused iff a differing new URL fails validation or a differing new expiry is out of range, the URL check coming first; otherwise only the expiry may change, and never the URL |
| UrlService.UrlShortenerServiceImpl.ApplyEdits | src/main/java/com/urlshortener/core/services/UrlShortenerServiceImpl.java:182-199 | the two update blocks compute EditedLink on the link; a refusal leaves it unchanged; changesMade holds iff the value changed |
| UrlService.UrlShortenerServiceImpl.EditUrl | src/main/java/com/urlshortener/core/services/UrlShortenerServiceImpl.java:172-206 | NotFound, then PermissionDenied, with no change; for the owner, the link's state becomes exactly EditedLink, and nothing changes on a refusal |
| UserService.UserServiceImpl.constructor | src/main/java/com/urlshortener/core/services/UserServiceImpl.java:18-21 | no current user initially |
| UserService.UserServiceImpl.GetCurrentUser | src/main/java/com/urlshortener/core/services/UserServiceImpl.java:47-49 | the current-user field |
| UserService.UserServiceImpl.CreateUser | src/main/java/com/urlshortener/core/services/UserServiceImpl.java:23-34 | saves a new user with the given id, created now, indexes its short id to that id, and makes it current |
| UserService.UserServiceImpl.FindUser | src/main/java/com/urlshortener/core/services/UserServiceImpl.java:36-39 | present iff the id is stored, and then that user |
| UserService.UserServiceImpl.FindUserByShortId | src/main/java/com/urlshortener/core/services/UserServiceImpl.java:41-44 | empty for null or fewer than 8 characters; an index hit answers the indexed user; any answer is a stored user that matches; empty iff nobody matches |
| UserService.UserServiceImpl.SwitchUserById | src/main/java/com/urlshortener/core/services/UserServiceImpl.java:51-62 | never fails; afterwards the current user is the stored user with that id; an unknown id is saved as a new user and its short id indexed, a known one changes neither map |
| UserService.UserServiceImpl.SwitchUser | src/main/java/com/urlshortener/core/services/UserServiceImpl.java:64-85 | blank is refused; a full UUID switches as switchUser(UserId), with the same map changes; otherwise the current user becomes a matching stored user and neither map changes; it fails iff it is not a UUID and nobody matches; a failure changes nothing |
| Statistics.ConfigInfo | src/main/java/com/urlshortener/core/services/StatisticsServiceImpl.java:62-77 | exactly the nine setting names as keys |
| Statistics.ConfigInfoRoundTrip | src/main/java/com/urlshortener/core/services/StatisticsServiceImpl.java:62-77 | every setting can be read back unchanged from its name |
| Statistics.ConfigInfoInjective | src/main/java/com/urlshortener/core/services/StatisticsServiceImpl.java:62-77 | different configurations give different reports |
| Statistics.DefaultConfigReport | src/main/java/com/urlshortener/core/domain/models/Config.java:12-39 | `new Config()` reports cleanup 60, auto-redirect true, format "yyyy-MM-dd HH:mm", maxTTLDays 365, null strings and zero numbers |
| Statistics.GlobalStatistics | src/main/java/com/urlshortener/core/services/StatisticsServiceImpl.java:29-39 | totalUrls = count, totalUsers = the user count, activeUrls = countActive and expiredUrls = countExpired, with active + expired ≤ total |
| Statistics.GetUserStatistics | src/main/java/com/urlshortener/core/services/StatisticsServiceImpl.java:41-60 | over the owner's listed links: totalUrls is their number, totalClicks is the int-wrapped sum of their clicks, activeUrls is the number accessible, and activeUrls ≤ totalUrls |
| Statistics.Tally | src/main/java/com/urlshortener/core/services/StatisticsServiceImpl.java:49-54 | the two stream reductions over a list with distinct codes: the exact click sum and the accessible count |
| Statistics.ClickTotalNonNegative | src/main/java/com/urlshortener/core/services/StatisticsServiceImpl.java:49-51 | under the quota invariant the exact click total is not negative |
| Statistics.UserClicksNonNegative | src/main/java/com/urlshortener/core/services/StatisticsServiceImpl.java:49-51 | the reported total is not negative while the exact sum fits an int |
| UserValidator.UuidPatternIsCanonical | src/main/java/com/urlshortener/infrastructure/security/UserValidator.java:10-17 | isValidUuid holds iff the text has the canonical 8-4-4-4-12 form in either case; such text has 36 characters |
| UserValidator.IsValidUuid | src/main/java/com/urlshortener/infrastructure/security/UserValidator.java:10-17 | the whole text matches UUID_PATTERN: 8-4-4-4-12 hex groups, either case |
| UserValidator.IsValidShortId | src/main/java/com/urlshortener/infrastructure/security/UserValidator.java:19-23 | non-null, at least 8 characters, and all lower-case hex digits |
| UserValidator.AcceptsOwnForms | src/main/java/com/urlshortener/infrastructure/security/UserValidator.java:15-23 | every id's string passes isValidUuid and its short id passes isValidShortId |
| UserValidator.ValidUuidParses | src/main/java/com/urlshortener/infrastructure/security/UserValidator.java:15-17 | isValidUuid holds iff the canonical `fromString` of this model (UserIds.FromString, 8-4-4-4-12 groups only) succeeds |
| UserValidator.ValidShortIdMatches | src/main/java/com/urlshortener/infrastructure/security/UserValidator.java:19-23 | a valid short id that is a prefix of an id's string matches that id |
| UserValidator.UpperCaseShortIdRejected | src/main/java/com/urlshortener/infrastructure/security/UserValidator.java:19-23 | upper-case hex is refused here, though matchesShortId accepts it |
| UrlValidator.NormalizeText | src/main/java/com/urlshortener/infrastructure/utils/UrlValidatorImpl.java:72-86 | refuses null or blank; the result starts with a scheme and holds no control or whitespace character |
| UrlValidator.IsValid | src/main/java/com/urlshortener/infrastructure/utils/UrlValidatorImpl.java:23-70 | non-null, non-blank, at most 2048 characters, and accepted by the pattern-and-parse step |
| UrlValidator.IsSecure | src/main/java/com/urlshortener/infrastructure/utils/UrlValidatorImpl.java:89-100 | valid, and the normalised text starts with https:// |
| UrlValidator.IsLocal | src/main/java/com/urlshortener/infrastructure/utils/UrlValidatorImpl.java:103-124 | valid, and the host of the normalised text satisfies the local-host rule |
| UrlValidator.IsLocalHost | src/main/java/com/urlshortener/infrastructure/utils/UrlValidatorImpl.java:110-120 | the lower-cased host is localhost, 127.0.0.1, ::1 or 0.0.0.0, starts with 192.168. or 10., is a 172.16–31 address, or ends in .local or .internal |
| UrlValidator.IsPrivate172 | src/main/java/com/urlshortener/infrastructure/utils/UrlValidatorImpl.java:118 | the whole-string match of `172\.(1[6-9]\|2[0-9]\|3[0-1])\..*` |
| UrlValidator.NormalizeAgreesWithUrl | src/main/java/com/urlshortener/infrastructure/utils/UrlValidatorImpl.java:72-86 | wherever the Url constructor accepts text, normalize yields the same value |
| UrlValidator.NormalizeTextIdempotent | src/main/java/com/urlshortener/infrastructure/utils/UrlValidatorImpl.java:72-86 | normalising the result again changes nothing, for text without line terminators |
| UrlValidator.ValidTextMakesUrl | src/main/java/com/urlshortener/infrastructure/utils/UrlValidatorImpl.java:22-30 | text that isValid accepts always makes a Url |
| UrlValidator.LongStoredValueInvalid | src/main/java/com/urlshortener/infrastructure/utils/UrlValidatorImpl.java:28-30 | a value longer than 2048 characters is never valid |
| UrlValidator.SecureUnlessHttpOrFtp | src/main/java/com/urlshortener/infrastructure/utils/UrlValidatorImpl.java:88-100 | a valid URL is secure iff its normalised text does not start with http:// or ftp:// |
| UrlValidator.Private172Range | src/main/java/com/urlshortener/infrastructure/utils/UrlValidatorImpl.java:117 | 172.N.x is private exactly for N in 16..31 |
| UrlValidator.LocalSuffixAnyCase | src/main/java/com/urlshortener/infrastructure/utils/UrlValidatorImpl.java:110-120 | names under .local or .internal are local in any letter case |
| CommandParser.Words | src/main/java/com/urlshortener/presentation/cli/CommandParser.java:47 | `split("\\s+")`: non-empty, whitespace-free words |
| CommandParser.WordsJoin | src/main/java/com/urlshortener/presentation/cli/CommandParser.java:47 | splitting single-space-joined words gives the words back |
| CommandParser.ParseCommandType | src/main/java/com/urlshortener/presentation/cli/CommandParser.java:59-76 | a recognised type is the one whose keyword is the input |
| CommandParser.KeywordRoundTrip | src/main/java/com/urlshortener/presentation/cli/CommandParser.java:59-76 | each keyword names its own type, and exactly the 13 keywords are recognised |
| CommandParser.ShIsUnknown | src/main/java/com/urlshortener/presentation/cli/CommandParser.java:59-76 | `sh` is UNKNOWN |
| CommandParser.ParsedCommand.GetArg | src/main/java/com/urlshortener/presentation/cli/CommandParser.java:33-35 | the argument for 0 ≤ i < count, null from count on, and IndexOutOfBounds for negative i |
| CommandParser.Parse | src/main/java/com/urlshortener/presentation/cli/CommandParser.java:42-57 | null or blank gives UNKNOWN without arguments; each argument is a non-empty, whitespace-free word |
| CommandParser.ParseJoin | src/main/java/com/urlshortener/presentation/cli/CommandParser.java:42-57 | a line of printable words gives the lower-cased first word's type and the other words, in order; the arg count is the word count minus 1 |
| CommandParser.ParseInteger | src/main/java/com/urlshortener/presentation/cli/CommandParser.java:108-122 | the value iff the text has parseInt syntax, fits an int and is positive; NotPositive for an int ≤ 0; a format error otherwise |
| CommandParser.ParseIntegerDecimal | src/main/java/com/urlshortener/presentation/cli/CommandParser.java:108-122 | every positive int written in decimal parses back to itself |
| CommandParser.ParseIntegerBounds | src/main/java/com/urlshortener/presentation/cli/CommandParser.java:108-122 | 2^31 is a format error; a negative text is NotPositive down to −2^31 and a format error below |

## Left out

- File I/O. Not modelled: `saveToFile`, the file-existence and JSON-reading parts of `loadData`, and the `System.out`/`System.err` messages. Loading works over records whose fields are already extracted (`RawRecord`). Jackson's `asInt`/`asBoolean` coercion of malformed fields is not modelled; a missing field is `None`.
- Concurrency. `ConcurrentHashMap` and `synchronized` are left out, because the model is sequential.
- Console code. `URLShortenerCLI`, `UrlPrinter`, `ConsoleColors` and `StartingUp` are console I/O and scheduled threads. `JsonConfigLoader` is file I/O.
- Foreign and nondeterministic inputs. SHA-256 (`MessageDigest`), `System.currentTimeMillis`, `System.nanoTime` and `UUID.randomUUID` are parameters. One `now` stands for all clock reads within one call.
- Time library. `LocalDateTime` and `ChronoUnit` are integer seconds. `CommandParser.parseDateTime` is not modelled, because it depends on the date-time formatter library.
- UserIds.FromString: accepts only the canonical 8-4-4-4-12 text. Java's `UUID.fromString` also accepts shorter groups.
- CodeGenerator.IsLetterOrDigit: covers ASCII, the Latin-1 letters and the basic Cyrillic block, not all of Unicode's `Character.isLetterOrDigit`.
- Text.ToLower: lower-cases ASCII letters only. This is exact for the command keywords, the hex digits and the local-host names, but not for other scripts.
- CommandParser.ParseInteger: accepts ASCII digits only, while `Integer.parseInt` also accepts other Unicode decimal digits.
- UrlValidator.IsValid: its `URL_PATTERN` match and the `java.net.URL`/`toURI` parsing are a parameter (`parses`). Only the null, blank and length checks are modelled.
- UrlValidator.IsLocal: the host that `java.net.URL` extracts is a parameter (`hostOf`).
- CodeGenerator.Generate: without a digest it uses the corrected fallback of the Findings row, so it succeeds for every length 4..10 where ShortLinks' own fallbackGenerate throws (a seed hashing to Integer.MIN_VALUE, or one whose index overflows). That path runs only when `MessageDigest` has no SHA-256, which every Java platform is required to provide.
- CodeGenerator.GenerateDefault: inherits the corrected fallback from CodeGenerator.Generate.
- CodeGenerator.GenerateForUser: inherits the corrected fallback from CodeGenerator.Generate.
- UrlService.UrlShortenerServiceImpl.ShortenUrlWithExpirationAndClicks: its "succeeds iff the length is 4..10" inherits the corrected fallback from CodeGenerator.Generate, and so do the four shortenUrl wrappers.
- Strings are sequences of Unicode scalar values, while Java's `String.length()`, `charAt` and `hashCode` count UTF-16 code units. For text with characters outside the Basic Multilingual Plane, every length limit differs from Java's (2048 for URLs, 3..10 for codes, 8..36 in matchesShortId), and so does the hash.
- Urls.MakeUrl: the 2048 limit counts scalar values. A URL of 2048 characters outside the Basic Multilingual Plane is accepted, while Java counts 4096 units and throws.
- JavaInts.StringHash: hashes scalar values, not UTF-16 units. A seed with a character outside the Basic Multilingual Plane hashes differently from Java, and so do the padCode and fallback characters derived from it.
- UrlService.UrlShortenerServiceImpl.ValidateTtl: the if-and-only-if is stated only when `maxTTLDays * 24` fits an int. Otherwise the wrapped product is used, as Java does.
- UrlRepository.FileUrlRepository.FindAll: `ArrayList(storage.values())` order is left unspecified.
- `InMemoryUserRepository.findAll` is left out: it returns the live value view, which has no contract beyond the `storage` field.
- `User.toString`, `ShortenedUrl.toString` and every `hashCode` are left out; only `String.hashCode`, which padCode and fallbackGenerate use, is modelled.
- null where Java would throw a `NullPointerException` is left out: a null `ShortCode` value in `fromShortUrl`, a null id, a null `expiresAt`. `User` and `UserId` cannot hold null ids, so those constructor checks have no counterpart.
- `Config` is a value. Its setters and getters are the datatype's fields, and `new Config()` is `DEFAULT_CONFIG`.
- Port interfaces and exception classes have no counterpart of their own. The ports are inputs or the modelled classes themselves, and exceptions are the `Error` datatype.

## Findings

| source | as written | input that shows it | evidently intended | confidence | as-written member | corrected member |
|---|---|---|---|---|---|---|
| src/main/java/com/urlshortener/infrastructure/utils/CodeGeneratorImpl.java:179-190 | `hash = Math.abs(s.hashCode())`, then `(hash + i * 31) % 55` in int arithmetic, indexing READABLE_ALPHABET | a seed whose hashCode is Integer.MIN_VALUE, which stays negative under Math.abs; or one whose hashCode is Integer.MAX_VALUE, which overflows at i = 1; both give a negative index, so `charAt` throws | a non-negative index (abs(hash) + 31·i) mod 55 for every i | not executed | CodeGenerator.FallbackAsWritten (with CodeGenerator.FallbackFailsOnMinHash and CodeGenerator.FallbackFailsOnOverflow) | CodeGenerator.FallbackGenerate |
