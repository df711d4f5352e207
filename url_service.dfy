/**
 * UrlShortenerServiceImpl.java: the order of checks on create, redirect, edit and delete,
 * over the link repository. The clock, the digest and the URL validator port are inputs.
 */
module UrlService {
  import opened Errors
  import opened Wrappers
  import opened JavaInts
  import opened Urls
  import opened ShortCodes
  import opened UserIds
  import opened Links
  import opened CodeGenerator
  import opened UrlRepository

  const SECONDS_PER_HOUR: int := 3600
  const SECONDS_PER_DAY: int := 86400

  /** The IllegalStateException message redirect chooses: expired, then quota, then blocked. */
  function UnavailableReason(l: LinkState, now: int): (r: Reason)
    ensures r == LinkExpired <==> IsExpired(l, now)
    ensures r == QuotaExhausted <==> !IsExpired(l, now) && l.currentClicks >= l.maxClicks
    ensures r == LinkBlocked <==> !IsExpired(l, now) && l.currentClicks < l.maxClicks
  {
    if IsExpired(l, now) then LinkExpired
    else if l.currentClicks >= l.maxClicks then QuotaExhausted
    else LinkBlocked
  }

  /** redirect and getStatus rank the causes differently: a link both blocked and expired. */
  lemma ReasonOrderDiffersFromStatus(l: LinkState, now: int)
    requires !l.active && IsExpired(l, now)
    ensures UnavailableReason(l, now) == LinkExpired && StatusOf(l, now) == Blocked
  {
  }

  /** Under the quota invariant an exhausted link is refused for its quota, not as blocked. */
  lemma ExhaustedRedirectReason(l: LinkState, now: int)
    requires QuotaInvariant(l) && !l.active && !IsExpired(l, now) && l.currentClicks == l.maxClicks
    ensures !CanBeAccessed(l, now) && UnavailableReason(l, now) == QuotaExhausted
  {
  }

  class UrlShortenerServiceImpl {
    const urlRepository: FileUrlRepository
    /** The UrlValidator port's isValid. */
    const urlValidator: string -> bool
    const defaultTTLHours: int
    const defaultMaxClicks: int
    const shortCodeLength: int
    const maxTTLDays: int

    predicate Valid()
      reads this, urlRepository
    {
      urlRepository.Valid()
    }

    constructor (repo: FileUrlRepository, validator: string -> bool,
                 ttlHours: int, maxClicks: int, codeLength: int, ttlDays: int)
      ensures urlRepository == repo && urlValidator == validator
      ensures defaultTTLHours == ttlHours && defaultMaxClicks == maxClicks
      ensures shortCodeLength == codeLength && maxTTLDays == ttlDays
    {
      urlRepository := repo;
      urlValidator := validator;
      defaultTTLHours := ttlHours;
      defaultMaxClicks := maxClicks;
      shortCodeLength := codeLength;
      maxTTLDays := ttlDays;
    }

    /** The latest expiry allowed: now plus maxTTLDays days. */
    function MaxExpiry(now: int): int {
      now + maxTTLDays * SECONDS_PER_DAY
    }

    /** validateUrl. */
    function ValidateUrl(s: string): (r: Outcome)
      ensures r.Pass? <==> urlValidator(s)
      ensures r.Fail? ==> r.error == Validation(InvalidUrl)
    {
      if !urlValidator(s) then Fail(Validation(InvalidUrl)) else Pass
    }

    /** validateExpirationDate: not before now, then not after now + maxTTLDays. */
    function ValidateExpirationDate(expiresAt: int, now: int): (r: Outcome)
      ensures r.Pass? <==> now <= expiresAt <= MaxExpiry(now)
      ensures r.Fail? ==> r.error == Validation(if expiresAt < now then ExpiryNotInFuture else ExpiryBeyondMaxTtl)
    {
      if expiresAt < now then Fail(Validation(ExpiryNotInFuture))
      else if expiresAt > MaxExpiry(now) then Fail(Validation(ExpiryBeyondMaxTtl))
      else Pass
    }

    /** validateTTL: positive, then at most `maxTTLDays * 24` hours in int arithmetic. */
    function ValidateTtl(ttlHours: int): (r: Outcome)
      ensures IsInt(maxTTLDays * 24) ==> (r.Pass? <==> 0 < ttlHours <= maxTTLDays * 24)
      ensures r.Fail? ==> r.error == Validation(if ttlHours <= 0 then TtlNotPositive else TtlBeyondMax)
    {
      if ttlHours <= 0 then Fail(Validation(TtlNotPositive))
      else if ttlHours > Wrap32(maxTTLDays * 24) then Fail(Validation(TtlBeyondMax))
      else Pass
    }

    /** validateMaxClicks. */
    function ValidateMaxClicks(maxClicks: int): (r: Outcome)
      ensures r.Pass? <==> maxClicks > 0
      ensures r.Fail? ==> r.error == Validation(ClicksNotPositive)
    {
      if maxClicks <= 0 then Fail(Validation(ClicksNotPositive)) else Pass
    }

    /** One of the owner's listed links has this URL and is accessible. */
    predicate HasActiveDuplicate(url: Url, owner: UserId, now: int)
      reads this, urlRepository, urlRepository.storage.Values
    {
      var codes := if owner in urlRepository.userUrls then urlRepository.userUrls[owner] else {};
      exists c :: c in codes && c in urlRepository.storage &&
                  urlRepository.storage[c].originalUrl == url && CanBeAccessed(urlRepository.storage[c].Value(), now)
    }

    /** The checks of shortenUrlWithExpirationAndClicks before a code is generated, in their order. */
    function CreationCheck(url: Url, expiresAt: int, maxClicks: int, now: int, duplicate: bool): (r: Outcome)
      ensures r.Pass? <==> urlValidator(url.value) && now <= expiresAt <= MaxExpiry(now) && maxClicks > 0 && !duplicate
      ensures !urlValidator(url.value) ==> r == Fail(Validation(InvalidUrl))
      ensures urlValidator(url.value) && ValidateExpirationDate(expiresAt, now).Fail? ==>
                r == ValidateExpirationDate(expiresAt, now)
      ensures urlValidator(url.value) && ValidateExpirationDate(expiresAt, now).Pass? && maxClicks <= 0 ==>
                r == Fail(Validation(ClicksNotPositive))
    {
      if ValidateUrl(url.value).Fail? then ValidateUrl(url.value)
      else if ValidateExpirationDate(expiresAt, now).Fail? then ValidateExpirationDate(expiresAt, now)
      else if ValidateMaxClicks(maxClicks).Fail? then ValidateMaxClicks(maxClicks)
      else if duplicate then Fail(Validation(DuplicateActiveLink))
      else Pass
    }

    /** checkForDuplicate: a loop over findByUserId's list. */
    method CheckForDuplicate(url: Url, owner: UserId, now: int) returns (r: Outcome)
      requires Valid()
      ensures r.Fail? <==> HasActiveDuplicate(url, owner, now)
      ensures r.Fail? ==> r.error == Validation(DuplicateActiveLink)
    {
      var links := urlRepository.FindByUserId(owner);
      ghost var codes := if owner in urlRepository.userUrls then urlRepository.userUrls[owner] else {};
      for i := 0 to |links|
        invariant forall j :: 0 <= j < i ==> !(links[j].originalUrl == url && CanBeAccessed(links[j].Value(), now))
      {
        if links[i].originalUrl == url && CanBeAccessed(links[i].Value(), now) {
          assert links[i] in ListedLinks(urlRepository.storage, urlRepository.userUrls, owner);
          return Fail(Validation(DuplicateActiveLink));
        }
      }
      forall c | c in codes && c in urlRepository.storage
        ensures !(urlRepository.storage[c].originalUrl == url && CanBeAccessed(urlRepository.storage[c].Value(), now))
      {
        assert urlRepository.storage[c] in ListedLinks(urlRepository.storage, urlRepository.userUrls, owner);
      }
      r := Pass;
    }

    /**
     * shortenUrlWithExpirationAndClicks: the checks in order, then a generated code, a fresh
     * link, and save. A refusal leaves the repository as it was; a code already stored,
     * whoever owns it, is overwritten by save.
     */
    method ShortenUrlWithExpirationAndClicks(url: Url, userId: UserId, expiresAt: int, maxClicks: int,
                                             now: int, digest: Option<seq<JavaByte>>, nanoTime: int)
      returns (r: Result<ShortenedUrl>)
      modifies urlRepository
      requires Valid()
      requires digest.Some? ==> |digest.value| > 0
      ensures Valid()
      ensures var check := CreationCheck(url, expiresAt, maxClicks, now, old(HasActiveDuplicate(url, userId, now)));
              (check.Fail? ==> r == Err(check.error)) &&
              (check.Pass? ==> (r.Ok? <==> MIN_GENERATED_LENGTH <= shortCodeLength <= MAX_GENERATED_LENGTH))
      ensures r.Err? ==> urlRepository.storage == old(urlRepository.storage) &&
                         urlRepository.userUrls == old(urlRepository.userUrls)
      ensures r.Ok? ==> fresh(r.value)
      ensures r.Ok? ==> r.value.Value() == LinkState(url, r.value.shortCode, userId, now, expiresAt, maxClicks, 0, true)
      ensures r.Ok? ==> |r.value.shortCode.value| == shortCodeLength && IsValidCode(r.value.shortCode.value)
      ensures r.Ok? ==> CanBeAccessed(r.value.Value(), now)
      ensures r.Ok? ==> urlRepository.storage == old(urlRepository.storage)[r.value.shortCode.value := r.value]
      ensures r.Ok? ==> urlRepository.userUrls == AddToOwner(old(urlRepository.userUrls), userId, r.value.shortCode.value)
    {
      var v := ValidateUrl(url.value);
      if v.Fail? { return Err(v.error); }
      v := ValidateExpirationDate(expiresAt, now);
      if v.Fail? { return Err(v.error); }
      v := ValidateMaxClicks(maxClicks);
      if v.Fail? { return Err(v.error); }
      v := CheckForDuplicate(url, userId, now);
      if v.Fail? { return Err(v.error); }
      var code := Generate(url, userId, shortCodeLength, digest, nanoTime);
      if code.Err? { return Err(code.error); }
      var created := CreateWithCustomExpiration(url, code.value, userId, expiresAt, maxClicks, now);
      var link := new ShortenedUrl(created.value);
      var saved := urlRepository.Save(link);
      return Ok(saved);
    }

    /** shortenUrl(url, userId): the default lifetime and quota. */
    method ShortenUrl(url: Url, userId: UserId, now: int, digest: Option<seq<JavaByte>>, nanoTime: int)
      returns (r: Result<ShortenedUrl>)
      modifies urlRepository
      requires Valid()
      requires digest.Some? ==> |digest.value| > 0
      ensures Valid()
      ensures var check := CreationCheck(url, now + defaultTTLHours * SECONDS_PER_HOUR, defaultMaxClicks, now, old(HasActiveDuplicate(url, userId, now)));
              (check.Fail? ==> r == Err(check.error)) &&
              (check.Pass? ==> (r.Ok? <==> MIN_GENERATED_LENGTH <= shortCodeLength <= MAX_GENERATED_LENGTH))
      ensures r.Err? ==> urlRepository.storage == old(urlRepository.storage) &&
                         urlRepository.userUrls == old(urlRepository.userUrls)
      ensures r.Ok? ==> fresh(r.value)
      ensures r.Ok? ==> r.value.Value() == LinkState(url, r.value.shortCode, userId, now, now + defaultTTLHours * SECONDS_PER_HOUR, defaultMaxClicks, 0, true)
      ensures r.Ok? ==> |r.value.shortCode.value| == shortCodeLength && IsValidCode(r.value.shortCode.value)
      ensures r.Ok? ==> urlRepository.storage == old(urlRepository.storage)[r.value.shortCode.value := r.value]
      ensures r.Ok? ==> urlRepository.userUrls == AddToOwner(old(urlRepository.userUrls), userId, r.value.shortCode.value)
    {
      r := ShortenUrlWithExpirationAndClicks(url, userId, now + defaultTTLHours * SECONDS_PER_HOUR,
                                             defaultMaxClicks, now, digest, nanoTime);
    }

    /** shortenUrl(url, userId, ttlHours): validateTTL first, then expiry now + ttlHours. */
    method ShortenUrlWithTtl(url: Url, userId: UserId, ttlHours: int, now: int,
                             digest: Option<seq<JavaByte>>, nanoTime: int)
      returns (r: Result<ShortenedUrl>)
      modifies urlRepository
      requires Valid()
      requires digest.Some? ==> |digest.value| > 0
      ensures Valid()
      ensures ValidateTtl(ttlHours).Fail? ==> r == Err(ValidateTtl(ttlHours).error)
      ensures ValidateTtl(ttlHours).Pass? ==>
              var check := CreationCheck(url, now + ttlHours * SECONDS_PER_HOUR, defaultMaxClicks, now, old(HasActiveDuplicate(url, userId, now)));
              (check.Fail? ==> r == Err(check.error)) &&
              (check.Pass? ==> (r.Ok? <==> MIN_GENERATED_LENGTH <= shortCodeLength <= MAX_GENERATED_LENGTH))
      ensures r.Err? ==> urlRepository.storage == old(urlRepository.storage) &&
                         urlRepository.userUrls == old(urlRepository.userUrls)
      ensures r.Ok? ==> fresh(r.value)
      ensures r.Ok? ==> r.value.Value() == LinkState(url, r.value.shortCode, userId, now, now + ttlHours * SECONDS_PER_HOUR, defaultMaxClicks, 0, true)
      ensures r.Ok? ==> |r.value.shortCode.value| == shortCodeLength && IsValidCode(r.value.shortCode.value)
      ensures r.Ok? ==> urlRepository.storage == old(urlRepository.storage)[r.value.shortCode.value := r.value]
      ensures r.Ok? ==> urlRepository.userUrls == AddToOwner(old(urlRepository.userUrls), userId, r.value.shortCode.value)
      ensures r.Ok? ==> 0 < ttlHours
    {
      var t := ValidateTtl(ttlHours);
      if t.Fail? { return Err(t.error); }
      r := ShortenUrlWithExpirationAndClicks(url, userId, now + ttlHours * SECONDS_PER_HOUR,
                                             defaultMaxClicks, now, digest, nanoTime);
    }

    /** shortenUrlWithClicks: validateMaxClicks first, then the default lifetime. */
    method ShortenUrlWithClicks(url: Url, userId: UserId, maxClicks: int, now: int,
                                digest: Option<seq<JavaByte>>, nanoTime: int)
      returns (r: Result<ShortenedUrl>)
      modifies urlRepository
      requires Valid()
      requires digest.Some? ==> |digest.value| > 0
      ensures Valid()
      ensures maxClicks <= 0 ==> r == Err(Validation(ClicksNotPositive))
      ensures maxClicks > 0 ==>
              var check := CreationCheck(url, now + defaultTTLHours * SECONDS_PER_HOUR, maxClicks, now, old(HasActiveDuplicate(url, userId, now)));
              (check.Fail? ==> r == Err(check.error)) &&
              (check.Pass? ==> (r.Ok? <==> MIN_GENERATED_LENGTH <= shortCodeLength <= MAX_GENERATED_LENGTH))
      ensures r.Err? ==> urlRepository.storage == old(urlRepository.storage) &&
                         urlRepository.userUrls == old(urlRepository.userUrls)
      ensures r.Ok? ==> fresh(r.value)
      ensures r.Ok? ==> r.value.Value() == LinkState(url, r.value.shortCode, userId, now, now + defaultTTLHours * SECONDS_PER_HOUR, maxClicks, 0, true)
      ensures r.Ok? ==> |r.value.shortCode.value| == shortCodeLength && IsValidCode(r.value.shortCode.value)
      ensures r.Ok? ==> urlRepository.storage == old(urlRepository.storage)[r.value.shortCode.value := r.value]
      ensures r.Ok? ==> urlRepository.userUrls == AddToOwner(old(urlRepository.userUrls), userId, r.value.shortCode.value)
    {
      var m := ValidateMaxClicks(maxClicks);
      if m.Fail? { return Err(m.error); }
      r := ShortenUrlWithExpirationAndClicks(url, userId, now + defaultTTLHours * SECONDS_PER_HOUR,
                                             maxClicks, now, digest, nanoTime);
    }

    /** shortenUrlWithExpiration: validateExpirationDate first, then the default quota. */
    method ShortenUrlWithExpiration(url: Url, userId: UserId, expiresAt: int, now: int,
                                    digest: Option<seq<JavaByte>>, nanoTime: int)
      returns (r: Result<ShortenedUrl>)
      modifies urlRepository
      requires Valid()
      requires digest.Some? ==> |digest.value| > 0
      ensures Valid()
      ensures ValidateExpirationDate(expiresAt, now).Fail? ==> r == Err(ValidateExpirationDate(expiresAt, now).error)
      ensures ValidateExpirationDate(expiresAt, now).Pass? ==>
              var check := CreationCheck(url, expiresAt, defaultMaxClicks, now, old(HasActiveDuplicate(url, userId, now)));
              (check.Fail? ==> r == Err(check.error)) &&
              (check.Pass? ==> (r.Ok? <==> MIN_GENERATED_LENGTH <= shortCodeLength <= MAX_GENERATED_LENGTH))
      ensures r.Err? ==> urlRepository.storage == old(urlRepository.storage) &&
                         urlRepository.userUrls == old(urlRepository.userUrls)
      ensures r.Ok? ==> fresh(r.value)
      ensures r.Ok? ==> r.value.Value() == LinkState(url, r.value.shortCode, userId, now, expiresAt, defaultMaxClicks, 0, true)
      ensures r.Ok? ==> |r.value.shortCode.value| == shortCodeLength && IsValidCode(r.value.shortCode.value)
      ensures r.Ok? ==> urlRepository.storage == old(urlRepository.storage)[r.value.shortCode.value := r.value]
      ensures r.Ok? ==> urlRepository.userUrls == AddToOwner(old(urlRepository.userUrls), userId, r.value.shortCode.value)
    {
      var e := ValidateExpirationDate(expiresAt, now);
      if e.Fail? { return Err(e.error); }
      r := ShortenUrlWithExpirationAndClicks(url, userId, expiresAt, defaultMaxClicks, now, digest, nanoTime);
    }

    /**
     * redirect: not found, or refused with the reason for an inaccessible link (nothing
     * changes); otherwise exactly one more click on that link, saved, and its URL.
     */
    method Redirect(code: ShortCode, now: int) returns (r: Result<Url>)
      modifies urlRepository, urlRepository.storage.Values
      requires Valid()
      ensures Valid()
      ensures urlRepository.storage == old(urlRepository.storage) && urlRepository.userUrls == old(urlRepository.userUrls)
      ensures code.value !in old(urlRepository.storage) ==> r == Err(NotFound(code.value))
      ensures code.value in old(urlRepository.storage) ==>
                var before := old(urlRepository.State())[code.value];
                if CanBeAccessed(before, now) then
                  r == Ok(before.originalUrl) &&
                  urlRepository.State() == old(urlRepository.State())[code.value := Click(before)]
                else
                  r == Err(IllegalState(UnavailableReason(before, now))) &&
                  urlRepository.State() == old(urlRepository.State())
    {
      var found := urlRepository.FindByShortCode(code);
      if found.None? {
        return Err(NotFound(code.value));
      }
      var link := found.value;
      ghost var others := urlRepository.storage - {code.value};
      assert forall c :: c in others ==> others[c] != link;
      if !CanBeAccessed(link.Value(), now) {
        return Err(IllegalState(UnavailableReason(link.Value(), now)));
      }
      var inc := link.IncrementClicks(now);
      assert urlRepository.storage[code.value] == link;
      AddToOwnerListed(urlRepository.userUrls, link.userId, code.value);
      var saved := urlRepository.Save(link);
      return Ok(link.originalUrl);
    }

    /** getUrlInfo: the stored link, or not found. */
    function GetUrlInfo(code: ShortCode): (r: Result<ShortenedUrl>)
      reads this, urlRepository
      ensures r.Ok? <==> code.value in urlRepository.storage
      ensures r.Ok? ==> r.value == urlRepository.storage[code.value]
      ensures r.Err? ==> r.error == NotFound(code.value)
    {
      var f := urlRepository.FindByShortCode(code);
      if f.None? then Err(NotFound(code.value)) else Ok(f.value)
    }

    /** hasPermission: the code exists and the given user owns it. */
    predicate HasPermission(code: ShortCode, userId: UserId)
      reads this, urlRepository
    {
      var f := urlRepository.FindByShortCode(code);
      f.Some? && f.value.userId == userId
    }

    /** urlExists. */
    predicate UrlExists(code: ShortCode)
      reads this, urlRepository
    {
      urlRepository.ExistsByShortCode(code)
    }

    /** getUserUrls. */
    method GetUserUrls(owner: UserId) returns (r: seq<ShortenedUrl>)
      requires Valid()
      ensures NewestFirst(r)
      ensures forall x :: x in r <==> x in ListedLinks(urlRepository.storage, urlRepository.userUrls, owner)
      ensures forall x :: multiset(r)[x] <= 1
      ensures forall c :: c in urlRepository.storage && urlRepository.storage[c].userId == owner ==>
                urlRepository.storage[c] in r
      ensures owner !in urlRepository.userUrls ==> r == []
    {
      r := urlRepository.FindByUserId(owner);
    }

    /** deleteUrl: not found, then permission denied (nothing changes), else the code is deleted. */
    method DeleteUrl(code: ShortCode, userId: UserId) returns (r: Outcome)
      modifies urlRepository
      requires Valid()
      ensures Valid()
      ensures r.Pass? <==> old(HasPermission(code, userId))
      ensures code.value !in old(urlRepository.storage) ==> r == Fail(NotFound(code.value))
      ensures code.value in old(urlRepository.storage) && !old(HasPermission(code, userId)) ==> r == Fail(PermissionDenied)
      ensures r.Fail? ==> urlRepository.storage == old(urlRepository.storage) && urlRepository.userUrls == old(urlRepository.userUrls)
      ensures r.Pass? ==> urlRepository.storage == old(urlRepository.storage) - {code.value} &&
                          urlRepository.userUrls == RemoveFromOwner(old(urlRepository.userUrls), userId, code.value)
    {
      var found := urlRepository.FindByShortCode(code);
      if found.None? {
        return Fail(NotFound(code.value));
      }
      if found.value.userId != userId {
        return Fail(PermissionDenied);
      }
      urlRepository.Delete(code);
      r := Pass;
    }

    /**
     * What editUrl does to the found link's value: a differing new URL is validated but never
     * applied; a differing new expiry is validated against [now, now + maxTTLDays], then applied.
     */
    function EditedLink(before: LinkState, newUrl: Option<Url>, newExpiresAt: Option<int>, now: int): (r: Result<LinkState>)
      ensures r.Err? <==>
                (newUrl.Some? && newUrl.value != before.originalUrl && !urlValidator(newUrl.value.value)) ||
                (newExpiresAt.Some? && newExpiresAt.value != before.expiresAt &&
                 !(now <= newExpiresAt.value <= MaxExpiry(now)))
      ensures newUrl.Some? && newUrl.value != before.originalUrl && !urlValidator(newUrl.value.value) ==>
                r == Err(Validation(InvalidUrl))
      ensures r.Ok? ==> r.value == before.(expiresAt := r.value.expiresAt)
      ensures r.Ok? ==> r.value.expiresAt == if newExpiresAt.Some? then newExpiresAt.value else before.expiresAt
    {
      if newUrl.Some? && newUrl.value != before.originalUrl && ValidateUrl(newUrl.value.value).Fail? then
        Err(Validation(InvalidUrl))
      else if newExpiresAt.Some? && newExpiresAt.value != before.expiresAt then
        var v := ValidateExpirationDate(newExpiresAt.value, now);
        if v.Fail? then Err(v.error) else Ok(before.(expiresAt := newExpiresAt.value))
      else Ok(before)
    }

    /** The two update blocks of editUrl on the found link; changed is editUrl's changesMade. */
    method ApplyEdits(link: ShortenedUrl, newUrl: Option<Url>, newExpiresAt: Option<int>, now: int)
      returns (r: Outcome, changed: bool)
      modifies link
      ensures var e := EditedLink(old(link.Value()), newUrl, newExpiresAt, now);
              (e.Err? ==> r == Fail(e.error) && link.Value() == old(link.Value())) &&
              (e.Ok? ==> r == Pass && link.Value() == e.value && (changed <==> e.value != old(link.Value())))
    {
      changed := false;
      if newUrl.Some? && link.originalUrl != newUrl.value {
        var v := ValidateUrl(newUrl.value.value);
        if v.Fail? { return v, false; }
        var urlChanged := link.UpdateUrl(newUrl);
        if urlChanged { changed := true; }
      }
      if newExpiresAt.Some? && link.expiresAt != newExpiresAt.value {
        var v := ValidateExpirationDate(newExpiresAt.value, now);
        if v.Fail? { return v, false; }
        var expiryChanged := link.UpdateExpiration(newExpiresAt, Some(MaxExpiry(now)), now);
        if expiryChanged { changed := true; }
      }
      r := Pass;
    }

    /**
     * editUrl: not found, then permission denied. A differing new URL is validated but never
     * applied; a differing new expiry is validated against [now, now + maxTTLDays] and then
     * replaces the old one. Nothing changes on a refusal.
     */
    method EditUrl(code: ShortCode, userId: UserId, newUrl: Option<Url>, newExpiresAt: Option<int>, now: int)
      returns (r: Result<ShortenedUrl>)
      modifies urlRepository, urlRepository.storage.Values
      requires Valid()
      ensures Valid()
      ensures urlRepository.storage == old(urlRepository.storage) && urlRepository.userUrls == old(urlRepository.userUrls)
      ensures code.value !in old(urlRepository.storage) ==> r == Err(NotFound(code.value))
      ensures code.value in old(urlRepository.storage) && !old(HasPermission(code, userId)) ==> r == Err(PermissionDenied)
      ensures r.Err? ==> urlRepository.State() == old(urlRepository.State())
      ensures old(HasPermission(code, userId)) ==>
                var e := EditedLink(old(urlRepository.State())[code.value], newUrl, newExpiresAt, now);
                (e.Err? ==> r == Err(e.error)) &&
                (e.Ok? ==> r == Ok(old(urlRepository.storage)[code.value]) &&
                           urlRepository.State() == old(urlRepository.State())[code.value := e.value])
    {
      var found := urlRepository.FindByShortCode(code);
      if found.None? {
        return Err(NotFound(code.value));
      }
      var link := found.value;
      if link.userId != userId {
        return Err(PermissionDenied);
      }
      ghost var others := urlRepository.storage - {code.value};
      assert forall c :: c in others ==> others[c] != link;
      var outcome, changesMade := ApplyEdits(link, newUrl, newExpiresAt, now);
      if outcome.Fail? {
        return Err(outcome.error);
      }
      if changesMade {
        AddToOwnerListed(urlRepository.userUrls, link.userId, code.value);
        var saved := urlRepository.Save(link);
        return Ok(saved);
      }
      return Ok(link);
    }
  }
}
