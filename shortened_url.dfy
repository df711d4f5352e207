/** ShortenedUrl.java: a short link with its click quota, expiry and active flag. */
module Links {
  import opened Text
  import opened Errors
  import opened Wrappers
  import opened JavaInts
  import opened Urls
  import opened ShortCodes
  import opened UserIds

  /** A snapshot of every field of a link; instants are integer seconds. */
  datatype LinkState = LinkState(
    originalUrl: Url,
    shortCode: ShortCode,
    userId: UserId,
    createdAt: int,
    expiresAt: int,
    maxClicks: int,
    currentClicks: int,
    active: bool)

  /** The four labels of getStatus. */
  datatype Status = Blocked | Expired | LimitReached | Active

  /** ShortenedUrl.isExpired: strictly after the expiry instant. */
  predicate IsExpired(l: LinkState, now: int) {
    now > l.expiresAt
  }

  /** ShortenedUrl.canBeAccessed. */
  predicate CanBeAccessed(l: LinkState, now: int) {
    l.active && !IsExpired(l, now) && l.currentClicks < l.maxClicks
  }

  /** The quota invariant: clicks within the quota, and a used-up quota means inactive. */
  predicate QuotaInvariant(l: LinkState) {
    0 <= l.currentClicks <= l.maxClicks && (l.currentClicks >= l.maxClicks ==> !l.active)
  }

  /** The Jackson constructor: a missing creation instant defaults to now. */
  function Restore(originalUrl: Url, shortCode: ShortCode, userId: UserId, createdAt: Option<int>,
                   expiresAt: int, maxClicks: int, currentClicks: int, active: bool, now: int): LinkState
  {
    LinkState(originalUrl, shortCode, userId, if createdAt.Some? then createdAt.value else now,
              expiresAt, maxClicks, currentClicks, active)
  }

  /**
   * ShortenedUrl.createWithCustomExpiration: refuses an expiry before now; otherwise a fresh,
   * active link created now with no clicks. The quota itself is not checked.
   */
  function CreateWithCustomExpiration(originalUrl: Url, shortCode: ShortCode, userId: UserId,
                                      expiresAt: int, maxClicks: int, now: int): (r: Result<LinkState>)
    ensures r.Err? <==> expiresAt < now
    ensures r.Err? ==> r.error == IllegalArgument(ExpiryInPast)
    ensures r.Ok? ==> r.value.createdAt == now && r.value.currentClicks == 0 && r.value.active
    ensures r.Ok? ==> r.value.originalUrl == originalUrl && r.value.shortCode == shortCode &&
                      r.value.userId == userId && r.value.expiresAt == expiresAt && r.value.maxClicks == maxClicks
    ensures r.Ok? ==> (CanBeAccessed(r.value, now) <==> maxClicks > 0)
    ensures r.Ok? ==> (QuotaInvariant(r.value) <==> maxClicks > 0)
  {
    if expiresAt < now then Err(IllegalArgument(ExpiryInPast))
    else Ok(Restore(originalUrl, shortCode, userId, Some(now), expiresAt, maxClicks, 0, true, now))
  }

  /** ShortenedUrl.getStatus: blocked, then expired, then limit reached, then active. */
  function StatusOf(l: LinkState, now: int): (r: Status)
    ensures r == Active <==> CanBeAccessed(l, now)
    ensures r == Blocked <==> !l.active
    ensures r == Expired ==> IsExpired(l, now)
    ensures r == LimitReached ==> !IsExpired(l, now) && l.currentClicks >= l.maxClicks
  {
    if !l.active then Blocked
    else if IsExpired(l, now) then Expired
    else if l.currentClicks >= l.maxClicks then LimitReached
    else Active
  }

  /** Under the quota invariant an exhausted link is reported Blocked, never LimitReached. */
  lemma ExhaustedReportsBlocked(l: LinkState, now: int)
    requires QuotaInvariant(l) && l.currentClicks >= l.maxClicks
    ensures StatusOf(l, now) == Blocked
  {
  }

  /** ShortenedUrl.getRemainingClicks: `Math.max(0, maxClicks - currentClicks)` in int arithmetic. */
  function RemainingClicks(l: LinkState): (r: int)
    requires IsInt(l.maxClicks) && IsInt(l.currentClicks)
    ensures r >= 0
    ensures l.currentClicks >= 0 && l.maxClicks >= 0 ==> r == if l.maxClicks > l.currentClicks then l.maxClicks - l.currentClicks else 0
    ensures QuotaInvariant(l) ==> r == l.maxClicks - l.currentClicks
  {
    var d := Wrap32(l.maxClicks - l.currentClicks);
    if d > 0 then d else 0
  }

  /** With a negative stored click count the int subtraction can wrap round to 0 remaining clicks. */
  lemma RemainingClicksWrap()
    ensures var l := LinkState(Url("https://a"), ShortCode("abc"), UserId(seq(32, i => 0)), 0, 0, INT_MAX, -1, true);
            RemainingClicks(l) == 0 && l.maxClicks - l.currentClicks > 0
  {
  }

  /**
   * ShortenedUrl.getRemainingHours: whole hours from now to the expiry (ChronoUnit.HOURS.between
   * truncates), and 0 once the expiry has passed.
   */
  function RemainingHours(l: LinkState, now: int): (r: int)
    ensures r >= 0
    ensures l.expiresAt <= now ==> r == 0
    ensures now < l.expiresAt ==> r * 3600 <= l.expiresAt - now < (r + 1) * 3600
  {
    if l.expiresAt <= now then 0 else (l.expiresAt - now) / 3600
  }

  /** The state after a successful incrementClicks. */
  function Click(l: LinkState): (r: LinkState)
  {
    var n := l.currentClicks + 1;
    l.(currentClicks := n, active := if n >= l.maxClicks then false else l.active)
  }

  /** A click on an accessible link re-establishes the quota invariant and keeps clicks within int. */
  lemma ClickPreservesInvariant(l: LinkState, now: int)
    requires QuotaInvariant(l) && CanBeAccessed(l, now) && IsInt(l.maxClicks)
    ensures QuotaInvariant(Click(l)) && IsInt(Click(l).currentClicks)
    ensures Click(l).currentClicks == l.currentClicks + 1
    ensures !Click(l).active <==> Click(l).currentClicks == l.maxClicks
  {
  }

  /** The state after n successful clicks at instant now. */
  function ClickN(l: LinkState, n: nat): LinkState
  {
    if n == 0 then l else Click(ClickN(l, n - 1))
  }

  /**
   * The quota boundary: on a fresh link with quota N, the first N clicks find it accessible,
   * and after the N-th it is inactive and no longer accessible.
   */
  lemma {:induction false} QuotaBoundary(start: LinkState, k: nat, now: int)
    requires start.currentClicks == 0 && start.active && start.maxClicks > 0 && !IsExpired(start, now)
    requires k <= start.maxClicks
    ensures ClickN(start, k).currentClicks == k
    ensures ClickN(start, k).expiresAt == start.expiresAt && ClickN(start, k).maxClicks == start.maxClicks
    ensures k < start.maxClicks ==> CanBeAccessed(ClickN(start, k), now)
    ensures k == start.maxClicks ==> !ClickN(start, k).active && !CanBeAccessed(ClickN(start, k), now)
  {
    if k > 0 {
      QuotaBoundary(start, k - 1, now);
    }
  }

  /** ShortenedUrl.updateExpiration: whether the new expiry is accepted. */
  predicate ExpirationAccepted(newExpiresAt: Option<int>, maxExpiresAt: Option<int>, now: int) {
    newExpiresAt.Some? && newExpiresAt.value >= now &&
    (maxExpiresAt.None? || newExpiresAt.value <= maxExpiresAt.value)
  }

  /** ShortenedUrl.getShortUrl: the base with a '/' ensured, then the code. */
  function ShortUrl(l: LinkState, baseUrl: string): (r: string)
    ensures EndsWith(baseUrl, "/") ==> r == baseUrl + l.shortCode.value
    ensures !EndsWith(baseUrl, "/") ==> r == baseUrl + "/" + l.shortCode.value
  {
    (if EndsWith(baseUrl, "/") then baseUrl else baseUrl + "/") + l.shortCode.value
  }

  /** With a base ending in '/', fromShortUrl recovers the code from getShortUrl. */
  lemma ShortUrlRoundTrip(l: LinkState, baseUrl: string)
    requires EndsWith(baseUrl, "/") && IsValidCode(l.shortCode.value)
    ensures FromShortUrl(ShortUrl(l, baseUrl), baseUrl) == Ok(l.shortCode)
  {
    FromShortUrlStopsAtSeparator(baseUrl, l.shortCode, []);
    assert baseUrl + l.shortCode.value + [] == ShortUrl(l, baseUrl);
  }

  /** Without the trailing '/', getShortUrl inserts one and fromShortUrl finds an empty code. */
  lemma ShortUrlWithoutSlashFails(l: LinkState, baseUrl: string)
    requires !EndsWith(baseUrl, "/")
    ensures FromShortUrl(ShortUrl(l, baseUrl), baseUrl) == Err(IllegalArgument(BlankCode))
  {
    var s := ShortUrl(l, baseUrl);
    assert s[..|baseUrl|] == baseUrl;
    var rest := s[|baseUrl|..];
    assert rest == "/" + l.shortCode.value;
    assert IndexOf(rest, '/') == 0;
    assert CutAtSeparators(rest) == [];
  }

  /** ShortenedUrl.withUpdatedParams: a copy with the URL and expiry replaced where given. */
  function WithUpdatedParams(l: LinkState, newUrl: Option<Url>, newExpiresAt: Option<int>): (r: LinkState)
    ensures SameLink(r, l) && r.userId == l.userId && r.createdAt == l.createdAt
    ensures r.maxClicks == l.maxClicks && r.currentClicks == l.currentClicks && r.active == l.active
    ensures r.originalUrl == (if newUrl.Some? then newUrl.value else l.originalUrl)
    ensures r.expiresAt == (if newExpiresAt.Some? then newExpiresAt.value else l.expiresAt)
  {
    l.(originalUrl := if newUrl.Some? then newUrl.value else l.originalUrl,
       expiresAt := if newExpiresAt.Some? then newExpiresAt.value else l.expiresAt)
  }

  /** ShortenedUrl.equals: two links are equal iff their codes are. */
  predicate SameLink(a: LinkState, b: LinkState) {
    a.shortCode == b.shortCode
  }

  /** A link whose fields ShortenedUrl updates in place. */
  class ShortenedUrl {
    const originalUrl: Url
    const shortCode: ShortCode
    const userId: UserId
    const createdAt: int
    const maxClicks: int
    var expiresAt: int
    var currentClicks: int
    var active: bool

    /** The current values of all fields. */
    function Value(): LinkState
      reads this
    {
      LinkState(originalUrl, shortCode, userId, createdAt, expiresAt, maxClicks, currentClicks, active)
    }

    constructor (s: LinkState)
      ensures Value() == s
    {
      originalUrl := s.originalUrl;
      shortCode := s.shortCode;
      userId := s.userId;
      createdAt := s.createdAt;
      maxClicks := s.maxClicks;
      expiresAt := s.expiresAt;
      currentClicks := s.currentClicks;
      active := s.active;
    }

    /**
     * ShortenedUrl.incrementClicks: refuses an inaccessible link and changes nothing;
     * otherwise one more click, and inactive once the quota is reached.
     */
    method IncrementClicks(now: int) returns (r: Outcome)
      modifies this
      ensures old(CanBeAccessed(Value(), now)) ==> r == Pass && Value() == Click(old(Value()))
      ensures !old(CanBeAccessed(Value(), now)) ==> r == Fail(IllegalState(NotAccessible)) && Value() == old(Value())
    {
      if !CanBeAccessed(Value(), now) {
        return Fail(IllegalState(NotAccessible));
      }
      currentClicks := currentClicks + 1;
      if currentClicks >= maxClicks {
        active := false;
      }
      r := Pass;
    }

    /** ShortenedUrl.updateUrl: never changes anything and always answers false. */
    method UpdateUrl(newUrl: Option<Url>) returns (changed: bool)
      ensures !changed
    {
      if newUrl.None? || originalUrl == newUrl.value {
        return false;
      }
      return false;
    }

    /**
     * ShortenedUrl.updateExpiration: replaces only the expiry, and only when the new value is
     * present, not before now, and not after a present ceiling.
     */
    method UpdateExpiration(newExpiresAt: Option<int>, maxExpiresAt: Option<int>, now: int) returns (changed: bool)
      modifies this
      ensures changed <==> ExpirationAccepted(newExpiresAt, maxExpiresAt, now)
      ensures changed ==> Value() == old(Value()).(expiresAt := newExpiresAt.value)
      ensures !changed ==> Value() == old(Value())
    {
      if newExpiresAt.None? || newExpiresAt.value < now {
        return false;
      }
      if maxExpiresAt.Some? && newExpiresAt.value > maxExpiresAt.value {
        return false;
      }
      expiresAt := newExpiresAt.value;
      return true;
    }
  }

  /** A new expiry never touches the quota, so updateExpiration preserves the quota invariant. */
  lemma ExpirationPreservesInvariant(l: LinkState, e: int)
    requires QuotaInvariant(l)
    ensures QuotaInvariant(l.(expiresAt := e)) && StatusOf(l.(expiresAt := e), e) != LimitReached
  {
  }
}
