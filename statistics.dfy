/** StatisticsServiceImpl.java and the Config settings bag it reports. */
module Statistics {
  import opened Wrappers
  import opened JavaInts
  import opened UserIds
  import opened Links
  import opened UrlRepository
  import opened UserRepository
  import opened Collections

  /** Config.java: the nine settings; the string ones may be null. */
  datatype Config = Config(
    baseUrl: Option<string>,
    defaultTTLHours: int,
    defaultMaxClicks: int,
    shortCodeLength: int,
    storageFile: Option<string>,
    cleanupIntervalMinutes: int,
    enableAutoRedirect: bool,
    dateTimeFormat: Option<string>,
    maxTTLDays: int)

  /** `new Config()`: the field initialisers, and Java's defaults elsewhere. */
  const DEFAULT_CONFIG: Config :=
    Config(None, 0, 0, 0, None, 60, true, Some("yyyy-MM-dd HH:mm"), 365)

  /** The values a Map<String, Object> of the statistics service holds. */
  datatype Value = Text(text: Option<string>) | Number(number: int) | Flag(flag: bool)

  /**
   * A configuration file that sets none of the fields reports the initialised defaults: cleanup
   * every 60 minutes, auto-redirect on, the "yyyy-MM-dd HH:mm" format and 365 days at most, with
   * the other settings at Java's zero and null.
   */
  lemma DefaultConfigReport()
    ensures var info := ConfigInfo(DEFAULT_CONFIG);
            info["cleanupIntervalMinutes"] == Number(60) && info["enableAutoRedirect"] == Flag(true) &&
            info["dateTimeFormat"] == Text(Some("yyyy-MM-dd HH:mm")) && info["maxTTLDays"] == Number(365) &&
            info["baseUrl"] == Text(None) && info["storageFile"] == Text(None) &&
            info["defaultTTLHours"] == Number(0) && info["defaultMaxClicks"] == Number(0) &&
            info["shortCodeLength"] == Number(0)
  {
  }

  const CONFIG_KEYS: set<string> := {"baseUrl", "defaultTTLHours", "defaultMaxClicks", "shortCodeLength",
                                     "storageFile", "cleanupIntervalMinutes", "enableAutoRedirect",
                                     "dateTimeFormat", "maxTTLDays"}

  /** getConfigInfo: each setting under its own name. */
  function ConfigInfo(c: Config): (r: map<string, Value>)
    ensures r.Keys == CONFIG_KEYS
  {
    map["baseUrl" := Text(c.baseUrl),
        "defaultTTLHours" := Number(c.defaultTTLHours),
        "defaultMaxClicks" := Number(c.defaultMaxClicks),
        "shortCodeLength" := Number(c.shortCodeLength),
        "storageFile" := Text(c.storageFile),
        "cleanupIntervalMinutes" := Number(c.cleanupIntervalMinutes),
        "enableAutoRedirect" := Flag(c.enableAutoRedirect),
        "dateTimeFormat" := Text(c.dateTimeFormat),
        "maxTTLDays" := Number(c.maxTTLDays)]
  }

  /** Reading a Config back from a map of settings, when every key holds a value of its kind. */
  function ConfigOfInfo(m: map<string, Value>): (r: Option<Config>)
    ensures r.Some? ==> CONFIG_KEYS <= m.Keys
  {
    if CONFIG_KEYS <= m.Keys &&
       m["baseUrl"].Text? && m["defaultTTLHours"].Number? && m["defaultMaxClicks"].Number? &&
       m["shortCodeLength"].Number? && m["storageFile"].Text? && m["cleanupIntervalMinutes"].Number? &&
       m["enableAutoRedirect"].Flag? && m["dateTimeFormat"].Text? && m["maxTTLDays"].Number?
    then Some(Config(m["baseUrl"].text, m["defaultTTLHours"].number, m["defaultMaxClicks"].number,
                     m["shortCodeLength"].number, m["storageFile"].text, m["cleanupIntervalMinutes"].number,
                     m["enableAutoRedirect"].flag, m["dateTimeFormat"].text, m["maxTTLDays"].number))
    else None
  }

  /** getConfigInfo loses nothing: the settings can be read back unchanged from their names. */
  lemma ConfigInfoRoundTrip(c: Config)
    ensures ConfigOfInfo(ConfigInfo(c)) == Some(c)
  {
  }

  /** Two configurations with the same report are the same configuration. */
  lemma ConfigInfoInjective(a: Config, b: Config)
    requires ConfigInfo(a) == ConfigInfo(b)
    ensures a == b
  {
    ConfigInfoRoundTrip(a);
    ConfigInfoRoundTrip(b);
  }

  const GLOBAL_KEYS: set<string> := {"totalUrls", "totalUsers", "activeUrls", "expiredUrls"}

  /** getGlobalStatistics: the repository counts under their names. */
  function GlobalStatistics(urls: FileUrlRepository, users: InMemoryUserRepository, now: int): (r: map<string, int>)
    reads urls, urls.storage.Values, users
    ensures r.Keys == GLOBAL_KEYS
    ensures r["totalUrls"] == |urls.storage| && r["totalUsers"] == |users.storage|
    ensures r["activeUrls"] == |ActiveCodes(urls.State(), now)| && r["expiredUrls"] == |ExpiredCodes(urls.State(), now)|
    ensures r["activeUrls"] + r["expiredUrls"] <= r["totalUrls"]
  {
    ActiveExpiredDisjoint(urls.State(), now);
    assert urls.State().Keys == urls.storage.Keys;
    map["totalUrls" := urls.Count(),
        "totalUsers" := users.Count(),
        "activeUrls" := urls.CountActive(now),
        "expiredUrls" := urls.CountExpired(now)]
  }

  /** The codes findByUserId reports for an owner: listed for it and stored. */
  function ListedCodes(storage: map<string, ShortenedUrl>, owners: map<UserId, set<string>>, owner: UserId): (r: set<string>)
    ensures r <= storage.Keys
  {
    set c | c in (if owner in owners then owners[owner] else {}) && c in storage
  }

  ghost function Pick(codes: set<string>): (c: string)
    requires codes != {}
    ensures c in codes
  {
    var c :| c in codes; c
  }

  /** The exact sum of the click counters of the given codes. */
  ghost function ClickTotal(st: map<string, LinkState>, codes: set<string>): int
    requires codes <= st.Keys
    decreases codes
  {
    if codes == {} then 0
    else var c := Pick(codes); st[c].currentClicks + ClickTotal(st, codes - {c})
  }

  /** The sum does not depend on the order the codes are taken in. */
  lemma {:induction false} ClickTotalRemove(st: map<string, LinkState>, codes: set<string>, c: string)
    requires codes <= st.Keys && c in codes
    ensures ClickTotal(st, codes) == st[c].currentClicks + ClickTotal(st, codes - {c})
    decreases codes
  {
    var d := Pick(codes);
    if d != c {
      ClickTotalRemove(st, codes - {d}, c);
      ClickTotalRemove(st, codes - {c}, d);
      assert codes - {d} - {c} == codes - {c} - {d};
    }
  }

  /** Under the quota invariant no counter is negative, so neither is the exact total. */
  lemma {:induction false} ClickTotalNonNegative(st: map<string, LinkState>, codes: set<string>)
    requires codes <= st.Keys
    requires forall c :: c in codes ==> QuotaInvariant(st[c])
    ensures ClickTotal(st, codes) >= 0
    decreases codes
  {
    if codes != {} {
      ClickTotalNonNegative(st, codes - {Pick(codes)});
    }
  }

  function AccessibleCodes(st: map<string, LinkState>, codes: set<string>, now: int): (r: set<string>)
    ensures r <= codes
  {
    set c | c in codes && c in st && CanBeAccessed(st[c], now)
  }

  /** Adding one more code to the tally: its clicks to the sum, and one to the count if accessible. */
  lemma TallyStep(st: map<string, LinkState>, seen: set<string>, c: string, now: int)
    requires seen <= st.Keys && c in st && c !in seen
    ensures ClickTotal(st, seen + {c}) == ClickTotal(st, seen) + st[c].currentClicks
    ensures |AccessibleCodes(st, seen + {c}, now)| ==
            |AccessibleCodes(st, seen, now)| + (if CanBeAccessed(st[c], now) then 1 else 0)
  {
    ClickTotalRemove(st, seen + {c}, c);
    assert seen + {c} - {c} == seen;
    if CanBeAccessed(st[c], now) {
      assert AccessibleCodes(st, seen + {c}, now) == AccessibleCodes(st, seen, now) + {c};
    } else {
      assert AccessibleCodes(st, seen + {c}, now) == AccessibleCodes(st, seen, now);
    }
  }

  /** An entry repeated at two positions occurs at least twice. */
  lemma RepeatCounts(links: seq<ShortenedUrl>, j: int, i: int)
    requires 0 <= j < i < |links|
    ensures links[j] == links[i] ==> multiset(links)[links[i]] >= 2
  {
    var x := links[i];
    assert links == links[..i] + links[i..];
    assert links[..i][j] == links[j] && links[i..][0] == x;
    assert multiset(links)[x] == multiset(links[..i])[x] + multiset(links[i..])[x];
  }

  /** A list without repeated links, all stored, names each code at most once. */
  lemma DistinctCodes(storage: map<string, ShortenedUrl>, links: seq<ShortenedUrl>, j: int, i: int)
    requires KeysAreCodes(storage)
    requires forall x :: x in links ==> x in storage.Values
    requires forall x :: multiset(links)[x] <= 1
    requires 0 <= j < i < |links|
    ensures links[j].shortCode.value != links[i].shortCode.value
  {
    RepeatCounts(links, j, i);
    assert links[j] != links[i];
    assert links[j] in storage.Values && links[i] in storage.Values;
    var cj :| cj in storage && storage[cj] == links[j];
    var ci :| ci in storage && storage[ci] == links[i];
  }

  /** With distinct codes, the next link's code is not among the codes already seen. */
  lemma NextCodeIsNew(links: seq<ShortenedUrl>, i: int)
    requires 0 <= i < |links|
    requires forall j, k :: 0 <= j < k < |links| ==> links[j].shortCode.value != links[k].shortCode.value
    ensures links[i].shortCode.value !in CodesOf(links[..i])
  {
    forall j | 0 <= j < i ensures links[..i][j].shortCode.value != links[i].shortCode.value {
      assert links[..i][j] == links[j];
    }
  }

  /** The codes of a list of links (the code is a constant field, so this reads nothing). */
  function CodesOf(s: seq<ShortenedUrl>): set<string> {
    set j | 0 <= j < |s| :: s[j].shortCode.value
  }

  lemma CodesOfSnoc(s: seq<ShortenedUrl>, x: ShortenedUrl)
    ensures CodesOf(s + [x]) == CodesOf(s) + {x.shortCode.value}
  {
    var t := s + [x];
    assert t[|s|] == x;
    assert forall j :: 0 <= j < |s| ==> t[j] == s[j];
  }

  /** The codes of the first i + 1 links: those of the first i, and one more. */
  lemma CodesOfNext(links: seq<ShortenedUrl>, i: int)
    requires 0 <= i < |links|
    ensures CodesOf(links[..i + 1]) == CodesOf(links[..i]) + {links[i].shortCode.value}
  {
    assert links[..i + 1] == links[..i] + [links[i]];
    CodesOfSnoc(links[..i], links[i]);
  }

  /** The two stream reductions of getUserStatistics over a list whose links have distinct codes. */
  method Tally(links: seq<ShortenedUrl>, ghost st: map<string, LinkState>, now: int) returns (total: int, active: int)
    requires forall j :: 0 <= j < |links| ==> links[j].shortCode.value in st && st[links[j].shortCode.value] == links[j].Value()
    requires forall j, i :: 0 <= j < i < |links| ==> links[j].shortCode.value != links[i].shortCode.value
    ensures CodesOf(links) <= st.Keys && |CodesOf(links)| == |links|
    ensures total == ClickTotal(st, CodesOf(links))
    ensures active == |AccessibleCodes(st, CodesOf(links), now)|
  {
    total, active := 0, 0;
    ghost var seen: set<string> := {};
    assert links[..0] == [];
    for i := 0 to |links|
      invariant seen == CodesOf(links[..i])
      invariant seen <= st.Keys && |seen| == i
      invariant total == ClickTotal(st, seen)
      invariant active == |AccessibleCodes(st, seen, now)|
    {
      var link := links[i];
      ghost var c := link.shortCode.value;
      NextCodeIsNew(links, i);
      TallyStep(st, seen, c, now);
      if CanBeAccessed(link.Value(), now) {
        active := active + 1;
      }
      total := total + link.currentClicks;
      CodesOfNext(links, i);
      seen := seen + {c};
    }
    assert links[..|links|] == links;
  }

  const USER_KEYS: set<string> := {"totalUrls", "totalClicks", "activeUrls"}

  /** The map getUserStatistics builds. */
  function UserMap(totalUrls: int, totalClicks: int, activeUrls: int): (r: map<string, int>)
    ensures r.Keys == USER_KEYS
    ensures r["totalUrls"] == totalUrls && r["totalClicks"] == totalClicks && r["activeUrls"] == activeUrls
  {
    map["totalUrls" := totalUrls, "totalClicks" := totalClicks, "activeUrls" := activeUrls]
  }

  /**
   * getUserStatistics: over findByUserId's list, the number of links, the int-wrapped sum of
   * their clicks, and how many of them are accessible.
   */
  method GetUserStatistics(urls: FileUrlRepository, owner: UserId, now: int) returns (r: map<string, int>)
    requires urls.Valid()
    ensures r.Keys == USER_KEYS
    ensures var codes := ListedCodes(urls.storage, urls.userUrls, owner);
            r["totalUrls"] == |codes| &&
            r["totalClicks"] == Wrap32(ClickTotal(urls.State(), codes)) &&
            r["activeUrls"] == |AccessibleCodes(urls.State(), codes, now)|
    ensures 0 <= r["activeUrls"] <= r["totalUrls"]
  {
    var links := urls.FindByUserId(owner);
    ghost var st := urls.State();
    ghost var codes := ListedCodes(urls.storage, urls.userUrls, owner);
    ListedList(urls.storage, urls.userUrls, owner, links);
    forall j | 0 <= j < |links|
      ensures links[j].shortCode.value in st && st[links[j].shortCode.value] == links[j].Value()
    {
      urls.StateAt(links[j].shortCode.value);
    }
    var total, active := Tally(links, st, now);
    SubsetCard(AccessibleCodes(st, codes, now), codes);
    assert total == ClickTotal(st, codes) && active == |AccessibleCodes(st, codes, now)|;
    r := UserMap(|links|, Wrap32(total), active);
  }

  /** findByUserId's list: every entry is stored under its own listed code, once, and every listed code appears. */
  lemma ListedList(storage: map<string, ShortenedUrl>, owners: map<UserId, set<string>>, owner: UserId,
                   links: seq<ShortenedUrl>)
    requires KeysAreCodes(storage)
    requires forall x :: x in links <==> x in ListedLinks(storage, owners, owner)
    requires forall x :: multiset(links)[x] <= 1
    ensures forall j :: 0 <= j < |links| ==>
              links[j].shortCode.value in storage && storage[links[j].shortCode.value] == links[j]
    ensures forall j, i :: 0 <= j < i < |links| ==> links[j].shortCode.value != links[i].shortCode.value
    ensures CodesOf(links) == ListedCodes(storage, owners, owner)
  {
    var listed := ListedLinks(storage, owners, owner);
    var codes := ListedCodes(storage, owners, owner);
    assert forall x :: x in links ==> x in storage.Values;
    forall j | 0 <= j < |links|
      ensures links[j].shortCode.value in storage && storage[links[j].shortCode.value] == links[j]
      ensures links[j].shortCode.value in codes
    {
      assert links[j] in listed;
      var c :| c in codes && storage[c] == links[j];
    }
    forall j, i | 0 <= j < i < |links| ensures links[j].shortCode.value != links[i].shortCode.value {
      DistinctCodes(storage, links, j, i);
    }
    forall c | c in codes ensures c in CodesOf(links) {
      assert storage[c] in listed;
      var j :| 0 <= j < |links| && links[j] == storage[c];
    }
    assert CodesOf(links) <= codes;
  }

  /** Under the quota invariant the reported click total is not negative while the exact sum fits an int. */
  lemma UserClicksNonNegative(st: map<string, LinkState>, codes: set<string>)
    requires codes <= st.Keys
    requires forall c :: c in codes ==> QuotaInvariant(st[c])
    requires IsInt(ClickTotal(st, codes))
    ensures Wrap32(ClickTotal(st, codes)) >= 0
  {
    ClickTotalNonNegative(st, codes);
  }
}
