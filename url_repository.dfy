/**
 * FileUrlRepository.java, its in-memory part: a code → link map and an owner → codes index,
 * both updated in place. Writing the JSON file is not modelled.
 */
module UrlRepository {
  import opened Errors
  import opened Wrappers
  import opened Urls
  import opened ShortCodes
  import opened UserIds
  import opened Links
  import opened Collections

  /** The owner index after `userUrls.computeIfAbsent(owner, ...).add(code)`. */
  function AddToOwner(owners: map<UserId, set<string>>, owner: UserId, code: string): (r: map<UserId, set<string>>)
    ensures r.Keys == owners.Keys + {owner}
    ensures r[owner] == (if owner in owners then owners[owner] else {}) + {code}
    ensures forall o :: o in owners && o != owner ==> r[o] == owners[o]
  {
    owners[owner := (if owner in owners then owners[owner] else {}) + {code}]
  }

  /** Saving a code its owner already lists leaves the owner index as it was. */
  lemma AddToOwnerListed(owners: map<UserId, set<string>>, owner: UserId, code: string)
    requires owner in owners && code in owners[owner]
    ensures AddToOwner(owners, owner, code) == owners
  {
    assert owners[owner] + {code} == owners[owner];
    assert AddToOwner(owners, owner, code).Keys == owners.Keys;
  }

  /** The owner index after delete: drop the code from the owner's set, and the set once empty. */
  function RemoveFromOwner(owners: map<UserId, set<string>>, owner: UserId, code: string): (r: map<UserId, set<string>>)
    ensures forall o :: o in owners && o != owner ==> o in r && r[o] == owners[o]
    ensures owner in r <==> owner in owners && owners[owner] - {code} != {}
    ensures owner in r ==> r[owner] == owners[owner] - {code}
    ensures r.Keys <= owners.Keys
  {
    if owner !in owners then owners
    else
      var rest := owners[owner] - {code};
      if rest == {} then owners - {owner} else owners[owner := rest]
  }

  /** Every key is the code of the link stored under it. */
  predicate KeysAreCodes(storage: map<string, ShortenedUrl>) {
    forall c :: c in storage ==> storage[c].shortCode.value == c
  }

  /** Every stored link is listed under its owner. */
  predicate OwnersListLinks(storage: map<string, ShortenedUrl>, owners: map<UserId, set<string>>) {
    forall c :: c in storage ==> storage[c].userId in owners && c in owners[storage[c].userId]
  }

  /** The index holds no empty set. */
  predicate NoEmptyOwnerSets(owners: map<UserId, set<string>>) {
    forall o :: o in owners ==> owners[o] != {}
  }

  /** Every listed code is a key: save keeps this, delete does not (see DeleteLeavesDangling). */
  predicate NoDanglingCodes(storage: map<string, ShortenedUrl>, owners: map<UserId, set<string>>) {
    forall o, c :: o in owners && c in owners[o] ==> c in storage
  }

  /** The stored links whose codes the owner's set lists: what findByUserId returns, unordered. */
  function ListedLinks(storage: map<string, ShortenedUrl>, owners: map<UserId, set<string>>, owner: UserId): set<ShortenedUrl>
  {
    set c | c in (if owner in owners then owners[owner] else {}) && c in storage :: storage[c]
  }

  /** Newest first by creation instant. */
  predicate NewestFirst(s: seq<ShortenedUrl>) {
    forall i, j :: 0 <= i < j < |s| ==> s[i].createdAt >= s[j].createdAt
  }

  /** Insert into a newest-first list, keeping it newest first. */
  function Insert(x: ShortenedUrl, s: seq<ShortenedUrl>): (r: seq<ShortenedUrl>)
    requires NewestFirst(s)
    ensures NewestFirst(r) && multiset(r) == multiset(s) + multiset{x}
  {
    if s == [] then [x]
    else if x.createdAt >= s[0].createdAt then [x] + s
    else
      var t := Insert(x, s[1..]);
      ConsNewest(s, x, t);
      [s[0]] + t
  }

  /** The step of Insert that keeps the head: every element of the inserted tail is no newer than the head. */
  lemma ConsNewest(s: seq<ShortenedUrl>, x: ShortenedUrl, t: seq<ShortenedUrl>)
    requires s != [] && NewestFirst(s) && x.createdAt < s[0].createdAt
    requires NewestFirst(t) && multiset(t) == multiset(s[1..]) + multiset{x}
    ensures NewestFirst([s[0]] + t) && multiset([s[0]] + t) == multiset(s) + multiset{x}
  {
    assert s == [s[0]] + s[1..];
    forall k | 0 <= k < |t| ensures t[k].createdAt <= s[0].createdAt {
      assert t[k] in multiset(t);
      assert t[k] in s[1..] || t[k] == x;
    }
  }

  lemma InsertMembers(x: ShortenedUrl, s: seq<ShortenedUrl>)
    requires NewestFirst(s)
    ensures forall y :: y in Insert(x, s) <==> y in s || y == x
  {
    var r := Insert(x, s);
    forall y ensures y in r <==> y in s || y == x {
      assert y in r <==> y in multiset(r);
      assert y in s <==> y in multiset(s);
    }
  }

  /** The fields that survive a reload: the record form the JSON file holds; None is a missing or unreadable field. */
  datatype RawRecord = RawRecord(
    originalUrl: Option<string>,
    shortCode: Option<string>,
    userId: Option<string>,
    createdAt: Option<int>,
    expiresAt: Option<int>,
    maxClicks: Option<int>,
    currentClicks: Option<int>,
    active: Option<bool>)

  /** One iteration of the loadData record loop: the link, or None when an exception skips the record. */
  function DecodeRecord(rec: RawRecord, now: int): (r: Option<LinkState>)
    ensures r.Some? ==> MakeUrl(rec.originalUrl) == Ok(r.value.originalUrl)
    ensures r.Some? ==> MakeShortCode(rec.shortCode) == Ok(r.value.shortCode) && rec.shortCode == Some(r.value.shortCode.value)
    ensures r.Some? ==> rec.userId.Some? && FromString(rec.userId.value) == Ok(r.value.userId)
    ensures r.None? <==> MakeUrl(rec.originalUrl).Err? || MakeShortCode(rec.shortCode).Err? ||
                         rec.userId.None? || FromString(rec.userId.value).Err? ||
                         rec.createdAt.None? || rec.expiresAt.None? || rec.maxClicks.None? ||
                         rec.currentClicks.None? || rec.active.None?
  {
    var url := MakeUrl(rec.originalUrl);
    var code := MakeShortCode(rec.shortCode);
    if url.Err? || code.Err? || rec.userId.None? then None
    else
      var id := FromString(rec.userId.value);
      if id.Err? || rec.createdAt.None? || rec.expiresAt.None? || rec.maxClicks.None? ||
         rec.currentClicks.None? || rec.active.None? then None
      else Some(Restore(url.value, code.value, id.value, rec.createdAt, rec.expiresAt.value,
                        rec.maxClicks.value, rec.currentClicks.value, rec.active.value, now))
  }

  /** The record saveToFile writes for a link. */
  function EncodeRecord(l: LinkState): RawRecord {
    RawRecord(Some(l.originalUrl.value), Some(l.shortCode.value), Some(ToString(l.userId)),
              Some(l.createdAt), Some(l.expiresAt), Some(l.maxClicks), Some(l.currentClicks), Some(l.active))
  }

  /** A link with a reloadable URL and a valid code survives the save/load round trip unchanged. */
  lemma DecodeEncode(l: LinkState, now: int)
    requires IsValidCode(l.shortCode.value)
    requires MakeUrl(Some(l.originalUrl.value)) == Ok(l.originalUrl)
    ensures DecodeRecord(EncodeRecord(l), now) == Some(l)
  {
    FromStringToString(l.userId);
  }

  /** A stored URL value longer than 2048 characters, which creation allows, is skipped on reload. */
  lemma DecodeDropsLongUrl(l: LinkState, now: int)
    requires |l.originalUrl.value| > MAX_RAW_LENGTH
    ensures DecodeRecord(EncodeRecord(l), now) == None
  {
  }

  /** What the record loop leaves in the code → link map. */
  function LoadedState(records: seq<RawRecord>, now: int): map<string, LinkState>
  {
    if records == [] then map[]
    else
      var prev := LoadedState(records[..|records| - 1], now);
      var d := DecodeRecord(records[|records| - 1], now);
      if d.None? then prev else prev[d.value.shortCode.value := d.value]
  }

  /** What the record loop leaves in the owner index. */
  function LoadedOwners(records: seq<RawRecord>, now: int): map<UserId, set<string>>
  {
    if records == [] then map[]
    else
      var prev := LoadedOwners(records[..|records| - 1], now);
      var d := DecodeRecord(records[|records| - 1], now);
      if d.None? then prev else AddToOwner(prev, d.value.userId, d.value.shortCode.value)
  }

  /** Every loaded key is a valid code and the code of the link loaded under it. */
  lemma {:induction false} LoadedKeysAreCodes(records: seq<RawRecord>, now: int)
    ensures forall c :: c in LoadedState(records, now) ==>
              IsValidCode(c) && LoadedState(records, now)[c].shortCode.value == c
  {
    if records != [] {
      LoadedKeysAreCodes(records[..|records| - 1], now);
    }
  }

  /** A record that decodes is found under its code unless a later record reuses the code. */
  lemma {:induction false} LoadedKeepsLastDecoded(records: seq<RawRecord>, k: nat, now: int)
    requires k < |records| && DecodeRecord(records[k], now).Some?
    ensures DecodeRecord(records[k], now).value.shortCode.value in LoadedState(records, now)
    decreases |records|
  {
    if k < |records| - 1 {
      var p := records[..|records| - 1];
      assert p[k] == records[k];
      LoadedKeepsLastDecoded(p, k, now);
    }
  }

  /** Every loaded key comes from some record that decodes to a link with that code. */
  lemma {:induction false} LoadedComesFromRecord(records: seq<RawRecord>, c: string, now: int)
    requires c in LoadedState(records, now)
    ensures exists k :: 0 <= k < |records| && DecodeRecord(records[k], now) == Some(LoadedState(records, now)[c])
    decreases |records|
  {
    var p := records[..|records| - 1];
    var d := DecodeRecord(records[|records| - 1], now);
    if d.Some? && d.value.shortCode.value == c {
      assert DecodeRecord(records[|records| - 1], now) == Some(LoadedState(records, now)[c]);
    } else {
      LoadedComesFromRecord(p, c, now);
      var k :| 0 <= k < |p| && DecodeRecord(p[k], now) == Some(LoadedState(p, now)[c]);
      assert records[k] == p[k];
    }
  }

  /** The links within the stored state that are accessible, and those that are expired. */
  function ActiveCodes(st: map<string, LinkState>, now: int): set<string> {
    set c | c in st && CanBeAccessed(st[c], now)
  }

  function ExpiredCodes(st: map<string, LinkState>, now: int): set<string> {
    set c | c in st && IsExpired(st[c], now)
  }

  /** No link counts as both active and expired, so the two counts never exceed the total. */
  lemma ActiveExpiredDisjoint(st: map<string, LinkState>, now: int)
    ensures ActiveCodes(st, now) * ExpiredCodes(st, now) == {}
    ensures |ActiveCodes(st, now)| + |ExpiredCodes(st, now)| <= |st|
  {
    var both := ActiveCodes(st, now) + ExpiredCodes(st, now);
    assert both <= st.Keys;
    SubsetCard(both, st.Keys);
  }

  class FileUrlRepository {
    var storage: map<string, ShortenedUrl>
    var userUrls: map<UserId, set<string>>

    /** The consistency the indices keep under save and delete. */
    predicate Valid()
      reads this
    {
      KeysAreCodes(storage) && OwnersListLinks(storage, userUrls) && NoEmptyOwnerSets(userUrls)
    }

    /** The values of all stored links. */
    function State(): map<string, LinkState>
      reads this, storage.Values
    {
      map c | c in storage :: storage[c].Value()
    }

    /** The value State() records for a stored code. */
    lemma StateAt(c: string)
      requires c in storage
      ensures c in State() && State()[c] == storage[c].Value()
    {
    }

    /** The constructor: empty indices, then the record loop of loadData. */
    constructor (records: seq<RawRecord>, now: int)
      ensures Valid()
      ensures State() == LoadedState(records, now) && userUrls == LoadedOwners(records, now)
    {
      storage := map[];
      userUrls := map[];
      new;
      LoadRecords(records, now);
    }

    /** The in-memory part shared by save and the record loop. */
    method Put(link: ShortenedUrl)
      modifies this
      requires Valid()
      ensures Valid()
      ensures storage == old(storage)[link.shortCode.value := link]
      ensures userUrls == AddToOwner(old(userUrls), link.userId, link.shortCode.value)
    {
      var code := link.shortCode.value;
      storage := storage[code := link];
      userUrls := AddToOwner(userUrls, link.userId, code);
    }

    /** One decoded record of loadData: a new link object, indexed by Put. */
    method Index(l: LinkState)
      modifies this
      requires Valid()
      ensures Valid()
      ensures State() == old(State())[l.shortCode.value := l]
      ensures userUrls == AddToOwner(old(userUrls), l.userId, l.shortCode.value)
    {
      var link := new ShortenedUrl(l);
      Put(link);
    }

    /** The record loop of loadData: skip what fails to decode, index the rest as save does. */
    method LoadRecords(records: seq<RawRecord>, now: int)
      modifies this
      requires storage == map[] && userUrls == map[]
      ensures Valid()
      ensures State() == LoadedState(records, now) && userUrls == LoadedOwners(records, now)
    {
      for i := 0 to |records|
        invariant Valid()
        invariant State() == LoadedState(records[..i], now) && userUrls == LoadedOwners(records[..i], now)
      {
        assert records[..i + 1][..i] == records[..i];
        var d := DecodeRecord(records[i], now);
        if d.Some? {
          Index(d.value);
        }
      }
      assert records[..|records|] == records;
    }

    /** FileUrlRepository.save, without the file write. */
    method Save(link: ShortenedUrl) returns (r: ShortenedUrl)
      modifies this
      requires Valid()
      ensures Valid() && r == link
      ensures storage == old(storage)[link.shortCode.value := link]
      ensures userUrls == AddToOwner(old(userUrls), link.userId, link.shortCode.value)
    {
      Put(link);
      r := link;
    }

    /** FileUrlRepository.findByShortCode. */
    function FindByShortCode(code: ShortCode): (r: Option<ShortenedUrl>)
      reads this
      ensures r.Some? <==> code.value in storage
      ensures r.Some? ==> r.value == storage[code.value]
      ensures Valid() && r.Some? ==> r.value.shortCode == code
    {
      if code.value in storage then Some(storage[code.value]) else None
    }

    /** FileUrlRepository.existsByShortCode. */
    predicate ExistsByShortCode(code: ShortCode)
      reads this
    {
      code.value in storage
    }

    /** FileUrlRepository.count. */
    function Count(): nat
      reads this
    {
      |storage|
    }

    /** FileUrlRepository.countActive. */
    function CountActive(now: int): (r: nat)
      reads this, storage.Values
      ensures r == |ActiveCodes(State(), now)| && r <= Count()
    {
      SubsetCard(ActiveCodes(State(), now), storage.Keys);
      |ActiveCodes(State(), now)|
    }

    /** FileUrlRepository.countExpired. */
    function CountExpired(now: int): (r: nat)
      reads this, storage.Values
      ensures r == |ExpiredCodes(State(), now)| && r <= Count()
    {
      SubsetCard(ExpiredCodes(State(), now), storage.Keys);
      |ExpiredCodes(State(), now)|
    }

    /** FileUrlRepository.delete: nothing when absent, else unindex the code everywhere it is listed for its owner. */
    method Delete(code: ShortCode)
      modifies this
      requires Valid()
      ensures Valid()
      ensures code.value !in old(storage) ==> storage == old(storage) && userUrls == old(userUrls)
      ensures code.value in old(storage) ==>
                storage == old(storage) - {code.value} &&
                userUrls == RemoveFromOwner(old(userUrls), old(storage)[code.value].userId, code.value)
    {
      if code.value !in storage {
        return;
      }
      var link := storage[code.value];
      storage := storage - {code.value};
      userUrls := RemoveFromOwner(userUrls, link.userId, code.value);
    }

    /** FileUrlRepository.findAll: every stored link once, in the map's (unspecified) order. */
    method FindAll() returns (r: seq<ShortenedUrl>)
      requires Valid()
      ensures |r| == |storage|
      ensures forall x :: x in r <==> x in storage.Values
      ensures forall x :: multiset(r)[x] <= 1
    {
      r := [];
      var todo := storage.Keys;
      while todo != {}
        invariant todo <= storage.Keys
        invariant |r| + |todo| == |storage|
        invariant forall x :: x in r ==> x in storage.Values && x.shortCode.value !in todo
        invariant forall c :: c in storage && c !in todo ==> storage[c] in r
        invariant forall x :: multiset(r)[x] <= 1
        decreases |todo|
      {
        var c :| c in todo;
        assert storage[c] !in r;
        r := r + [storage[c]];
        todo := todo - {c};
      }
    }

    /**
     * FileUrlRepository.findByUserId: the stored links the owner's set lists, newest first;
     * empty for an owner with no set.
     */
    method FindByUserId(owner: UserId) returns (r: seq<ShortenedUrl>)
      requires Valid()
      ensures NewestFirst(r)
      ensures forall x :: x in r <==> x in ListedLinks(storage, userUrls, owner)
      ensures forall x :: multiset(r)[x] <= 1
      ensures forall c :: c in storage && storage[c].userId == owner ==> storage[c] in r
      ensures owner !in userUrls ==> r == []
    {
      var codes := if owner in userUrls then userUrls[owner] else {};
      r := CollectNewestFirst(storage, codes);
      if r != [] {
        assert r[0] in Present(storage, codes);
      }
    }
  }

  /** The stream of findByUserId: the links stored under the given codes, sorted newest first. */
  method CollectNewestFirst(storage: map<string, ShortenedUrl>, codes: set<string>) returns (r: seq<ShortenedUrl>)
    requires KeysAreCodes(storage)
    ensures NewestFirst(r)
    ensures forall x :: x in r <==> x in Present(storage, codes)
    ensures forall x :: multiset(r)[x] <= 1
  {
    var todo := codes;
    ghost var done: set<string> := {};
    r := [];
    while todo != {}
      invariant todo <= codes && done == codes - todo
      invariant NewestFirst(r)
      invariant forall x :: x in r <==> x in Present(storage, done)
      invariant forall x :: multiset(r)[x] <= 1
      decreases |todo|
    {
      var c :| c in todo;
      CollectStep(storage, done, c, r);
      if c in storage {
        r := Insert(storage[c], r);
      }
      todo := todo - {c};
      done := done + {c};
    }
  }

  /** One more code visited: its link, if stored, joins the newest-first list once. */
  lemma CollectStep(storage: map<string, ShortenedUrl>, done: set<string>, c: string, r: seq<ShortenedUrl>)
    requires KeysAreCodes(storage) && c !in done && NewestFirst(r)
    requires forall x :: x in r <==> x in Present(storage, done)
    requires forall x :: multiset(r)[x] <= 1
    ensures var next := if c in storage then Insert(storage[c], r) else r;
            NewestFirst(next) &&
            (forall x :: x in next <==> x in Present(storage, done + {c})) &&
            (forall x :: multiset(next)[x] <= 1)
  {
    PresentStep(storage, done, c);
    if c in storage {
      PresentFresh(storage, done, c);
      InsertMembers(storage[c], r);
    }
  }

  /** The stored links under the given codes. */
  function Present(storage: map<string, ShortenedUrl>, codes: set<string>): set<ShortenedUrl> {
    set c | c in codes && c in storage :: storage[c]
  }

  lemma PresentStep(storage: map<string, ShortenedUrl>, done: set<string>, c: string)
    ensures Present(storage, done + {c}) == Present(storage, done) + (if c in storage then {storage[c]} else {})
  {
  }

  /** A link under a code not yet visited is not among the links already collected. */
  lemma PresentFresh(storage: map<string, ShortenedUrl>, done: set<string>, c: string)
    requires KeysAreCodes(storage) && c in storage && c !in done
    ensures storage[c] !in Present(storage, done)
  {
  }

  /**
   * Saving a code another owner already holds leaves it in that owner's set; deleting it then
   * leaves a listed code that is no longer a key.
   */
  lemma DeleteLeavesDangling(a: UserId, b: UserId, c: string)
    requires a != b
    ensures var afterSaves := AddToOwner(AddToOwner(map[], a, c), b, c);
            var afterDelete := RemoveFromOwner(afterSaves, b, c);
            a in afterDelete && c in afterDelete[a]
  {
  }

  /** After such an overwrite, the first owner's list shows the second owner's link. */
  lemma ListedLinksAfterOverwrite(a: UserId, b: UserId, link: ShortenedUrl)
    requires a != b && link.userId == b
    ensures var c := link.shortCode.value;
            var owners := AddToOwner(AddToOwner(map[], a, c), b, c);
            link in ListedLinks(map[c := link], owners, a)
  {
    var c := link.shortCode.value;
    var owners := AddToOwner(AddToOwner(map[], a, c), b, c);
    assert c in owners[a] && map[c := link][c] == link;
  }

  /** save keeps every listed code a key. */
  lemma SaveKeepsNoDangling(storage: map<string, ShortenedUrl>, owners: map<UserId, set<string>>, link: ShortenedUrl)
    requires NoDanglingCodes(storage, owners)
    ensures NoDanglingCodes(storage[link.shortCode.value := link], AddToOwner(owners, link.userId, link.shortCode.value))
  {
  }

  /** Re-saving a code already stored does not change the count. */
  lemma ResaveKeepsCount(storage: map<string, ShortenedUrl>, link: ShortenedUrl)
    requires link.shortCode.value in storage
    ensures |storage[link.shortCode.value := link]| == |storage|
  {
    UpdateCard(storage, link.shortCode.value, link);
  }
}
