/** InMemoryUserRepository.java: users by id, and an index from short id to full id. */
module UserRepository {
  import opened Text
  import opened Wrappers
  import opened UserIds
  import opened Users
  import opened Collections

  class InMemoryUserRepository {
    var storage: map<UserId, User>
    var shortIdToFullId: map<string, UserId>

    /** Users are stored under their own ids, and the index points at stored users with that short id. */
    predicate Valid()
      reads this
    {
      (forall id :: id in storage ==> storage[id].id == id && ShortId(id) in shortIdToFullId) &&
      (forall k :: k in shortIdToFullId ==> shortIdToFullId[k] in storage && ShortId(shortIdToFullId[k]) == k)
    }

    constructor ()
      ensures Valid() && storage == map[] && shortIdToFullId == map[]
    {
      storage := map[];
      shortIdToFullId := map[];
    }

    /** InMemoryUserRepository.save: store by id and index by short id; answers the user. */
    method Save(user: User) returns (r: User)
      modifies this
      requires Valid()
      ensures Valid() && r == user
      ensures storage == old(storage)[user.id := user]
      ensures shortIdToFullId == old(shortIdToFullId)[GetShortId(user) := user.id]
    {
      storage := storage[user.id := user];
      shortIdToFullId := shortIdToFullId[GetShortId(user) := user.id];
      r := user;
    }

    /** InMemoryUserRepository.findById. */
    function FindById(id: UserId): (r: Option<User>)
      reads this
      ensures r.Some? <==> id in storage
      ensures r.Some? ==> r.value == storage[id]
      ensures Valid() && r.Some? ==> r.value.id == id
    {
      if id in storage then Some(storage[id]) else None
    }

    /** InMemoryUserRepository.count. */
    function Count(): nat
      reads this
    {
      |storage|
    }

    /**
     * InMemoryUserRepository.findByShortId: nothing for null or fewer than eight characters;
     * the lower-cased input looked up in the index; on a miss, some stored user that matches.
     */
    method FindByShortId(s: Option<string>) returns (r: Option<User>)
      requires Valid()
      ensures s.None? || |s.value| < SHORT_ID_LENGTH ==> r.None?
      ensures s.Some? && ToLower(s.value) in shortIdToFullId ==> r == Some(storage[shortIdToFullId[ToLower(s.value)]])
      ensures r.Some? ==> r.value.id in storage && storage[r.value.id] == r.value && MatchesShortId(r.value.id, s)
      ensures r.None? <==> forall id :: id in storage ==> !MatchesShortId(id, s)
    {
      if s.None? || |s.value| < SHORT_ID_LENGTH {
        return None;
      }
      var key := ToLower(s.value);
      if key in shortIdToFullId {
        var id := shortIdToFullId[key];
        assert MatchesShortId(id, s) by {
          assert ShortId(id) == key;
        }
        return Some(storage[id]);
      }
      if exists id :: id in storage && MatchesShortId(id, s) {
        var id :| id in storage && MatchesShortId(id, s);
        return Some(storage[id]);
      }
      return None;
    }
  }

  /** Saving an id already stored leaves the count unchanged; a new id adds one. */
  lemma SaveCount(storage: map<UserId, User>, user: User)
    ensures |storage[user.id := user]| == if user.id in storage then |storage| else |storage| + 1
  {
    UpdateCard(storage, user.id, user);
  }

  /** A short id is already lower case and eight long: save indexes it under the very key findByShortId looks up. */
  lemma ShortIdKeyIsIndexKey(u: User)
    ensures ToLower(GetShortId(u)) == GetShortId(u) && |GetShortId(u)| == SHORT_ID_LENGTH
  {
    ToStringIsLowerCase(u.id);
  }

  /**
   * After save(u), the key findByShortId builds from u's short id is in the index and leads
   * back to u, whatever was stored before.
   */
  lemma {:induction false} SavedUserFoundByShortId(storage: map<UserId, User>, index: map<string, UserId>, u: User)
    ensures var st := storage[u.id := u];
            var idx := index[GetShortId(u) := u.id];
            var key := ToLower(GetShortId(u));
            key in idx && idx[key] in st && st[idx[key]] == u
  {
    ShortIdKeyIsIndexKey(u);
  }
}
