/** UserServiceImpl.java: creating users and switching the current user. */
module UserService {
  import opened Text
  import opened Errors
  import opened Wrappers
  import opened UserIds
  import opened Users
  import opened UserRepository

  class UserServiceImpl {
    const userRepository: InMemoryUserRepository
    var currentUser: Option<User>

    predicate Valid()
      reads this, userRepository
    {
      userRepository.Valid()
    }

    /** The constructor: no current user yet. */
    constructor (repo: InMemoryUserRepository)
      ensures userRepository == repo && currentUser == None
    {
      userRepository := repo;
      currentUser := None;
    }

    /** UserServiceImpl.getCurrentUser. */
    function GetCurrentUser(): Option<User>
      reads this
    {
      currentUser
    }

    /** UserServiceImpl.createUser, with the random UUID and the clock as inputs. */
    method CreateUser(newId: UserId, now: int) returns (u: User)
      modifies this, userRepository
      requires Valid()
      ensures Valid() && u == NewUser(newId, now) && currentUser == Some(u)
      ensures userRepository.storage == old(userRepository.storage)[newId := u]
      ensures userRepository.shortIdToFullId == old(userRepository.shortIdToFullId)[ShortId(newId) := newId]
    {
      u := NewUser(newId, now);
      var saved := userRepository.Save(u);
      currentUser := Some(u);
    }

    /** UserServiceImpl.findUser. */
    function FindUser(id: UserId): (r: Option<User>)
      reads this, userRepository
      ensures r.Some? <==> id in userRepository.storage
      ensures r.Some? ==> r.value == userRepository.storage[id]
      ensures Valid() && r.Some? ==> r.value.id == id
    {
      userRepository.FindById(id)
    }

    /** UserServiceImpl.findUserByShortId. */
    method FindUserByShortId(s: Option<string>) returns (r: Option<User>)
      requires Valid()
      ensures s.None? || |s.value| < SHORT_ID_LENGTH ==> r.None?
      ensures s.Some? && ToLower(s.value) in userRepository.shortIdToFullId ==>
                r == Some(userRepository.storage[userRepository.shortIdToFullId[ToLower(s.value)]])
      ensures r.Some? ==> r.value.id in userRepository.storage && MatchesShortId(r.value.id, s)
      ensures r.None? <==> forall id :: id in userRepository.storage ==> !MatchesShortId(id, s)
    {
      r := userRepository.FindByShortId(s);
    }

    /** UserServiceImpl.switchUser(UserId): the stored user with that id, saving a new one when absent. */
    method SwitchUserById(id: UserId, now: int)
      modifies this, userRepository
      requires Valid()
      ensures Valid()
      ensures id in userRepository.storage && currentUser == Some(userRepository.storage[id])
      ensures id in old(userRepository.storage) ==>
                userRepository.storage == old(userRepository.storage) &&
                userRepository.shortIdToFullId == old(userRepository.shortIdToFullId)
      ensures id !in old(userRepository.storage) ==>
                userRepository.storage == old(userRepository.storage)[id := NewUser(id, now)] &&
                userRepository.shortIdToFullId == old(userRepository.shortIdToFullId)[ShortId(id) := id]
    {
      var found := userRepository.FindById(id);
      if found.Some? {
        currentUser := found;
      } else {
        var saved := userRepository.Save(NewUser(id, now));
        currentUser := Some(saved);
      }
    }

    /**
     * UserServiceImpl.switchUser(String): blank is refused; a full UUID switches as above;
     * otherwise the short-id lookup, refusing when nobody matches. A refusal changes nothing.
     */
    method SwitchUser(s: Option<string>, now: int) returns (r: Outcome)
      modifies this, userRepository
      requires Valid()
      ensures Valid()
      ensures s.None? || IsBlank(s.value) ==>
                r == Fail(IllegalArgument(BlankUserId)) && currentUser == old(currentUser)
      ensures r.Fail? ==> currentUser == old(currentUser) && userRepository.storage == old(userRepository.storage) &&
                          userRepository.shortIdToFullId == old(userRepository.shortIdToFullId)
      ensures r.Fail? ==> r.error == IllegalArgument(if s.None? || IsBlank(s.value) then BlankUserId else UserNotFound)
      ensures r.Pass? && FromString(s.value).Ok? ==>
                var id := FromString(s.value).value;
                id in userRepository.storage && currentUser == Some(userRepository.storage[id]) &&
                (id in old(userRepository.storage) ==>
                   userRepository.storage == old(userRepository.storage) &&
                   userRepository.shortIdToFullId == old(userRepository.shortIdToFullId)) &&
                (id !in old(userRepository.storage) ==>
                   userRepository.storage == old(userRepository.storage)[id := NewUser(id, now)] &&
                   userRepository.shortIdToFullId == old(userRepository.shortIdToFullId)[ShortId(id) := id])
      ensures r.Pass? && FromString(s.value).Err? ==>
                userRepository.storage == old(userRepository.storage) &&
                userRepository.shortIdToFullId == old(userRepository.shortIdToFullId) &&
                currentUser.Some? && MatchesShortId(currentUser.value.id, s) &&
                currentUser.value.id in userRepository.storage
      ensures r.Fail? && s.Some? && !IsBlank(s.value) ==>
                FromString(s.value).Err? && forall id :: id in userRepository.storage ==> !MatchesShortId(id, s)
    {
      if s.None? || IsBlank(s.value) {
        return Fail(IllegalArgument(BlankUserId));
      }
      var parsed := FromString(s.value);
      if parsed.Ok? {
        SwitchUserById(parsed.value, now);
        return Pass;
      }
      var found := userRepository.FindByShortId(s);
      if found.None? {
        return Fail(IllegalArgument(UserNotFound));
      }
      currentUser := found;
      r := Pass;
    }
  }
}
