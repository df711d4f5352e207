/** User.java: a user, identified by its id, with the (never filled) set of its codes. */
module Users {
  import opened UserIds

  datatype User = User(id: UserId, createdAt: int, shortCodes: set<string>)

  /** `new User(id)`: created now, with an empty set of codes. */
  function NewUser(id: UserId, now: int): (u: User)
    ensures u.id == id && u.createdAt == now
    ensures UrlCount(u) == 0
  {
    User(id, now, {})
  }

  /** User.getUrlCount: the size of the code set. */
  function UrlCount(u: User): nat {
    |u.shortCodes|
  }

  /** User.getShortId: the short id of the user's id. */
  function GetShortId(u: User): (s: string)
    ensures s == ShortId(u.id) && MatchesShortId(u.id, Wrappers.Some(s))
  {
    MatchesOwnForms(u.id);
    ShortId(u.id)
  }

  /** User.equals: two users are the same user iff their ids are equal. */
  predicate SameUser(a: User, b: User) {
    a.id == b.id
  }

  /** Users created at different instants with one id are equal, and users with different ids are not. */
  lemma SameUserIffSameId(id1: UserId, id2: UserId, t1: int, t2: int)
    ensures SameUser(NewUser(id1, t1), NewUser(id2, t2)) <==> id1 == id2
  {
  }
}
