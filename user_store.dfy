/**
 * The in-memory user store `UserServiceImpl` and the caching façade
 * `UserManager` of the Rust user directory (test/rust-test.rs).
 *
 * Each asynchronous, lock-guarded operation of the source is one atomic
 * sequential method here. Identifiers are unbounded (`nat`) rather than
 * `u32`.
 */
module UserStore {
  import opened Wrappers
  import opened UserEntity

  /**
   * `UserServiceImpl`: a map from identifier to user plus the counter that
   * hands out identifiers. `issued` records every identifier ever handed
   * out; it is what "identifiers are never reused" is stated against.
   */
  class UserServiceImpl {
    var users: map<nat, User>
    var nextId: nat
    ghost var issued: set<nat>

    /**
     * Every stored user is keyed by its own id, passed validation, and has
     * an id that was issued; every issued id is below the counter.
     */
    ghost predicate Valid()
      reads this
    {
      && 1 <= nextId
      && (forall i :: i in issued <==> 1 <= i < nextId)
      && (forall k :: k in users ==> k in issued && users[k].id == k && WellFormed(users[k]))
    }

    /** `UserServiceImpl::new`: empty, the first identifier is 1. */
    constructor ()
      ensures Valid()
      ensures users == map[] && nextId == 1 && issued == {}
    {
      users := map[];
      nextId := 1;
      issued := {};
    }

    /** `next_user_id`: read the counter, then increment it. */
    method NextUserId() returns (id: nat)
      requires Valid()
      modifies this
      ensures Valid()
      ensures id == old(nextId) && id !in old(issued) && id !in users
      ensures nextId == old(nextId) + 1 && issued == old(issued) + {id}
      ensures users == old(users)
    {
      id := nextId;
      nextId := nextId + 1;
      issued := issued + {id};
    }

    /** `get_user`: never fails; absence is `None`. */
    method GetUser(id: nat) returns (r: Result<Option<User>, UserError>)
      requires Valid()
      ensures r.Ok?
      ensures r.value.Some? <==> id in users
      ensures r.value.Some? ==> r.value.value == users[id]
      ensures r.value.Some? ==> r.value.value.id == id && WellFormed(r.value.value)
    {
      r := Ok(if id in users then Some(users[id]) else None);
    }

    /**
     * `create_user`: validation first, with nothing changed when it fails;
     * otherwise the input is stored under a fresh identifier and returned
     * with only its id changed.
     */
    method CreateUser(user: User) returns (r: Result<User, UserError>)
      requires Valid()
      modifies this
      ensures Valid()
      ensures Validate(user).Err? ==> r == Err(Validate(user).error)
      ensures Validate(user).Err? ==>
                users == old(users) && nextId == old(nextId) && issued == old(issued)
      ensures Validate(user).Ok? ==> r == Ok(user.(id := old(nextId)))
      ensures Validate(user).Ok? ==>
                && nextId == old(nextId) + 1
                && issued == old(issued) + {old(nextId)}
                && old(nextId) !in old(users)
                && users == old(users)[old(nextId) := r.value]
      ensures r.Ok? ==> r.value.id !in old(issued) && r.value.id > 0
    {
      var check := Validate(user);
      if check.Err? {
        return Err(check.error);
      }
      var id := NextUserId();
      var stored := user.(id := id);
      users := users[id := stored];
      r := Ok(stored);
    }

    /**
     * `update_user`: validation first; `NotFound` when no user has that id;
     * otherwise only that entry is replaced.
     */
    method UpdateUser(user: User) returns (r: Result<User, UserError>)
      requires Valid()
      modifies this
      ensures Valid()
      ensures nextId == old(nextId) && issued == old(issued)
      ensures Validate(user).Err? ==> r == Err(Validate(user).error) && users == old(users)
      ensures Validate(user).Ok? && user.id !in old(users) ==> r == Err(NotFound) && users == old(users)
      ensures Validate(user).Ok? && user.id in old(users) ==>
                r == Ok(user) && users == old(users)[user.id := user]
    {
      var check := Validate(user);
      if check.Err? {
        return Err(check.error);
      }
      if user.id in users {
        users := users[user.id := user];
        r := Ok(user);
      } else {
        r := Err(NotFound);
      }
    }

    /**
     * `delete_user`: `NotFound` when absent; otherwise only that key goes.
     * The counter is left alone, so the id is never handed out again.
     */
    method DeleteUser(id: nat) returns (r: Result<(), UserError>)
      requires Valid()
      modifies this
      ensures Valid()
      ensures nextId == old(nextId) && issued == old(issued)
      ensures id !in old(users) ==> r == Err(NotFound) && users == old(users)
      ensures id in old(users) ==> r == Ok(()) && users == old(users) - {id}
      ensures id !in users
    {
      if id in users {
        users := users - {id};
        r := Ok(());
      } else {
        r := Err(NotFound);
      }
    }

    /**
     * `list_users`: every stored user exactly once, in an order the model
     * leaves open (the source iterates a `HashMap`).
     */
    method ListUsers() returns (r: Result<seq<User>, UserError>)
      requires Valid()
      ensures r.Ok?
      ensures |r.value| == |users|
      ensures forall i :: 0 <= i < |r.value| ==> r.value[i].id in users && users[r.value[i].id] == r.value[i]
      ensures forall k :: k in users ==> users[k] in r.value
      ensures forall i, j :: 0 <= i < j < |r.value| ==> r.value[i] != r.value[j]
    {
      var rest := users.Keys;
      var out: seq<User> := [];
      while rest != {}
        invariant rest <= users.Keys
        invariant |out| + |rest| == |users|
        invariant forall i :: 0 <= i < |out| ==>
                    out[i].id in users && out[i].id !in rest && users[out[i].id] == out[i]
        invariant forall k :: k in users && k !in rest ==> users[k] in out
        invariant forall i, j :: 0 <= i < j < |out| ==> out[i] != out[j]
        decreases rest
      {
        var k :| k in rest;
        out := out + [users[k]];
        rest := rest - {k};
      }
      r := Ok(out);
    }
  }

  /**
   * `UserManager`: a read-through cache over a store. The cache is only an
   * optimisation; `Coherent` says it agrees with the store.
   */
  class UserManager {
    const service: UserServiceImpl
    var cache: map<nat, User>

    ghost predicate Valid()
      reads this, service
    {
      && service.Valid()
      && (forall k :: k in cache ==> cache[k].id == k)
    }

    /** Every cached entry is what the store holds for that id. */
    ghost predicate Coherent()
      reads this, service
    {
      forall k :: k in cache ==> k in service.users && service.users[k] == cache[k]
    }

    /** `UserManager::new`: wraps the service with an empty cache. */
    constructor (service: UserServiceImpl)
      requires service.Valid()
      ensures Valid() && Coherent()
      ensures this.service == service && cache == map[]
    {
      this.service := service;
      cache := map[];
    }

    /**
     * `get_user_cached`: a hit answers from the cache whatever the store
     * holds; a miss asks the store and caches only a found user.
     */
    method GetUserCached(id: nat) returns (r: Result<Option<User>, UserError>)
      requires Valid()
      modifies this
      ensures Valid()
      ensures id in old(cache) ==> r == Ok(Some(old(cache)[id])) && cache == old(cache)
      ensures id !in old(cache) && id in service.users ==>
                r == Ok(Some(service.users[id])) && cache == old(cache)[id := service.users[id]]
      ensures id !in old(cache) && id !in service.users ==> r == Ok(None) && cache == old(cache)
      ensures old(Coherent()) ==> Coherent()
      ensures old(Coherent()) ==>
                r == Ok(if id in service.users then Some(service.users[id]) else None)
    {
      if id in cache {
        return Ok(Some(cache[id]));
      }
      var fetched := service.GetUser(id);
      match fetched.value
      case Some(user) =>
        cache := cache[id := user];
        r := Ok(Some(user));
      case None =>
        r := Ok(None);
    }

    /** `invalidate_cache`: drops that id only; a no-op when it is absent. */
    method InvalidateCache(id: nat)
      requires Valid()
      modifies this
      ensures Valid()
      ensures cache == old(cache) - {id}
      ensures old(Coherent()) ==> Coherent()
    {
      cache := cache - {id};
    }

    /** `clear_cache`: empties the cache, which is then trivially coherent. */
    method ClearCache()
      requires Valid()
      modifies this
      ensures Valid() && Coherent()
      ensures cache == map[]
    {
      cache := map[];
    }
  }

  /**
   * Writing through the store behind the manager's back: the cached copy is
   * served until `invalidate_cache` runs, and the updated user afterwards.
   */
  method UpdateBehindCache(m: UserManager, u: User)
      returns (before: Result<Option<User>, UserError>, stale: Result<Option<User>, UserError>,
               after: Result<Option<User>, UserError>)
    requires m.Valid() && m.Coherent()
    requires u.id in m.service.users && WellFormed(u)
    modifies m, m.service
    ensures m.Valid() && m.Coherent()
    ensures before == Ok(Some(old(m.service.users[u.id])))
    ensures stale == before
    ensures after == Ok(Some(u))
    ensures m.service.users == old(m.service.users)[u.id := u]
  {
    before := m.GetUserCached(u.id);
    var updated := m.service.UpdateUser(u);
    stale := m.GetUserCached(u.id);
    m.InvalidateCache(u.id);
    after := m.GetUserCached(u.id);
  }

  /**
   * Two creations on a new store: the first user gets id 1, the second id 2,
   * and both keep their name and email.
   */
  method CreationExample() returns (first: Result<User, UserError>, second: Result<User, UserError>)
    ensures first == Ok(NewUser("John Doe", "john@example.com").(id := 1))
    ensures second == Ok(NewUser("Jane Doe", "jane@example.com").(id := 2))
  {
    var store := new UserServiceImpl();
    var john, jane := NewUser("John Doe", "john@example.com"), NewUser("Jane Doe", "jane@example.com");
    assert Validate(john).Ok? by { WellFormedExample(john); }
    assert Validate(jane).Ok? by { WellFormedExample(jane); }
    first := store.CreateUser(john);
    second := store.CreateUser(jane);
  }

  /** Both example users of `CreationExample` pass validation. */
  lemma WellFormedExample(u: User)
    requires u.name == "John Doe" || u.name == "Jane Doe"
    requires u.email == "john@example.com" || u.email == "jane@example.com"
    ensures WellFormed(u)
  {
  }

  /** A miss on an empty store answers `None` and caches nothing. */
  method EmptyLookupExample() returns (r: Result<Option<User>, UserError>, cached: bool)
    ensures r == Ok(None) && !cached
  {
    var store := new UserServiceImpl();
    var manager := new UserManager(store);
    r := manager.GetUserCached(5);
    cached := 5 in manager.cache;
  }

  /** A deleted id is gone, and the next creation does not reuse it. */
  method DeleteExample(u: User) returns (created: Result<User, UserError>, deleted: Result<(), UserError>,
                                          lookup: Result<Option<User>, UserError>, recreated: Result<User, UserError>)
    requires WellFormed(u)
    ensures created.Ok? && deleted == Ok(()) && lookup == Ok(None)
    ensures recreated.Ok? && recreated.value.id != created.value.id
  {
    var store := new UserServiceImpl();
    created := store.CreateUser(u);
    deleted := store.DeleteUser(created.value.id);
    lookup := store.GetUser(created.value.id);
    recreated := store.CreateUser(u);
  }
}
