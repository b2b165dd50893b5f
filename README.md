# User directory: verified model

This project models, in Dafny, the two small user directories of the
repository:

- **Rust** (`test/rust-test.rs`):
  - the `User` entity with its ordered validation and password round trip;
  - the in-memory store `UserServiceImpl`, a map from id to user plus a
    `next_id` counter that starts at 1;
  - the read-through cache `UserManager` over that store, with
    `invalidate_cache` and `clear_cache`;
  - the `Status` helpers, `Config::validate` and `utils::is_valid_email`.
- **Python** (`test/python-test.py`): the `User` dataclass, whose
  `__post_init__` raises `ValueError`, and the dict-backed `UserService`.
  Its `create_user` allocates ids from `_next_id`; its `update_user` patches
  the stored object field by field.

Files:

- `wrappers.dfy`: `Option` and `Result`.
- `user_entity.dfy`, module `UserEntity`: the Rust entity, the error types,
  `Status` and `Config`.
- `user_store.dfy`, module `UserStore`: the classes `UserServiceImpl` and
  `UserManager`, plus example clients.
- `py_users.dfy`, module `PyUsers`: the Python classes `User` and
  `UserService`.

How the source maps to Dafny:

- **Store and cache.** Each is a class whose `map` field the methods
  reassign. Every lock-guarded async operation is one atomic method.
- **Rust store invariant.** `UserServiceImpl.Valid` states it:
  - every key is its user's `id`;
  - every stored user passes validation;
  - every key belongs to the ghost set `issued` of ids ever handed out;
  - `issued` is exactly `1 .. next_id - 1`.

  So a deleted id is never handed out again.
- **Cache correctness.** `UserManager.Coherent` says every cached entry
  equals the store's entry.
- **Python objects.** Python objects are references, so the Python `User`
  is a class. The object `create_user` returns is the one stored, and
  `update_user` mutates it in place.
- **The model follows what the code does, not the wording of its names and messages:**
  - The username limit counts UTF-8 bytes (`str::len`), not characters.
    `Utf8Len` computes it, so 100 characters are "too long" as soon as one
    of them is not ASCII (`HundredCharsMayBeTooLong`). The JWT-secret check
    also counts bytes.
  - `UserManager` has no update or delete path. Cache coherence after a
    write is shown for a write made on the store directly, followed by
    `invalidate_cache` (`UpdateBehindCache`).
  - `__post_init__` accepts id 0, although its message says the id "must be
    positive".
  - Python's `update_user` does not run `__post_init__` again. It can store
    a blank name. Patching `id` breaks the key/id correspondence, so
    `KeysMatchIds` is kept only when no `id` keyword is given.
- **Dict order.** The Python service never removes a key and inserts keys in
  increasing id order, so its dict's insertion order is ascending id order.
  `list_users` is modelled that way.

## Model

| member | source | states |
|---|---|---|
| `UserEntity.Utf8Width` | test/rust-test.rs:109 | a character takes 1 to 4 UTF-8 bytes, and 1 exactly when it is ASCII |
| `UserEntity.Utf8Len` | test/rust-test.rs:109 | `str::len` lies between the number of characters and four times that, and is 0 only for the empty string |
| `UserEntity.AsciiLen` | test/rust-test.rs:109 | on ASCII text the byte length equals the character count |
| `UserEntity.NonAsciiLen` | test/rust-test.rs:109 | a single non-ASCII character makes the byte length exceed the character count |
| `UserEntity.NewUser` | test/rust-test.rs:86-93 | `User::new` gives id 0 and the given name and email; no password verifies against it |
| `UserEntity.Validate` | test/rust-test.rs:96-114 | `Ok` exactly when the name is non-empty, the email contains '@' and the name is at most 100 bytes; each `InvalidInput` reason is tied to the first failing check, in source order |
| `UserEntity.ValidateIgnoresIdAndPassword` | test/rust-test.rs:96-114 | validation does not depend on the id or the password hash |
| `UserEntity.AsciiNameFits` | test/rust-test.rs:109-111 | a non-empty ASCII name of at most 100 characters with an '@' email passes |
| `UserEntity.HundredCharsMayBeTooLong` | test/rust-test.rs:109-111 | a 100-character name with one non-ASCII character is rejected as "Username too long" |
| `UserEntity.ValidationExample` | test/rust-test.rs:421-427 | the unit test: an empty name fails with "Name is required"; name "John" passes |
| `UserEntity.HashPassword` | test/rust-test.rs:392-395 | the placeholder hash is 7 characters longer than the password, so never empty, and gives the password back after its prefix |
| `UserEntity.HashInjective` | test/rust-test.rs:392-395 | two passwords have the same placeholder hash only when they are equal |
| `UserEntity.SetPassword` | test/rust-test.rs:117-119 | the password just set verifies, and id, name and email are unchanged |
| `UserEntity.VerifyPassword` | test/rust-test.rs:122-124 | a password verifies only when it is what the stored hash encodes, so at most one password verifies |
| `UserEntity.SetThenVerify` | test/rust-test.rs:117-124 | after `set_password(p)`, `verify_password(q)` holds exactly when `q == p` |
| `UserEntity.IsCompleted` | test/rust-test.rs:244-246 | `is_completed` holds exactly for the statuses `as_str` names "completed" and "failed" |
| `UserEntity.IsActive` | test/rust-test.rs:244-251 | `is_active` is the complement of `is_completed` over all four statuses |
| `UserEntity.AsStr` | test/rust-test.rs:254-261 | `as_str` gives a non-empty lower-case snake-case name |
| `UserEntity.AsStrInjective` | test/rust-test.rs:254-261 | distinct statuses have distinct names |
| `UserEntity.StatusExample` | test/rust-test.rs:430-434 | the unit test: `Completed` is completed, `Pending` is active, `InProgress` reads "in_progress" |
| `UserEntity.ValidateConfig` | test/rust-test.rs:225-239 | `Ok` exactly when the port is non-zero, the URL non-empty and the secret at least 32 bytes; each error message is tied to its check, in order |
| `UserEntity.SecretOf32CharsSuffices` | test/rust-test.rs:234-236 | a secret of 32 or more characters always meets the byte bound |
| `UserEntity.IsValidEmail` | test/rust-test.rs:377-379 | an accepted email has at least two characters |
| `UserEntity.ValidEmailPassesValidate` | test/rust-test.rs:377-379 | an email that `is_valid_email` accepts passes the email checks of `validate` |
| `UserStore.UserServiceImpl.constructor` | test/rust-test.rs:140-145 | empty map, counter 1, invariant established |
| `UserStore.UserServiceImpl.NextUserId` | test/rust-test.rs:148-153 | returns the old counter, which was never issued, and increments the counter by one; the map is unchanged |
| `UserStore.UserServiceImpl.GetUser` | test/rust-test.rs:158-161 | always `Ok`; `Some` exactly for a stored id, carrying that user, whose id is the key and which is valid |
| `UserStore.UserServiceImpl.CreateUser` | test/rust-test.rs:163-173 | a validation error is returned with nothing changed; otherwise the input with only its id set to the old counter is inserted under that one new key and returned, the counter advances by one, and the id was never issued before |
| `UserStore.UserServiceImpl.UpdateUser` | test/rust-test.rs:175-185 | a validation error, or `NotFound` for an absent id, leaves the map unchanged; otherwise only that entry is replaced; the counter never changes |
| `UserStore.UserServiceImpl.DeleteUser` | test/rust-test.rs:187-191 | `NotFound` with the map unchanged for an absent id; otherwise only that key is removed; the counter and the issued ids are unchanged |
| `UserStore.UserServiceImpl.ListUsers` | test/rust-test.rs:193-196 | every stored user exactly once, in some order (as many entries as keys, no duplicates, each one stored) |
| `UserStore.UserManager.constructor` | test/rust-test.rs:278-283 | wraps the service with an empty, coherent cache |
| `UserStore.UserManager.GetUserCached` | test/rust-test.rs:286-303 | a hit returns the cached value and leaves the cache unchanged; a miss returns the store's answer and caches it only when it is `Some`; coherence is preserved, and under coherence the answer is the store's |
| `UserStore.UserManager.InvalidateCache` | test/rust-test.rs:306-309 | removes only that id (a no-op if absent) and leaves the store alone |
| `UserStore.UserManager.ClearCache` | test/rust-test.rs:312-315 | empties the cache, which is then coherent |
| `UserStore.UpdateBehindCache` | test/rust-test.rs:286-309 | get, then a store update, then get returns the stale cached value; after `invalidate_cache` the next get returns the updated user |
| `UserStore.CreationExample` | test/rust-test.rs:410-418 | on a new store the first user created gets id 1 and the second id 2, with name and email unchanged |
| `UserStore.EmptyLookupExample` | test/rust-test.rs:286-303 | `get_user_cached(5)` on an empty store answers `None` and caches nothing |
| `UserStore.DeleteExample` | test/rust-test.rs:187-191 | after delete, `get_user` returns `None`, and the next creation gets a different id |
| `PyUsers.LStrip` | test/python-test.py:22 | the result is a suffix of the input, the removed prefix is all whitespace, and the result does not start with whitespace |
| `PyUsers.RStrip` | test/python-test.py:22 | the result is a prefix of the input, the removed suffix is all whitespace, and the result does not end with whitespace |
| `PyUsers.StripStart` | test/python-test.py:22 | the stripped text starts after a run of whitespace |
| `PyUsers.Strip` | test/python-test.py:22 | `str.strip()` is a slice of the input with only whitespace on either side, neither starting nor ending with whitespace |
| `PyUsers.StripEmpty` | test/python-test.py:22 | `not name.strip()` holds exactly when every character is whitespace |
| `PyUsers.PostInit` | test/python-test.py:18-23 | raises exactly when `id < 0` or the name is blank, the id check coming first |
| `PyUsers.User.constructor` | test/python-test.py:11-16 | an object exists only after `__post_init__` passed, and holds the given fields |
| `PyUsers.User.Create` | test/python-test.py:18-23 | `User(...)` raises the `__post_init__` message, or yields a fresh object with the given fields |
| `PyUsers.User.SetAttr` | test/python-test.py:89-90 | one keyword: sets the attribute it names and ignores one that names none |
| `PyUsers.HasAttr` | test/python-test.py:89 | a keyword `hasattr` rejects changes nothing |
| `PyUsers.ApplyKwarg` | test/python-test.py:89-90 | one keyword changes at most the attribute it names |
| `PyUsers.ApplyKwargs` | test/python-test.py:88-90 | keywords applied in order; an attribute no keyword names keeps its value |
| `PyUsers.UnknownIgnored` | test/python-test.py:88-90 | keywords that are not attributes have no effect |
| `PyUsers.DistinctKwargs` | test/python-test.py:76-90 | for a `**kwargs` dict (no keyword twice), every attribute a keyword names ends with that keyword's value |
| `PyUsers.KwargOrderIrrelevant` | test/python-test.py:76-90 | for a `**kwargs` dict, the order of the keywords does not change the result |
| `PyUsers.UserService.constructor` | test/python-test.py:29-37 | empty dict, `_next_id` 1, the URL kept |
| `PyUsers.UserService.UserCount` | test/python-test.py:93-96 | `user_count` is `_next_id - 1` |
| `PyUsers.UserService.GetUser` | test/python-test.py:57-66 | the stored object for a present id, `None` otherwise; the ids present are exactly `1 .. _next_id - 1` |
| `PyUsers.UserService.CreateUser` | test/python-test.py:39-55 | a blank name raises "User name cannot be empty" with nothing changed; otherwise a fresh user with id `_next_id` is stored under it, `_next_id` and `user_count` grow by one, and the key/id correspondence is kept |
| `PyUsers.UserService.ListUsers` | test/python-test.py:68-74 | the stored objects in dict (ascending id) order; as many as `user_count`, every stored user included |
| `PyUsers.UserService.UpdateUser` | test/python-test.py:76-91 | `None` with nothing changed for an absent id; otherwise the stored object takes the attribute keywords in order, every other user is unchanged, and the key/id correspondence survives when `id` is not patched |
| `PyUsers.UserService.ValidateEmail` | test/python-test.py:98-108 | true exactly when the email has an '@' and the text after its last '@' contains a '.' |
| `PyUsers.Split` | test/python-test.py:108 | `str.split` yields at least one piece |
| `PyUsers.SplitLast` | test/python-test.py:108 | the last piece of a split is the text after the last separator |
| `PyUsers.EmailSpec` | test/python-test.py:108 | the split-based test equals the last-'@' characterisation |
| `PyUsers.CreateAdminUser` | test/python-test.py:120-129 | stores "Administrator" / "admin@example.com" under the next id |
| `PyUsers.ServiceExample` | test/python-test.py:132-143 | three creations on a new service give ids 1, 2, 3; `user_count` is 3 and `list_users` returns them in that order |

## Left out

- Concurrency: the tokio `RwLock`s, `async`/`.await` and `#[async_trait]` are not modelled. Each operation is one atomic step, so the concurrent cache-miss race (two misses for one id both filling the cache) is not modelled either.
- The `UserService` trait: the source has one implementation, `UserServiceImpl`, and `UserManager` is generic over the trait. The model's `UserManager` wraps `UserServiceImpl` directly, because Dafny traits are not used here.
- The `?` after `service.get_user` in `get_user_cached`: the in-memory store never returns an error, so that branch cannot be taken.
- Integer widths: ids and `next_id` are unbounded. The `u32` overflow of `*next_id += 1` at `u32::MAX` is not modelled.
- `utils::generate_id` and its unsynchronised global counter: a data race by design.
- `Config::from_env`, `default_max_connections`, `DEFAULT_PORT`, `VERSION`, `main`, `env_logger`, `println!` and the `log_user_action!` macro: I/O and start-up.
- `auth::generate_token` and `auth::validate_token`: they return fixed placeholder values.
- `auth::authenticate_user`: its result depends on the unordered `HashMap` iteration behind `list_users`.
- Serde derives, both `Display` impls, `utils::format_user` and `User::display_name`: formatting only.
- `DatabaseError` and `UserError::Authentication`: the types are modelled, but the in-memory store never produces either.
- `hash_password` keeps its placeholder body. Two password facts depend on it. First, `NewUser`'s promise that no password verifies needs the hash never to be empty, which holds because of its "hashed_" prefix. Second, the "only if" half of `SetThenVerify` needs the hash to be injective. For a real hash only `VerifyPassword(SetPassword(u, p), p)` would remain.
- test/go-test.go is not part of this model: HTTP handlers, a goroutine worker, and a service that only delegates to an unseen database.
- Python `main`, `create_test_service`, `get_version`, `DEFAULT_DATABASE_URL`, `MAX_USERS` and `__all__`: start-up and printing.
- Python runtime typing in `update_user`:
  - each keyword value has the type of the field it names;
  - `setattr` on attributes other than `id`, `name` and `email` (methods, dunder attributes) is not modelled;
  - setting a field to a value of another type is not modelled.
- Python `email` is never validated by the source, and the model does not validate it either.
