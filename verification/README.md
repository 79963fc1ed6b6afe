# Dioxus server-function registry

A model of `DioxusServerFnRegistry` from the Dioxus fullstack package. This is
the process-wide table that maps a server function's route URL to a
`ServerFunction` record. The record holds the callable trait object and the
encoding of the function's arguments and results. The table lives in a
lazily created `HashMap` behind an `RwLock`.

- `Registry<H, E>` is the table, with the map in `fns` and the lock's state
  in `poisoned`. `H` stands for the trait-object handle and `E` for the
  encoding: both are opaque, since they are defined outside this package.
- The ghost field `log` records every insertion the map has received.
  `Valid()` ties the map to `Replay(log)`, so that a lookup can be stated
  against the history of registrations: the record of the latest
  registration for a URL, and nothing for a URL never registered.
- `Register` follows the code: it inserts first and only then reports a
  duplicate. A second registration of a URL therefore replaces the stored
  record and still returns `AlreadyRegistered`. The earlier record does not
  survive: `HashMap::insert` (server_fn.rs:34) has already replaced it by the
  time `AlreadyRegistered` is returned (server_fn.rs:44-51).
- `ServerRegistrationFnError` models the two-variant error enum of
  server_fn.rs:92-99. `AlreadyRegistered` carries the URL and `Poisoned` the
  lock's error text.
- Readers never fail. On a poisoned lock they return nothing, and
  `PathsRegistered` returns an empty list.

## Model

| member | source | states |
|---|---|---|
| `ServerFnRegistry.Registry.Register` | packages/fullstack/src/server_fn.rs:25-54 | A poisoned lock gives `Err(Poisoned(..))` and leaves map and history unchanged. Otherwise the entry for `url` is set to the new record, even when one existed. The result is `Ok(())` for a new URL and `Err(AlreadyRegistered(url))` for an existing one. Afterwards `Get(url)` returns the new record. `Get` of every other URL is unchanged, and no key is removed. |
| `ServerFnRegistry.Registry.Get` | packages/fullstack/src/server_fn.rs:56-62 | Returns nothing on a poisoned lock. Otherwise it finds a record exactly when the URL was ever registered, and that record is the one the latest registration for the URL supplied. |
| `ServerFnRegistry.Registry.GetTraitObj` | packages/fullstack/src/server_fn.rs:64-70 | Finds a handle exactly when `Get` finds a record, and the handle is that record's trait object. |
| `ServerFnRegistry.Registry.GetEncoding` | packages/fullstack/src/server_fn.rs:72-77 | Finds an encoding exactly when `Get` finds a record, and the encoding is that record's. |
| `ServerFnRegistry.Registry.PathsRegistered` | packages/fullstack/src/server_fn.rs:79-86 | Returns empty on a poisoned lock. Otherwise it lists each registered URL once, in an unspecified order: a URL is listed exactly when `Get` finds it, and the list is as long as the map. |
| `Wrappers.Lookup` | packages/fullstack/src/server_fn.rs:34-62 | `HashMap::get(..).cloned()`, and the previous value that `insert` returns: a value is found exactly when the key is in the map, and it is the stored one. |
| `ServerFnRegistry.Registry.constructor` | packages/fullstack/src/server_fn.rs:13-15 | The lazily created registry starts empty, with a healthy lock and no history. |
| `ServerFnRegistry.Registry.Poison` | packages/fullstack/src/server_fn.rs:13-15 | A writer that panics while holding the `RwLock` poisons it for good. The map keeps what it held. |
| `ServerFnRegistry.ReplayKeys` | packages/fullstack/src/server_fn.rs:34-40 | The keys of the map built by a series of insertions are exactly the URLs those insertions used. |
| `ServerFnRegistry.ReplayLatest` | packages/fullstack/src/server_fn.rs:34-40 | After a series of insertions, a URL maps to the record of the latest insertion for it. |
| `ServerFnRegistry.ReplayLatestAll` | packages/fullstack/src/server_fn.rs:57-62 | Helper that makes `Get`'s contract provable: it restates `ReplayLatest` as a map lookup, for every position holding the latest insertion for the URL. |
| `ServerFnRegistry.KeysNeverRemoved` | packages/fullstack/src/server_fn.rs:22-87 | No later insertion removes a key: the key set only grows, since the registry has no removal operation. |
| `ServerFnRegistry.DuplicateRegistration` | packages/fullstack/src/server_fn.rs:34-52 | Registering a URL twice on a fresh registry succeeds the first time and gives `AlreadyRegistered(url)` the second time. `Get` then returns the second record. |
| `ServerFnRegistry.PoisonedRegistry` | packages/fullstack/src/server_fn.rs:31-86 | On a poisoned registry, `register` gives `Poisoned`. `get`, `get_trait_obj` and `get_encoding` find nothing, and `paths_registered` is empty. |

## Left out

- The `once_cell::Lazy`, `Arc` and `RwLock` machinery: threads and interleavings are not modelled. Each call is one atomic step on one `Registry` object, and the lock is reduced to its poisoned flag.
- How a lock becomes poisoned: `Poison` stands for a writer that panicked while holding the lock, which the registry code never does itself.
- Invoking the trait object: the async call, argument and result serialization, and `DioxusServerContext` belong to the external `server_fn` crate. The handle is an opaque type parameter.
- The text of the error messages: `AlreadyRegistered` carries the URL instead of the formatted sentence and its `{:?}` quoting. `Poisoned` carries a fixed stand-in for the lock error's `to_string()`.
- The `ServerFn` trait and its blanket impl only delegate to `register_in` in the external crate. The `#[cfg(feature = ...)]` gating is also left out.
