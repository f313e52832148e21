# futures task-local storage and poll macros, in Dafny

A model of two small pieces of the `futures` 0.2 task system.

* **Per-task local storage** (`futures-core/src/task/data.rs`). A `LocalMap` is owned by one task and maps a key identity (`TypeId`) to an owned, type-erased box. `LocalKey::get_mut` looks the key's identity up, creates the entry with the key's initializer the first time, and hands back a mutable reference reinterpreted as the key's type `T`. The map hashes identities with `IdHasher`, whose hash of a `u64` is that `u64` and which panics on raw bytes. Keys are built by the `task_local!` macro (`futures/src/lib.rs:71-85`, the same text as `futures-core/src/task/data.rs:17-31`). Each expansion pairs an initializer with the `TypeId` of a struct `__A` private to that expansion.
* **`try_ready!`** (`futures/src/lib.rs:55-61`). It unwraps `Ok(Ready(t))` to `t`. On `Ok(Pending)` it returns `Ok(Pending)` from the enclosing function, and on `Err(e)` it returns `Err(From::from(e))`.

Files:

* `core.dfy`: Rust's `Option` and `Result`.
* `poll.dfy`: `Async`, `Poll<T, E>` and `try_ready!`, modelled as a function that returns a `Flow`: continue with a value, or return early with `Ok(Pending)` or an error.
* `task_data.dfy`:
  * `LocalKey`, and `task_local!` with identities minted per declaration site.
  * The `LocalMap` class, whose `GetMut` and `Store` methods update its `entries` map in place.
  * The `IdHasher` class.
* `local_map_props.dfy`: runs of accesses to one map (a `get_mut`, optionally followed by a write through the returned reference), with lemmas about whole runs.

The map stores each value with a runtime type tag. The unchecked pointer cast of `data.rs:104` becomes a tag comparison that yields `Err(TypeMismatch)` where the original would reinterpret memory. The lemmas show that this error never happens for keys built by `task_local!`. Keys built by hand can trigger it, as recorded under "## Findings".

## Model

| member | source | states |
|---|---|---|
| `Poll.TryReady` | futures/src/lib.rs:55-61 | evaluation continues exactly on `Ok(Ready(t))` and then with `t`; `Ok(Pending)` makes the enclosing function return `Pending`, and only it does; an error makes it return the error converted by `From::from` |
| `Poll.EarlyPoll` | futures/src/lib.rs:58-59 | an early return becomes `Ok(Pending)` or `Err(f)` in the enclosing function's `Poll` type, never `Ok(Ready(_))` |
| `Poll.TryReadyRoundTrip` | futures/src/lib.rs:56-60 | with the identity conversion, the original poll result can be rebuilt from what `try_ready!` produced, so no case is lost or merged |
| `Poll.PollThenCases` | futures/src/lib.rs:55-61 | a poll function that begins with `try_ready!(p)` runs the rest of its body on `t` when `p` is `Ok(Ready(t))`; otherwise it returns `Ok(Pending)` or the converted error, whatever the rest would have done |
| `TaskData.TaskLocal` | futures/src/lib.rs:72-84 | one expansion of `task_local!` yields a key with the identity of the expansion's own struct `__A` and the declared type, whose first access on a fresh task hands out the declared expression |
| `TaskData.DeclareKeys` | futures/src/lib.rs:71-85 | each `task_local!` declaration yields a key whose initializer returns the declared expression at the declared type; no two declarations share an identity, even when their types agree |
| `TaskData.DeclaredKeysConsistent` | futures-core/src/task/data.rs:21-24 | among declared keys, an identity always stands for one value type |
| `TaskData.RegistryAgrees` | futures-core/src/task/data.rs:17-31 | when every identity stands for one type, the identity-to-type registry gives each key its own type and holds no other identities |
| `TaskData.OrInsertWith` | futures-core/src/task/data.rs:101-103 | `entry(key).or_insert_with(init)`: afterwards the key is present and is the only identity added; existing entries, including this key's, are unchanged; a missing entry is created with exactly the initializer's value |
| `TaskData.UncheckedRead` | futures-core/src/task/data.rs:101-104 | `get_mut` as written: the initializer's value on first access, otherwise the stored payload, whatever type it was stored at |
| `TaskData.Downcast` | futures-core/src/task/data.rs:104 | the checked reinterpretation succeeds exactly when the stored tag is the requested type, and then yields the stored value; otherwise it reports both tags |
| `TaskData.Read` | futures-core/src/task/data.rs:99-104 | `get_mut` on an absent key hands out the initializer's value; on a present key it hands out the stored value, and succeeds exactly when that value was stored at the key's type |
| `TaskData.StoreThrough` | futures-core/src/task/data.rs:98-104 | a write through the returned `&mut T` changes no key set and no other entry, and the next read of the key returns the written value |
| `TaskData.LocalMap.constructor` | futures-core/src/task/data.rs:35-37 | `local_map()` creates an empty map |
| `TaskData.LocalMap.GetMut` | futures-core/src/task/data.rs:98-105 | the new map is `or_insert_with` of the old one and the result is the checked read; on a present key the map is left unchanged (the initializer does not run); on an absent key exactly the initializer's value is inserted and returned |
| `TaskData.LocalMap.Store` | futures-core/src/task/data.rs:98-104 | assigning through the reference `GetMut` handed out replaces that entry only, and a read afterwards returns the assigned value |
| `TaskData.PerTaskValues` | futures-core/src/task/data.rs:14-15 | data is per task: a value one task stores is what that task reads next, while another task's first access to the same key gets the initializer's value |
| `TaskData.IdHasher.Default` | futures-core/src/task/data.rs:69-73 | a new hasher holds 0 and has had nothing written to it |
| `TaskData.IdHasher.Write` | futures-core/src/task/data.rs:76-79 | hashing raw bytes always panics with "can only hash u64", and the hasher is not changed |
| `TaskData.IdHasher.WriteU64` | futures-core/src/task/data.rs:81-87 | `write_u64(u)` appends `u` to the history of writes, and afterwards `finish` returns `u` whatever was written before, so the last write wins |
| `TaskData.IdHasher.Finish` | futures-core/src/task/data.rs:85-87 | `finish` returns the last value passed to `write_u64` since the hasher was created, or 0 if there was none |
| `TaskData.HashId` | futures-core/src/task/data.rs:65-88 | hashing one 64-bit identity with a fresh `IdHasher` gives back the identity, so distinct identities never share a hash |
| `LocalMapProps.ApplyKeys` | futures-core/src/task/data.rs:100-103 | one access adds at most its own identity to the map and removes none |
| `LocalMapProps.RunKeepsKeys` | futures-core/src/task/data.rs:100-103 | entries, once created, stay in the map for any later run of accesses |
| `LocalMapProps.InitAtMostOnce` | futures-core/src/task/data.rs:101-103 | over any run of accesses the initializer of an identity runs at most once; it never runs when the entry already exists; it runs exactly once when the entry was missing and the run accesses it |
| `LocalMapProps.KeyIsolation` | futures-core/src/task/data.rs:100-103 | a run that never accesses identity `id` leaves its entry exactly as it was, present or absent |
| `LocalMapProps.WritePersists` | futures-core/src/task/data.rs:101-104 | a value written through the reference from `get_mut(k)` is what the next `get_mut(k)` returns, after any number of accesses to other identities |
| `LocalMapProps.RunTypeSafe` | futures-core/src/task/data.rs:101-104 | if every stored entry has the type registered for its identity and every accessed key agrees with the registry, then the map stays so typed and every read of the run succeeds |
| `LocalMapProps.DeclaredKeysTypeSafe` | futures-core/src/task/data.rs:99-104 | on a fresh task map, any run over keys declared by `task_local!` reads every value back at the type it was stored as, so the reinterpretation is sound for keys built by `task_local!` (and only for them) |
| `LocalMapProps.CollidingIdentitiesMismatch` | futures-core/src/task/data.rs:104 | two keys that share an identity but not a type make the second access find a value stored at the first key's type; the unchecked read hands it out as the second key's type, while the checked read reports the mismatch |

## Findings

| source | as written | input that shows it | evidently intended | confidence | as-written member | corrected member |
|---|---|---|---|---|---|---|
| futures-core/src/task/data.rs:56-63 | the `__key` and `__init` fields of `LocalKey` are public, so safe code can build two `'static` keys that share one `__key` function but have different `T`; the safe `get_mut` then reinterprets a value stored as one type as the other (data.rs:104) | two statics `LocalKey { __key: f, __init: g1 }` of type `LocalKey<u8>` and `LocalKey { __key: f, __init: g2 }` of type `LocalKey<String>`, then `get_mut` on the first and then on the second within one task | a value read under an identity is of the key's type, or the access fails loudly | medium, not executed | `LocalMapProps.CollidingIdentitiesMismatch` | `TaskData.Read` |

The corrected behaviour is the checked read. `TaskData.Read` succeeds exactly when the stored tag is the key's type. `LocalMapProps.RunTypeSafe` and `LocalMapProps.DeclaredKeysTypeSafe` prove that this check never fails for keys whose identity determines their type, which covers every key built by `task_local!`.

## Left out

- Identities: a `TypeId` is an abstract natural here, not a compiler-generated 64-bit value. The model mints one identity per `task_local!` declaration site from a counter, and `IdHasher` is modelled over `u64` on its own.
- Initializers: `__key` and `__init` are function pointers to stateless functions, so each is modelled by the value it returns. An initializer with side effects is not modelled.
- Poll.TryReady: `From::from` is a parameter, because the conversion traits are not part of this model.
- `Async` and `Poll`: these are defined in `futures-core/src/poll.rs`, which is not part of this model. They are restated from their uses in `try_ready!`.
- TaskData.LocalMap.GetMut: does not reproduce the original's undefined behaviour on a type mismatch. It reports `Err(TypeMismatch)` instead, and the lemmas prove this never happens for declared keys.
- TaskData.LocalMap.GetMut: returns the value rather than a `&'a mut T`. A write through that reference is the separate `Store` method, so borrow lifetimes and aliasing are not modelled.
- Dropping: when a task is destroyed, its map's entries are dropped. Dafny has no destructors, so this is not modelled.
- Hashing: the `HashMap` bucket layout and `BuildHasherDefault` are not modelled; the map is a Dafny `map`. The `Hasher` methods that default to `write` (`write_u8` and the like) are not modelled either; they would panic the same way.
- TaskData.IdHasher.Write: `IdHasher::write` is modelled as returning a `Panicked` outcome rather than unwinding.
- Contexts: `task::Context` is represented only by the map it borrows. `Waker`, `AtomicWaker`, executors and spawning are not part of this model; the first two are concurrent code.
- Trait bounds: `Send` and `'static` are not modelled.
- `futures/src/lib.rs`: its re-export modules hold no logic and are not modelled.
