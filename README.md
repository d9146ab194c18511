# resource-pool in Dafny

A model of the keyed resource pool of the `resource-pool` crate. A `HashPool`
keeps a map from an `Info` key to a cache. A cache is a shared vector of idle
resources. `try_lease(info, ctx)` finds the cache for `info`, inserting an
empty one if there is none. It then pops the most recently returned resource,
or calls `I::try_create(info, ctx)` when the cache is empty. The result is
wrapped in a `Lease` that points at the same cache. Dropping a `Lease` clears
its resource and pushes it back onto that cache. `Pool::lease` is
`try_lease(..).unwrap()`.

Files:

- `traits.dfy`, module `Traits` (src/traits.rs): `Option`, an `Outcome` type
  for calls that may panic, and the default method `Pool::lease`
  (`Unwrap`).
  `Info::try_create` and `Resource::clear` become the function types
  `TryCreate` and `Clear`. Every call that uses one takes it as a
  parameter. Nothing is known about them beyond their signatures.
- `pool_spec.dfy`, module `PoolSpec` (src/hashpool.rs as values): the idle
  resources as a `map<I, seq<R>>`, and what `try_lease` (`TryLease`) and a
  lease's `drop` (`Release`) do to it. A trace model (`Step`, `Run`) applies
  any sequence of leases and drops. It proves that for every key the idle
  resources plus the leased ones are as many as `try_create` produced
  (`Conserved`).
- `hashpool.dfy`, module `Hashpool` (src/hashpool.rs on the heap): class
  `Cache` stands for `Arc<Mutex<Vec<R>>>`, class `Lease` has the fields
  `resource: Option<R>` and `cache`, and class `HashPool` holds
  `resources: map<I, Cache<R>>`. `HashPool.TryLease` and `HashPool.Lease`
  are proved against `PoolSpec.TryLease`. `HashPool.DropLease` is proved
  against `PoolSpec.Release`; it is a lease's `drop` seen through the pool. `HashPool` also keeps a ghost log of the calls made
  to `try_create`.
- `scenarios.dfy`, module `Scenarios`: client methods checked against the
  contracts alone. They cover the scenario of src/test.rs, reuse after a
  drop, and a failed creation.

Two behaviours of the code are worth stating:

- On a failed creation the code keeps the empty cache that
  `entry(..).or_insert(..)` inserted. So a `try_lease` that returns `None`
  still leaves an entry for the key.
- The `Resource` trait promises nothing about `clear`, not even
  idempotence, so the model assumes nothing about it.

## Model

| member | source | states |
|---|---|---|
| `Traits.Unwrap` | src/traits.rs:10-12 | `lease` panics exactly when `try_lease` returned `None`; otherwise it returns that very lease |
| `PoolSpec.OrInsert` | src/hashpool.rs:75-78 | afterwards the key has an entry (an empty cache if it had none); the other keys and their caches are unchanged |
| `PoolSpec.TryLease` | src/hashpool.rs:74-90 | the key gets an entry and no other entry changes; a hit returns the last cached resource and removes exactly it; a miss returns `try_create(info, ctx)` with the caller's arguments and leaves the cache empty; the result is `None` iff the cache was empty and creation failed |
| `PoolSpec.Release` | src/hashpool.rs:24-29 | the cache of the lease's key grows by exactly one, keeps its old contents as a prefix and ends with the cleared resource; no other cache changes |
| `PoolSpec.HitThenDrop` | src/hashpool.rs:79-84 | a hit followed by dropping its lease restores the cache's length; only its last resource is replaced by the cleared version |
| `PoolSpec.DropThenLease` | src/hashpool.rs:24-29 | dropping a lease and leasing the same key again returns the cleared resource, without creating one, and restores the idle resources as they were before the drop |
| `PoolSpec.Default` | src/hashpool.rs:48-54 | a default pool has no caches and no leases |
| `PoolSpec.Step` | src/hashpool.rs:24-89 | after one lease or drop no entry of the map is removed, and every live lease still returns to a cache the pool holds |
| `PoolSpec.Run` | src/hashpool.rs:24-89 | after any sequence of leases and drops no entry of the map is removed, and every live lease still returns to a cache the pool holds |
| `PoolSpec.StepConserves` | src/hashpool.rs:24-89 | one lease or drop keeps, for every key, the number of idle plus leased resources equal to the number created for it |
| `PoolSpec.RunConserves` | src/hashpool.rs:24-89 | every sequence of leases and drops keeps that conservation of numbers |
| `PoolSpec.DefaultConserves` | src/hashpool.rs:48-54 | starting from `default()`, every sequence of leases and drops keeps every key's number of idle plus leased resources equal to the number created |
| `Hashpool.Cache.constructor` | src/hashpool.rs:78 | a new cache is empty |
| `Hashpool.Cache.Pop` | src/hashpool.rs:82 | `None` on an empty cache; otherwise the last resource, removed from the end |
| `Hashpool.Cache.Push` | src/hashpool.rs:28 | the resource is appended at the end |
| `Hashpool.Lease.constructor` | src/hashpool.rs:86-89 | a new lease is active, holds `Some(resource)` and points at the given cache |
| `Hashpool.Lease.Deref` | src/hashpool.rs:35-37 | returns exactly the resource held by the active lease |
| `Hashpool.Lease.DerefMut` | src/hashpool.rs:40-42 | the caller's change is applied to the held resource; the lease stays active |
| `Hashpool.Lease.Drop` | src/hashpool.rs:24-29 | the lease becomes inactive; its cache gains the cleared resource at the end; nothing else changes |
| `Hashpool.HashPool.Default` | src/hashpool.rs:48-54 | a new pool has an empty map and has created nothing |
| `Hashpool.HashPool.TryLease` | src/hashpool.rs:74-90 | idle resources and the result are those of `PoolSpec.TryLease`; other keys keep their cache objects and contents; a new entry holds a fresh cache; a lease is fresh, active and points at the cache stored under `info`; `try_create` is called once, with `(info, ctx)`, exactly on a miss; different keys never share a cache |
| `Hashpool.HashPool.DropLease` | src/hashpool.rs:24-29 | dropping a lease taken for `info` changes the pool's idle resources exactly as `PoolSpec.Release` says; the map and its cache objects stay the same; the lease becomes inactive |
| `Hashpool.HashPool.Lease` | src/traits.rs:10-12 | like `TryLease`, but panics exactly when `try_lease` would return `None` |
| `Scenarios.TwoLeasesThenDrops` | src/test.rs:28-42 | two live leases for one key create twice, by two creation functions; dropping both leaves both resources, cleared, in that key's cache in drop order |
| `Scenarios.ReuseAfterDrop` | src/hashpool.rs:79-84 | leasing again after a drop returns the cleared resource; `try_create` runs only once |
| `Scenarios.FailedCreation` | src/hashpool.rs:75-84 | a failed creation yields no lease and leaves one empty cache for the key |

## Left out

- `Arc`/`Mutex` locking and thread safety. A cache is a plain shared object
  used sequentially. Mutex-poisoning panics from `lock().unwrap()` are not
  modelled.
- The `Debug` impls (src/hashpool.rs:15-22, 56-66): formatting only.
- Hashing and the `Hash` bound. The map is a Dafny `map` keyed by equality,
  and `info.clone()` is the same key value.
- Rust traits. Dafny traits are not used. `Pool`, `Info` and `Resource` are
  represented by the function types `TryCreate` and `Clear` and by the
  methods of `HashPool`.
- What `try_create` and `clear` actually do. These functions are external
  and are passed in by each caller. No determinism across calls and no
  idempotence of `clear` is assumed.
- The capacity of `Vec::with_capacity(1)`: it does not affect behaviour.
- Automatic destruction. `Lease.Drop` is an explicit call. It requires an
  active lease because Rust runs `drop` exactly once, on a lease that still
  holds its resource.
- `Hashpool.HashPool.TryLease`: the heap classes do not track live leases,
  because the Rust pool does not know its leases either. Conservation of
  resources is proved on the trace model `PoolSpec.Run`. Its single steps
  are `PoolSpec.TryLease` and `PoolSpec.Release`, which
  `HashPool.TryLease` and `HashPool.DropLease` are proved against.
- src/lib.rs: module wiring only.
- src/test.rs is written against an older trait shape and does not compile
  against src/traits.rs. Only its scenario is reproduced, in
  `Scenarios.TwoLeasesThenDrops`.
