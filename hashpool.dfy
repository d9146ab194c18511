/** The pool of src/hashpool.rs on the heap. A cache (`Arc<Mutex<Vec<R>>>`)
    is an object, so that the pool's map and every lease taken from it share
    it; a `Lease` is an object whose resource is taken out when it is
    dropped. Every method is proved against the value-level functions of
    module PoolSpec. */
module Hashpool {
  import opened Traits
  import PoolSpec

  /** `Cache<R>`: the idle resources for one key, shared by the pool and the
      leases drawn from it. */
  class Cache<R> {
    var items: seq<R>

    /** `Arc::new(Mutex::new(Vec::with_capacity(1)))`: an empty cache. */
    constructor ()
      ensures items == []
    {
      items := [];
    }

    /** `Vec::pop`: the last resource, removed, or `None` when there is none. */
    method Pop() returns (r: Option<R>)
      modifies this
      ensures old(items) == [] ==> r.None? && items == []
      ensures old(items) != [] ==> r.Some? && old(items) == items + [r.value]
    {
      if |items| == 0 {
        r := None;
      } else {
        r := Some(items[|items| - 1]);
        items := items[..|items| - 1];
      }
    }

    /** `Vec::push`: `r` appended at the end. */
    method Push(r: R)
      modifies this
      ensures items == old(items) + [r]
    {
      items := items + [r];
    }
  }

  /** `Lease<R>`: a resource on loan, and the cache it goes back to. */
  class Lease<R> {
    var resource: Option<R>
    const cache: Cache<R>

    /** A lease holds its resource from construction until it is dropped. */
    predicate Active()
      reads this
    {
      resource.Some?
    }

    /** `Lease { resource: Some(resource), cache: cache.clone() }`. */
    constructor (r: R, c: Cache<R>)
      ensures Active() && resource == Some(r) && cache == c
    {
      resource := Some(r);
      cache := c;
    }

    /** `Deref::deref`: the resource the lease holds. */
    function Deref(): (r: R)
      reads this
      requires Active()
      ensures resource == Some(r)
    {
      resource.value
    }

    /** `DerefMut::deref_mut`, with the caller's change `update` applied to
        the resource through the returned reference; the cache is untouched. */
    method DerefMut(update: R -> R)
      requires Active()
      modifies this
      ensures Active() && resource == Some(update(old(resource).value))
    {
      resource := Some(update(resource.value));
    }

    /** `Drop::drop`: take the resource out, clear it, and push it onto the
        end of the lease's cache. Rust runs it once, on an active lease. */
    method Drop(clear: Clear<R>)
      requires Active()
      modifies this, cache
      ensures !Active()
      ensures cache.items == old(cache.items) + [clear(old(resource).value)]
    {
      var r := resource.value;
      resource := None;
      r := clear(r);
      cache.Push(r);
    }
  }

  /** `HashPool<I>`: a cache per key. `C` and `R` stand for `I::Context`
      and `I::Resource`. */
  class HashPool<I(==), C, R> {
    var resources: map<I, Cache<R>>
    /** The calls made to `I::try_create`, in order, with their arguments. */
    ghost var createCalls: seq<(I, C)>

    /** Different keys never share a cache. */
    ghost predicate Valid()
      reads this
    {
      forall k, k' :: k in resources && k' in resources && k != k' ==> resources[k] != resources[k']
    }

    /** The idle resources of every cache, by key. */
    ghost function Idle(): map<I, seq<R>>
      reads this, resources.Values
    {
      map k | k in resources :: resources[k].items
    }

    /** `HashPool::default()`: a pool without caches. */
    constructor Default()
      ensures Valid() && resources == map[] && Idle() == map[] && createCalls == []
    {
      resources := map[];
      createCalls := [];
    }

    /** `Pool::try_lease` for `HashPool`. */
    method TryLease(info: I, ctx: C, create: TryCreate<I, C, R>) returns (lease: Option<Lease<R>>)
      requires Valid()
      modifies this, resources.Values
      ensures Valid()
      // the entry for `info` exists afterwards, a new one holding a fresh cache;
      // every other entry keeps its cache and that cache's contents
      ensures resources.Keys == old(resources.Keys) + {info}
      ensures forall k :: k in old(resources) ==> resources[k] == old(resources[k])
      ensures info !in old(resources) ==> fresh(resources[info])
      ensures forall k :: k in old(resources) && k != info ==> resources[k].items == old(resources[k].items)
      // idle resources and the leased one are those PoolSpec.TryLease gives
      ensures var t := PoolSpec.TryLease(old(Idle()), info, ctx, create);
        Idle() == t.idle &&
        (lease.None? <==> t.resource.None?) &&
        (lease.Some? ==> t.resource == lease.value.resource)
      // a new lease is active and returns to the cache now stored under `info`
      ensures lease.Some? ==> fresh(lease.value) && lease.value.Active() && lease.value.cache == resources[info]
      // `try_create` is called, once, with `info` and `ctx`, exactly on a miss
      ensures createCalls == old(createCalls) + if PoolSpec.Cached(old(Idle()), info) == [] then [(info, ctx)] else []
    {
      var cache: Cache<R>;
      if info in resources {
        cache := resources[info];
      } else {
        cache := new Cache();
        resources := resources[info := cache];
      }
      ghost var before := old(Idle());
      assert cache.items == PoolSpec.Cached(before, info);
      var r := cache.Pop();
      if r.None? {
        createCalls := createCalls + [(info, ctx)];
        r := create(info, ctx);
      }
      if r.None? {
        lease := None;
      } else {
        var l := new Lease(r.value, cache);
        lease := Some(l);
      }
      ghost var t := PoolSpec.TryLease(before, info, ctx, create);
      assert Idle() == t.idle;
    }

    /** `Lease::drop` seen from the pool: dropping a lease taken for `info`
        returns its resource, cleared, to the cache stored under `info`. */
    method DropLease(lease: Lease<R>, info: I, clear: Clear<R>)
      requires Valid() && lease.Active() && info in resources && lease.cache == resources[info]
      modifies lease, lease.cache
      ensures Valid() && resources == old(resources) && !lease.Active()
      ensures Idle() == PoolSpec.Release(old(Idle()), info, old(lease.resource).value, clear)
    {
      lease.Drop(clear);
    }

    /** `Pool::lease`: `try_lease`, panicking when it returns `None`. */
    method Lease(info: I, ctx: C, create: TryCreate<I, C, R>) returns (outcome: Outcome<Lease<R>>)
      requires Valid()
      modifies this, resources.Values
      ensures Valid()
      ensures resources.Keys == old(resources.Keys) + {info}
      ensures forall k :: k in old(resources) ==> resources[k] == old(resources[k])
      ensures info !in old(resources) ==> fresh(resources[info])
      ensures forall k :: k in old(resources) && k != info ==> resources[k].items == old(resources[k].items)
      // it panics exactly when `try_lease` returns `None`, and otherwise
      // returns the lease `try_lease` makes
      ensures var t := PoolSpec.TryLease(old(Idle()), info, ctx, create);
        Idle() == t.idle &&
        (outcome.Panicked? <==> t.resource.None?) &&
        (outcome.Returned? ==> t.resource == outcome.value.resource)
      ensures outcome.Returned? ==>
        fresh(outcome.value) && outcome.value.Active() && outcome.value.cache == resources[info]
      ensures createCalls == old(createCalls) + if PoolSpec.Cached(old(Idle()), info) == [] then [(info, ctx)] else []
    {
      var tried := TryLease(info, ctx, create);
      outcome := Unwrap(tried);
    }
  }
}
