/** Uses of the pool of module Hashpool, checked against its contracts
    alone: the scenario of src/test.rs, reuse after a drop, and a failed
    creation. */
module Scenarios {
  import opened Traits
  import opened Hashpool

  /** src/test.rs: two leases for the same key while the first is still
      live (so two creations, by `create1` and then `create2`), then both
      dropped, first one first: the cache for that key holds both
      resources, cleared, in drop order. */
  method TwoLeasesThenDrops<I(==), C, R>(info: I, ctx: C, create1: TryCreate<I, C, R>, create2: TryCreate<I, C, R>, clear: Clear<R>)
    returns (idle: seq<R>, ghost calls: seq<(I, C)>)
    requires create1(info, ctx).Some? && create2(info, ctx).Some?
    ensures idle == [clear(create1(info, ctx).value), clear(create2(info, ctx).value)]
    ensures calls == [(info, ctx), (info, ctx)]
  {
    var pool := new HashPool<I, C, R>.Default();
    var b1 := pool.Lease(info, ctx, create1);
    var b2 := pool.Lease(info, ctx, create2);
    assert b1.value.cache == b2.value.cache == pool.resources[info];
    b1.value.Drop(clear);
    b2.value.Drop(clear);
    idle := pool.resources[info].items;
    calls := pool.createCalls;
  }

  /** A lease dropped and the same key leased again: the second lease holds
      the first one's resource, cleared, and `try_create` ran only once. */
  method ReuseAfterDrop<I(==), C, R>(info: I, ctx: C, create: TryCreate<I, C, R>, clear: Clear<R>)
    returns (reused: R, ghost calls: seq<(I, C)>)
    requires create(info, ctx).Some?
    ensures reused == clear(create(info, ctx).value) && calls == [(info, ctx)]
  {
    var pool := new HashPool<I, C, R>.Default();
    var first := pool.Lease(info, ctx, create);
    first.value.Drop(clear);
    var second := pool.Lease(info, ctx, create);
    reused := second.value.Deref();
    calls := pool.createCalls;
  }

  /** A creation that fails: `try_lease` returns `None`, and the pool keeps
      an entry for the key whose cache is empty. */
  method FailedCreation<I(==), C, R>(info: I, ctx: C, create: TryCreate<I, C, R>)
    returns (leased: bool, idle: map<I, seq<R>>)
    requires create(info, ctx).None?
    ensures !leased && idle == map[info := []]
  {
    var pool := new HashPool<I, C, R>.Default();
    var tried := pool.TryLease(info, ctx, create);
    leased := tried.Some?;
    idle := map k | k in pool.resources :: pool.resources[k].items;
    assert idle == pool.Idle();
  }
}
