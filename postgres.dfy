/**
 * Postgres: the process-wide pool singleton. The static `pool` field is a
 * field of one object here; `init` creates a pool only when none is held,
 * `getPool` refuses when none is held, `end` closes and forgets it.
 */
module Postgres {
  import opened Common

  /** A connection pool; `serial` tells pools created at different times apart. */
  datatype Pool = Pool(serial: nat, max: nat, idleTimeoutMillis: nat)

  const PoolMax: nat := 10
  const PoolIdleTimeoutMillis: nat := 30000
  const NotInitialized: string := "Postgres pool not initialized"

  class Postgres {
    var pool: Option<Pool>
    /** Pools created so far. */
    var created: nat
    /** Pools that `end` has closed. */
    ghost var closed: set<Pool>

    ghost predicate Valid()
      reads this
    {
      (pool.Some? ==> pool.value.serial < created && pool.value !in closed)
      && (forall p :: p in closed ==> p.serial < created)
    }

    constructor()
      ensures Valid() && pool == None && created == 0 && closed == {}
    {
      pool := None;
      created := 0;
      closed := {};
    }

    /** `init`: idempotent while a pool is held; otherwise a new pool with
        the fixed limits. Either way the held pool is returned. */
    method Init() returns (p: Pool)
      requires Valid()
      modifies this`pool, this`created
      ensures Valid()
      ensures pool == Some(p)
      ensures old(pool).Some? ==> p == old(pool).value && created == old(created)
      ensures old(pool).None? ==> p == Pool(old(created), PoolMax, PoolIdleTimeoutMillis) && created == old(created) + 1
    {
      if pool.None? {
        pool := Some(Pool(created, PoolMax, PoolIdleTimeoutMillis));
        created := created + 1;
      }
      p := pool.value;
    }

    /** `getPool`: the held pool, or the "not initialized" error. */
    function GetPool(): (r: Result<Pool>)
      reads this
      ensures r.Ok? <==> pool.Some?
      ensures r.Ok? ==> r.value == pool.value
      ensures r.Err? ==> r.error == Failure(NotInitialized)
    {
      if pool.None? then Err(Failure(NotInitialized)) else Ok(pool.value)
    }

    /** `end`: closes and clears a held pool, so `getPool` fails until the
        next `init`; with no pool it does nothing. */
    method End()
      requires Valid()
      modifies this`pool, this`closed
      ensures Valid()
      ensures pool == None && GetPool() == Err(Failure(NotInitialized))
      ensures old(pool).Some? ==> closed == old(closed) + {old(pool).value}
      ensures old(pool).None? ==> closed == old(closed)
    {
      if pool.Some? {
        closed := closed + {pool.value};
        pool := None;
      }
    }
  }

  /** A pool created after `end` is a different pool from the closed one. */
  method ReinitAfterEnd(pg: Postgres) returns (first: Pool, second: Pool)
    requires pg.Valid()
    modifies pg`pool, pg`created, pg`closed
    ensures first != second && first in pg.closed && pg.GetPool() == Ok(second)
  {
    first := pg.Init();
    pg.End();
    second := pg.Init();
  }
}
