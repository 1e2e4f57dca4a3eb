/** Pooler and Pool: a registry that maps every prefab and every pooled
    instance to one Pool, and pools that keep their instances in two lists,
    spawned (in use) and despawned (idle). The process-wide singleton
    Pooler.Instance is passed explicitly as `owner`. Transforms, activation,
    parents and renaming are engine calls and are not modelled. */
module Pooling {
  import opened Engine
  import opened Sequences
  import Extensions

  class Pool {
    /** _prefab: the object this pool clones. */
    var prefab: GameObject?
    /** _spawned: instances in use. */
    var spawned: seq<GameObject>
    /** _despawned: idle instances, reused first-in first-out. */
    var despawned: seq<GameObject>

    /** Neither list repeats an instance and no instance is in both. */
    ghost predicate Valid()
      reads this
    {
      && NoDup(spawned)
      && NoDup(despawned)
      && (forall o :: o in spawned ==> o !in despawned)
    }

    /** Count: the instances this pool owns, in use or idle. */
    function Count(): nat
      reads this
    {
      |spawned| + |despawned|
    }

    /** Count counts every instance the pool owns exactly once. */
    lemma CountOwned()
      requires Valid()
      ensures Count() == |(set o | o in spawned) + (set o | o in despawned)|
    {
      NoDupCard(spawned);
      NoDupCard(despawned);
      assert (set o | o in spawned) !! (set o | o in despawned);
    }

    constructor ()
      ensures prefab == null && spawned == [] && despawned == []
      ensures Valid() && Count() == 0
    {
      prefab := null;
      spawned := [];
      despawned := [];
    }

    /** Init(obj): the pool clones obj from now on. */
    method Init(obj: GameObject)
      modifies this
      ensures prefab == obj && spawned == old(spawned) && despawned == old(despawned)
    {
      prefab := obj;
    }

    /** Create(): a clone of the prefab, registered to this pool and parked
        idle. Every registered pool has its prefab (see Pooler.Valid). */
    method CreateInstance(owner: Pooler) returns (obj: GameObject)
      requires owner.Valid() && this in owner.pools
      modifies this, owner
      ensures owner.Valid()
      ensures owner.pools == old(owner.pools) && owner.Repr == old(owner.Repr)
      ensures prefab == old(prefab) && spawned == old(spawned)
      ensures fresh(obj)
      ensures despawned == old(despawned) + [obj]
      ensures owner.registry == old(owner.registry)[obj := this]
      ensures Extends(old(owner.registry), owner.registry)
      ensures Count() == old(Count()) + 1
    {
      obj := new GameObject();
      forall q | q in owner.pools && q != this
        ensures HoldsIn(owner.registry[obj := this], q)
      {
        HoldsExtend(owner.registry, q, obj, this);
      }
      owner.Register(obj, this);
      despawned := despawned + [obj];
      owner.PoolAdded(this, obj);
    }

    /** Create(count): count calls of Create(); none when count <= 0. */
    method Create(count: int, owner: Pooler)
      requires owner.Valid() && this in owner.pools
      modifies this, owner
      ensures owner.Valid()
      ensures owner.pools == old(owner.pools) && owner.Repr == old(owner.Repr)
      ensures prefab == old(prefab) && spawned == old(spawned)
      ensures |despawned| == |old(despawned)| + (if count > 0 then count else 0)
      ensures Count() == old(Count()) + (if count > 0 then count else 0)
      ensures Extends(old(owner.registry), owner.registry)
      ensures old(despawned) <= despawned
      ensures forall k :: |old(despawned)| <= k < |despawned| ==> fresh(despawned[k])
    {
      ghost var idle, registry0, made: set<GameObject> := despawned, owner.registry, {};
      var i := 0;
      while i < count
        invariant owner.Valid() && this in owner.pools
        invariant owner.pools == old(owner.pools) && owner.Repr == old(owner.Repr)
        invariant prefab == old(prefab) && spawned == old(spawned)
        invariant 0 <= i <= (if count > 0 then count else 0) && |despawned| == |idle| + i
        invariant fresh(made) && Grown(owner, idle, registry0, made)
      {
        var obj := Grow(owner, idle, registry0, made);
        made := made + {obj};
        i := i + 1;
      }
    }

    /** Since idle and registry0: idle is still a prefix of the idle list,
        every entry of registry0 stands, and what was appended lies in made. */
    ghost predicate Grown(owner: Pooler, idle: seq<GameObject>, registry0: map<GameObject, Pool>, made: set<GameObject>)
      reads this, owner
    {
      && idle <= despawned
      && Extends(registry0, owner.registry)
      && (forall k :: |idle| <= k < |despawned| ==> despawned[k] in made)
    }

    /** One Create() of Create(count), keeping Grown with the new instance
        added to made. */
    method Grow(owner: Pooler, ghost idle: seq<GameObject>, ghost registry0: map<GameObject, Pool>, ghost made: set<GameObject>)
      returns (obj: GameObject)
      requires owner.Valid() && this in owner.pools && Grown(owner, idle, registry0, made)
      modifies this, owner
      ensures owner.Valid()
      ensures owner.pools == old(owner.pools) && owner.Repr == old(owner.Repr)
      ensures prefab == old(prefab) && spawned == old(spawned) && |despawned| == |old(despawned)| + 1
      ensures fresh(obj) && Grown(owner, idle, registry0, made + {obj})
    {
      ghost var before := owner.registry;
      obj := CreateInstance(owner);
      ExtendsTrans(registry0, before, owner.registry);
    }

    /** Spawn(): the first idle instance, or a new one when none is idle,
        moved to the spawned list. */
    method Spawn(owner: Pooler) returns (obj: GameObject)
      requires owner.Valid() && this in owner.pools
      modifies this, owner
      ensures owner.Valid()
      ensures owner.pools == old(owner.pools) && owner.Repr == old(owner.Repr)
      ensures prefab == old(prefab)
      ensures spawned == old(spawned) + [obj] && obj !in despawned
      ensures obj in owner.registry && owner.registry == old(owner.registry)[obj := this]
      ensures Extends(old(owner.registry), owner.registry)
      ensures old(despawned) != [] ==>
                obj == old(despawned[0]) && despawned == old(despawned[1..])
                && owner.registry == old(owner.registry) && Count() == old(Count())
      ensures old(despawned) == [] ==>
                fresh(obj) && despawned == []
                && owner.registry == old(owner.registry)[obj := this] && Count() == old(Count()) + 1
    {
      var first := Extensions.ElementAtOrDefault(Some(despawned), 0);
      if first.None? {
        obj := CreateInstance(owner);
      } else {
        obj := first.value;
      }
      SetSpawned(obj, owner);
    }

    /** Despawn(obj): nothing happens when obj is already idle; otherwise it
        becomes idle and leaves the spawned list. */
    method Despawn(obj: GameObject)
      requires Valid()
      modifies this
      ensures Valid() && prefab == old(prefab)
      ensures obj in despawned && obj !in spawned
      ensures obj in old(despawned) ==> spawned == old(spawned) && despawned == old(despawned)
      ensures obj !in old(despawned) ==>
                despawned == old(despawned) + [obj] && spawned == RemoveFirst(old(spawned), obj)
      ensures Count() == old(Count()) + (if obj in old(spawned) || obj in old(despawned) then 0 else 1)
      ensures forall o :: o in spawned || o in despawned ==> o == obj || o in old(spawned) || o in old(despawned)
      ensures Count() >= old(Count()) && old(despawned) <= despawned
    {
      if obj !in despawned {
        SetDespawned(obj);
      }
    }

    /** SetSpawned(obj): idle -> in use. */
    method SetSpawned(obj: GameObject, owner: Pooler)
      requires owner.Valid() && this in owner.pools
      requires obj !in spawned && obj in owner.registry && owner.registry[obj] == this
      modifies this
      ensures owner.Valid()
      ensures prefab == old(prefab)
      ensures despawned == RemoveFirst(old(despawned), obj) && spawned == old(spawned) + [obj]
      ensures obj !in despawned
      ensures obj in old(despawned) ==> Count() == old(Count())
    {
      RemoveFirstNoDup(despawned, obj);
      despawned := RemoveFirst(despawned, obj);
      spawned := spawned + [obj];
      owner.PoolAdded(this, obj);
    }

    /** SetDespawned(obj): in use -> idle. */
    method SetDespawned(obj: GameObject)
      requires Valid() && obj !in despawned
      modifies this
      ensures Valid() && prefab == old(prefab)
      ensures despawned == old(despawned) + [obj] && spawned == RemoveFirst(old(spawned), obj)
      ensures Count() == old(Count()) + (if obj in old(spawned) then 0 else 1)
      ensures forall o :: o in spawned ==> o in old(spawned)
    {
      RemoveFirstNoDup(spawned, obj);
      despawned := despawned + [obj];
      spawned := RemoveFirst(spawned, obj);
    }
  }

  /** Pool p is valid, its prefab is registered to it in registry, and so
      is every instance it holds; hence no instance is held by two pools. */
  ghost predicate HoldsIn(registry: map<GameObject, Pool>, p: Pool)
    reads p
  {
    && p.Valid()
    && p.prefab != null && p.prefab in registry && registry[p.prefab] == p
    && (forall o :: o in p.spawned ==> o in registry && registry[o] == p)
    && (forall o :: o in p.despawned ==> o in registry && registry[o] == p)
  }

  /** Every entry of before is still in after, mapped to the same pool. */
  ghost predicate Extends(before: map<GameObject, Pool>, after: map<GameObject, Pool>)
  {
    forall o :: o in before ==> o in after && after[o] == before[o]
  }

  /** Extends is transitive. */
  lemma ExtendsTrans(a: map<GameObject, Pool>, b: map<GameObject, Pool>, c: map<GameObject, Pool>)
    requires Extends(a, b) && Extends(b, c)
    ensures Extends(a, c)
  {
  }

  /** Setting a key that was absent, or setting it to the pool it already
      had, extends a registry. */
  lemma ExtendsUpdate(registry: map<GameObject, Pool>, obj: GameObject, pool: Pool)
    requires obj in registry ==> registry[obj] == pool
    ensures Extends(registry, registry[obj := pool])
  {
  }

  /** Registering an object the registry did not know keeps every pool
      holding: none of them can hold that object. */
  lemma HoldsExtend(registry: map<GameObject, Pool>, p: Pool, obj: GameObject, pool: Pool)
    requires HoldsIn(registry, p) && obj !in registry
    ensures HoldsIn(registry[obj := pool], p)
  {
  }

  class Pooler {
    /** _map: prefab or instance -> owning pool. */
    var registry: map<GameObject, Pool>
    /** _pools, in creation order. */
    var pools: seq<Pool>
    ghost var Repr: set<object>

    /** Pool p holds under this registry. */
    ghost predicate Holds(p: Pool)
      reads this, p
    {
      HoldsIn(registry, p)
    }

    /** Every registered object maps to a listed pool and every listed pool
        holds. */
    ghost predicate Valid()
      reads this, Repr
    {
      && this in Repr
      && (forall p :: p in pools ==> p in Repr && Holds(p))
      && (forall o :: o in registry ==> registry[o] in pools)
    }

    constructor ()
      ensures Valid() && fresh(Repr)
      ensures registry == map[] && pools == []
    {
      registry := map[];
      pools := [];
      Repr := {this};
    }

    /** Register(obj, pool): obj now resolves to pool. */
    method Register(obj: GameObject, pool: Pool)
      modifies this
      ensures registry == old(registry)[obj := pool]
      ensures pools == old(pools) && Repr == old(Repr)
    {
      registry := registry[obj := pool];
    }

    /** Valid again after pool p gained obj, registered to p, in one of its
        lists, while every other pool kept its lists. */
    lemma PoolAdded(p: Pool, obj: GameObject)
      requires this in Repr && p in pools
      requires forall q :: q in pools ==> q in Repr && (q != p ==> Holds(q))
      requires forall o :: o in registry ==> registry[o] in pools
      requires p.Valid() && p.prefab != null && p.prefab in registry && registry[p.prefab] == p
      requires forall o :: o in p.spawned || o in p.despawned ==> o == obj || (o in registry && registry[o] == p)
      requires obj in registry && registry[obj] == p
      ensures Valid()
    {
    }

    /** The in-use list of obj's pool; empty when obj has no pool yet. */
    ghost function SpawnedOf(obj: GameObject): seq<GameObject>
      reads this, registry.Values
    {
      if obj in registry then registry[obj].spawned else []
    }

    /** The idle list of obj's pool; empty when obj has no pool yet. */
    ghost function IdleOf(obj: GameObject): seq<GameObject>
      reads this, registry.Values
    {
      if obj in registry then registry[obj].despawned else []
    }

    /** The instances obj's pool owns, in use or idle; none when obj has no
        pool yet. */
    ghost function CountOf(obj: GameObject): nat
      reads this, registry.Values
    {
      |SpawnedOf(obj)| + |IdleOf(obj)|
    }

    /** A pool's in-use list never repeats an instance. */
    lemma SpawnedNoDup(obj: GameObject)
      requires Valid()
      ensures NoDup(SpawnedOf(obj))
    {
      if obj in registry {
        assert Holds(registry[obj]);
      }
    }

    /** No instance is held by two pools. */
    lemma Exclusive(p: Pool, q: Pool, o: GameObject)
      requires Valid() && p in pools && q in pools
      requires o in p.spawned || o in p.despawned
      requires o in q.spawned || o in q.despawned
      ensures p == q
    {
      assert Holds(p) && Holds(q);
    }

    /** After a spawn from obj's pool that took the pool's first idle object,
        if any, kept every registration and left every other pool alone, each
        object that was idle, other than that first one, is still idle. */
    twostate lemma SpawnKeepsIdle(obj: GameObject)
      requires old(Valid()) && obj in registry
      requires Extends(old(registry), registry)
      requires obj !in old(registry) ==> fresh(registry[obj])
      requires old(IdleOf(obj)) != [] ==> IdleOf(obj) == old(IdleOf(obj))[1..]
      requires old(IdleOf(obj)) == [] ==> IdleOf(obj) == []
      requires forall p :: p in old(pools) && p != registry[obj] ==> unchanged(p)
      ensures forall o :: o in old(registry) && o in old(IdleOf(o)) && (old(IdleOf(obj)) == [] || o != old(IdleOf(obj))[0]) ==>
                o in IdleOf(o)
    {
      forall o | o in old(registry) && o in old(IdleOf(o)) && (old(IdleOf(obj)) == [] || o != old(IdleOf(obj))[0])
        ensures o in IdleOf(o)
      {
        var q := old(registry[o]);
        assert q in old(pools) && registry[o] == q;
        if q == registry[obj] {
          assert old(IdleOf(o)) == old(IdleOf(obj)) && IdleOf(o) == IdleOf(obj);
        } else {
          assert unchanged(q);
        }
      }
    }

    /** After a despawn that only appended to obj's idle list, did not shrink
        obj's pool and left every other pool alone, every idle object is still
        idle and no pool owns fewer instances than before. */
    twostate lemma DespawnKeeps(obj: GameObject)
      requires old(Valid()) && obj in registry
      requires registry == old(registry)[obj := registry[obj]]
      requires obj in old(registry) ==> registry[obj] == old(registry[obj])
      requires obj !in old(registry) ==> fresh(registry[obj])
      requires CountOf(obj) >= old(CountOf(obj))
      requires old(IdleOf(obj)) <= IdleOf(obj)
      requires forall p :: p in old(pools) && p != registry[obj] ==> unchanged(p)
      ensures forall o :: o in old(registry) && o in old(IdleOf(o)) ==> o in IdleOf(o)
      ensures forall o :: o in old(registry) ==> CountOf(o) >= old(CountOf(o))
    {
      forall o | o in old(registry)
        ensures o in old(IdleOf(o)) ==> o in IdleOf(o)
        ensures CountOf(o) >= old(CountOf(o))
      {
        var q := old(registry[o]);
        assert q in old(pools) && registry[o] == q;
        if q == registry[obj] {
          assert old(CountOf(o)) == old(CountOf(obj)) && CountOf(o) == CountOf(obj);
          assert old(IdleOf(o)) == old(IdleOf(obj)) && IdleOf(o) == IdleOf(obj);
        } else {
          assert unchanged(q);
        }
      }
    }

    /** GetPool(obj): the first call for obj creates, initialises and
        registers a pool; every later call returns that same pool. */
    method GetPool(obj: GameObject) returns (pool: Pool)
      requires Valid()
      modifies this
      ensures Valid() && fresh(Repr - old(Repr))
      ensures obj in registry && pool == registry[obj] && pool in pools
      ensures registry == old(registry)[obj := pool] && Extends(old(registry), registry)
      ensures obj in old(registry) ==>
                pool == old(registry[obj]) && registry == old(registry)
                && pools == old(pools) && Repr == old(Repr)
      ensures obj !in old(registry) ==>
                fresh(pool) && pool.prefab == obj && pool.spawned == [] && pool.despawned == []
                && registry == old(registry)[obj := pool] && pools == old(pools) + [pool]
                && Repr == old(Repr) + {pool}
    {
      if obj !in registry {
        var p := new Pool();
        p.Init(obj);
        forall q | q in pools
          ensures HoldsIn(registry[obj := p], q)
        {
          HoldsExtend(registry, q, obj, p);
        }
        registry := registry[obj := p];
        pools := pools + [p];
        Repr := Repr + {p};
      }
      pool := registry[obj];
      ExtendsUpdate(old(registry), obj, pool);
    }
  }
}

/** PoolingUtils: the extension methods game code calls. The Component
    overloads act on obj.gameObject and are the same operations here. */
module PoolingUtils {
  import opened Engine
  import opened Sequences
  import Pooling

  /** Spawn(obj): the first idle instance of obj's pool, or a new one when
      none is idle (always so for a pool created by this call), put to use. */
  method Spawn(pooler: Pooling.Pooler, obj: GameObject) returns (instance: GameObject)
    requires pooler.Valid()
    modifies pooler, pooler.Repr
    ensures pooler.Valid() && fresh(pooler.Repr - old(pooler.Repr))
    ensures obj in pooler.registry && instance in pooler.registry
    ensures pooler.registry[instance] == pooler.registry[obj]
    ensures obj in old(pooler.registry) ==> pooler.registry[obj] == old(pooler.registry[obj])
    ensures pooler.SpawnedOf(obj) == old(pooler.SpawnedOf(obj)) + [instance]
    ensures instance !in pooler.IdleOf(obj)
    ensures old(pooler.IdleOf(obj)) != [] ==>
              instance == old(pooler.IdleOf(obj))[0] && pooler.IdleOf(obj) == old(pooler.IdleOf(obj))[1..]
    ensures old(pooler.IdleOf(obj)) == [] ==> fresh(instance) && pooler.IdleOf(obj) == []
    ensures pooler.registry == old(pooler.registry)[obj := pooler.registry[obj]][instance := pooler.registry[obj]]
    ensures obj in old(pooler.registry) ==> pooler.pools == old(pooler.pools)
    ensures obj !in old(pooler.registry) ==> pooler.pools == old(pooler.pools) + [pooler.registry[obj]]
    ensures obj !in old(pooler.registry) ==> fresh(pooler.registry[obj])
    ensures forall p :: p in old(pooler.pools) && p != pooler.registry[obj] ==> unchanged(p)
    ensures forall o :: o in old(pooler.registry) && o in old(pooler.IdleOf(o)) && o != instance ==> o in pooler.IdleOf(o)
  {
    var pool := pooler.GetPool(obj);
    ghost var busy, idle, mid := pool.spawned, pool.despawned, pooler.registry;
    assert busy == old(pooler.SpawnedOf(obj)) && idle == old(pooler.IdleOf(obj));
    instance := pool.Spawn(pooler);
    assert pooler.SpawnedOf(obj) == pool.spawned && pooler.IdleOf(obj) == pool.despawned;
    Pooling.ExtendsTrans(old(pooler.registry), mid, pooler.registry);
    pooler.SpawnKeepsIdle(obj);
  }

  /** Despawn(obj): null is ignored; otherwise obj goes idle in its pool. */
  method Despawn(pooler: Pooling.Pooler, obj: GameObject?)
    requires pooler.Valid()
    modifies pooler, pooler.Repr
    ensures pooler.Valid() && fresh(pooler.Repr - old(pooler.Repr))
    ensures obj == null || obj in old(pooler.registry) ==>
              pooler.registry == old(pooler.registry) && pooler.pools == old(pooler.pools)
    ensures obj != null ==> obj in pooler.registry && pooler.registry == old(pooler.registry)[obj := pooler.registry[obj]]
    ensures obj != null && obj !in old(pooler.registry) ==> pooler.pools == old(pooler.pools) + [pooler.registry[obj]]
    ensures obj != null ==> obj in pooler.IdleOf(obj) && obj !in pooler.SpawnedOf(obj)
    ensures obj != null && obj in old(pooler.IdleOf(obj)) ==>
              pooler.IdleOf(obj) == old(pooler.IdleOf(obj)) && pooler.SpawnedOf(obj) == old(pooler.SpawnedOf(obj))
    ensures obj != null && obj !in old(pooler.IdleOf(obj)) ==>
              pooler.IdleOf(obj) == old(pooler.IdleOf(obj)) + [obj]
              && pooler.SpawnedOf(obj) == RemoveFirst<GameObject>(old(pooler.SpawnedOf(obj)), obj)
    ensures forall o :: o in old(pooler.registry) && o in old(pooler.IdleOf(o)) ==> o in pooler.IdleOf(o)
    ensures forall p :: p in old(pooler.pools) && (obj == null || p != pooler.registry[obj]) ==> unchanged(p)
    ensures obj != null && obj !in old(pooler.registry) ==> fresh(pooler.registry[obj])
    ensures obj != null ==> pooler.CountOf(obj) >= old(pooler.CountOf(obj))
    ensures forall o :: o in old(pooler.registry) ==> pooler.CountOf(o) >= old(pooler.CountOf(o))
  {
    if obj == null {
      return;
    }
    var target: GameObject := obj;
    var pool := pooler.GetPool(target);
    ghost var busy, idle, owned := pool.spawned, pool.despawned, pool.Count();
    assert busy == old(pooler.SpawnedOf(target)) && idle == old(pooler.IdleOf(target));
    assert owned == old(pooler.CountOf(target));
    pool.Despawn(target);
    pooler.PoolAdded(pool, target);
    assert pooler.SpawnedOf(target) == pool.spawned && pooler.IdleOf(target) == pool.despawned;
    assert pooler.CountOf(target) == pool.Count() >= owned && idle <= pool.despawned;
    pooler.DespawnKeeps(target);
  }

  /** Pool(obj, count): tops obj's pool up with
      Clamp(count - Count, 0, count) idle instances, so that it owns at
      least count of them; the spawned list is untouched. */
  method Pool(pooler: Pooling.Pooler, obj: GameObject, count: int)
    requires pooler.Valid()
    modifies pooler, pooler.Repr
    ensures pooler.Valid() && fresh(pooler.Repr - old(pooler.Repr))
    ensures obj in pooler.registry
    ensures obj in old(pooler.registry) ==> pooler.registry[obj] == old(pooler.registry[obj]) && pooler.pools == old(pooler.pools)
    ensures obj !in old(pooler.registry) ==> pooler.pools == old(pooler.pools) + [pooler.registry[obj]]
    ensures pooler.SpawnedOf(obj) == old(pooler.SpawnedOf(obj))
    ensures pooler.registry[obj].Count() == Max(|old(pooler.SpawnedOf(obj))| + |old(pooler.IdleOf(obj))|, count)
    ensures old(pooler.IdleOf(obj)) <= pooler.IdleOf(obj)
    ensures forall k :: |old(pooler.IdleOf(obj))| <= k < |pooler.IdleOf(obj)| ==> fresh(pooler.IdleOf(obj)[k])
    ensures Pooling.Extends(old(pooler.registry), pooler.registry)
    ensures forall p :: p in old(pooler.pools) && p != pooler.registry[obj] ==> unchanged(p)
  {
    var pool := pooler.GetPool(obj);
    ghost var busy, idle := pool.spawned, pool.despawned;
    assert busy == old(pooler.SpawnedOf(obj)) && idle == old(pooler.IdleOf(obj));
    assert Pooling.Extends(old(pooler.registry), pooler.registry);
    pool.Create(Clamp(count - pool.Count(), 0, count), pooler);
    assert pooler.SpawnedOf(obj) == pool.spawned && pooler.IdleOf(obj) == pool.despawned;
  }

  function Max(a: int, b: int): int
  {
    if a < b then b else a
  }
}
