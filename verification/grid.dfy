/** GridGeneratorUI: a rows x cols grid of card objects taken from the pool.
    Only the bookkeeping of the active list and the clamped dimensions is
    modelled; layout, cell sizes and the IGridItem callbacks are engine work. */
module Grid {
  import opened Engine
  import opened Sequences
  import Pooling
  import PoolingUtils

  /** The bounds both setters and SetSize clamp to. */
  const MinSize: int := 2
  const MaxSize: int := 10

  /** Every object of s from index j on is registered and idle in its pool. */
  ghost predicate IdleFrom(pooler: Pooling.Pooler, s: seq<GameObject>, j: int)
    reads pooler, pooler.registry.Values
  {
    forall k :: 0 <= j <= k < |s| ==> s[k] in pooler.registry && s[k] in pooler.IdleOf(s[k])
  }

  /** Every object of s that is not in taken is registered and idle in its
      pool. */
  ghost predicate IdleUnlessIn(pooler: Pooling.Pooler, s: seq<GameObject>, taken: seq<GameObject>)
    reads pooler, pooler.registry.Values
  {
    forall k :: 0 <= k < |s| && s[k] !in taken ==> s[k] in pooler.registry && s[k] in pooler.IdleOf(s[k])
  }

  /** cards holds count distinct instances of prefab's pool, all of them in
      use. */
  ghost predicate Dealt(pooler: Pooling.Pooler, prefab: GameObject, cards: seq<GameObject>, count: int)
    reads pooler, pooler.registry.Values
  {
    && prefab in pooler.registry
    && |cards| == count
    && NoDup(cards)
    && (forall k :: 0 <= k < |cards| ==> cards[k] in pooler.SpawnedOf(prefab))
  }

  /** What a pool's in-use list gained is a Dealt list of its own length. */
  lemma DealtFrom(pooler: Pooling.Pooler, prefab: GameObject, base: seq<GameObject>, cards: seq<GameObject>)
    requires pooler.Valid() && prefab in pooler.registry && pooler.SpawnedOf(prefab) == base + cards
    ensures Dealt(pooler, prefab, cards, |cards|)
  {
    pooler.SpawnedNoDup(prefab);
    NoDupSuffix(base, cards);
  }

  class GridGeneratorUI {
    /** _rows, _cols */
    var rows: int
    var cols: int
    /** _active: the card objects currently laid out. */
    var active: seq<GameObject>
    /** Pooler.Instance, which every Spawn and Despawn goes through. */
    const pooler: Pooling.Pooler
    const cardPrefab: GameObject
    /** The number of items pooled at Start. */
    const prewarm: int

    /** Everything the grid may change. */
    ghost function Footprint(): set<object>
      reads this, pooler
    {
      {this, pooler} + pooler.Repr
    }

    /** Both dimensions lie in [MinSize, MaxSize]. */
    predicate InBounds()
      reads this
    {
      MinSize <= rows <= MaxSize && MinSize <= cols <= MaxSize
    }

    ghost predicate Valid()
      reads this, pooler, pooler.Repr
    {
      InBounds() && pooler.Valid() && this !in pooler.Repr
    }

    /** The active list holds rows x cols distinct instances of the card
        pool, all of them in use (and so, by Pooler.Valid, registered to
        that pool). */
    ghost predicate Built()
      reads this, pooler, pooler.registry.Values
    {
      Dealt(pooler, cardPrefab, active, rows * cols)
    }

    /** Field initialisers: a 2 x 2 grid with nothing laid out. */
    constructor (pooler: Pooling.Pooler, cardPrefab: GameObject, prewarm: int)
      requires pooler.Valid()
      ensures Valid() && rows == 2 && cols == 2 && active == []
      ensures this.pooler == pooler && this.cardPrefab == cardPrefab && this.prewarm == prewarm
    {
      rows := 2;
      cols := 2;
      active := [];
      this.pooler := pooler;
      this.cardPrefab := cardPrefab;
      this.prewarm := prewarm;
    }

    /** Start(): pools prewarm cards when prewarm > 0, then lays out the grid. */
    method Start()
      requires Valid()
      modifies this, pooler, pooler.Repr
      ensures Valid() && Built() && fresh(pooler.Repr - old(pooler.Repr))
      ensures rows == old(rows) && cols == old(cols)
      ensures prewarm > 0 ==> pooler.CountOf(cardPrefab) >= prewarm
    {
      if prewarm > 0 {
        Prewarm();
      }
      Rebuild();
    }

    /** The prewarm step of Start: the card pool owns at least prewarm
        instances afterwards. */
    method Prewarm()
      requires Valid() && prewarm > 0
      modifies pooler, pooler.Repr
      ensures Valid() && fresh(pooler.Repr - old(pooler.Repr))
      ensures pooler.CountOf(cardPrefab) >= prewarm
    {
      PoolingUtils.Pool(pooler, cardPrefab, prewarm);
    }

    /** The Rows setter: clamps, and rebuilds only when the value changes. */
    method SetRows(value: int)
      requires Valid()
      modifies this, pooler, pooler.Repr
      ensures Valid() && fresh(pooler.Repr - old(pooler.Repr))
      ensures rows == Clamp(value, MinSize, MaxSize) && cols == old(cols)
      ensures rows == old(rows) ==> unchanged(this, pooler) && (forall p :: p in pooler.pools ==> unchanged(p))
      ensures rows != old(rows) ==> Built()
    {
      var v := Clamp(value, MinSize, MaxSize);
      if rows != v {
        rows := v;
        Rebuild();
      }
    }

    /** The Cols setter: clamps, and rebuilds only when the value changes. */
    method SetCols(value: int)
      requires Valid()
      modifies this, pooler, pooler.Repr
      ensures Valid() && fresh(pooler.Repr - old(pooler.Repr))
      ensures cols == Clamp(value, MinSize, MaxSize) && rows == old(rows)
      ensures cols == old(cols) ==> unchanged(this, pooler) && (forall p :: p in pooler.pools ==> unchanged(p))
      ensures cols != old(cols) ==> Built()
    {
      var v := Clamp(value, MinSize, MaxSize);
      if cols != v {
        cols := v;
        Rebuild();
      }
    }

    /** SetSize(cols, rows): clamps both and always rebuilds. */
    method SetSize(cols: int, rows: int)
      requires Valid()
      modifies this, pooler, pooler.Repr
      ensures Valid() && Built() && fresh(pooler.Repr - old(pooler.Repr))
      ensures this.cols == Clamp(cols, MinSize, MaxSize) && this.rows == Clamp(rows, MinSize, MaxSize)
    {
      this.cols := Clamp(cols, MinSize, MaxSize);
      this.rows := Clamp(rows, MinSize, MaxSize);
      Rebuild();
    }

    /** GetSize(): columns first, then rows. */
    function GetSize(): (size: (int, int))
      requires InBounds()
      reads this
      ensures size.0 == cols && size.1 == rows
      ensures MinSize <= size.0 <= MaxSize && MinSize <= size.1 <= MaxSize
    {
      (cols, rows)
    }

    /** Rebuild(): every active object goes back to its pool, then
        rows x cols cards are spawned into the active list. */
    method Rebuild()
      requires Valid()
      modifies this, pooler, pooler.Repr
      ensures Valid() && Built() && fresh(pooler.Repr - old(pooler.Repr))
      ensures rows == old(rows) && cols == old(cols)
      ensures pooler.CountOf(cardPrefab) >= old(pooler.CountOf(cardPrefab))
      ensures forall o :: o in old(active) && o !in active ==> o in pooler.IdleOf(o)
    {
      ghost var cards := active;
      DespawnActive();
      SpawnActive(cards);
    }

    /** The first half of Rebuild: despawns the active objects, last first.
        The list itself is cleared by SpawnActive, which replaces it. */
    method DespawnActive()
      requires Valid()
      modifies pooler, pooler.Repr
      ensures Valid() && fresh(pooler.Repr - old(pooler.Repr))
      ensures IdleFrom(pooler, active, 0)
      ensures pooler.CountOf(cardPrefab) >= old(pooler.CountOf(cardPrefab))
    {
      var i := |active| - 1;
      while i >= 0
        invariant -1 <= i < |active|
        invariant Valid() && fresh(pooler.Repr - old(pooler.Repr))
        invariant IdleFrom(pooler, active, i + 1)
        invariant pooler.CountOf(cardPrefab) >= old(pooler.CountOf(cardPrefab))
      {
        Release(active[i], active, i);
        i := i - 1;
      }
    }

    /** One Despawn of DespawnActive, seen from the grid: cards[i] joins the
        idle objects after it and the card pool does not shrink. */
    method Release(obj: GameObject, ghost cards: seq<GameObject>, ghost i: int)
      requires Valid() && 0 <= i < |cards| && obj == cards[i] && IdleFrom(pooler, cards, i + 1)
      modifies pooler, pooler.Repr
      ensures Valid() && fresh(pooler.Repr - old(pooler.Repr))
      ensures IdleFrom(pooler, cards, i)
      ensures pooler.CountOf(cardPrefab) >= old(pooler.CountOf(cardPrefab))
    {
      PoolingUtils.Despawn(pooler, obj);
    }

    /** The second half of Rebuild: replaces the active list by rows x cols
        freshly spawned cards; of the idle cards, only those handed out again
        stop being idle. */
    method SpawnActive(ghost cards: seq<GameObject>)
      requires Valid() && IdleFrom(pooler, cards, 0)
      modifies this, pooler, pooler.Repr
      ensures Valid() && Built() && fresh(pooler.Repr - old(pooler.Repr))
      ensures rows == old(rows) && cols == old(cols)
      ensures pooler.CountOf(cardPrefab) >= old(pooler.CountOf(cardPrefab))
      ensures IdleUnlessIn(pooler, cards, active)
    {
      var spawned := SpawnCards(rows * cols, cards);
      active := spawned;
    }

    /** The loop of SpawnActive: count cards spawned in order, all distinct
        and all in use. The grid always asks for at least MinSize x MinSize. */
    method SpawnCards(count: nat, ghost cards: seq<GameObject>) returns (spawned: seq<GameObject>)
      requires Valid() && count > 0 && IdleFrom(pooler, cards, 0)
      modifies pooler, pooler.Repr
      ensures Valid() && fresh(pooler.Repr - old(pooler.Repr))
      ensures Dealt(pooler, cardPrefab, spawned, count)
      ensures pooler.CountOf(cardPrefab) >= old(pooler.CountOf(cardPrefab))
      ensures IdleUnlessIn(pooler, cards, spawned)
    {
      ghost var base, floor := pooler.SpawnedOf(cardPrefab), pooler.CountOf(cardPrefab);
      spawned := [];
      var i := 0;
      while i < count
        invariant 0 <= i <= count && |spawned| == i
        invariant Valid() && fresh(pooler.Repr - old(pooler.Repr))
        invariant Dealing(base, cards, spawned, floor)
      {
        var go := Take(base, cards, spawned, floor);
        spawned := spawned + [go];
        i := i + 1;
      }
      DealtFrom(pooler, cardPrefab, base, spawned);
    }

    /** The state SpawnCards keeps: the card pool's in-use list is what it
        was plus the cards spawned so far, the pool has not shrunk below
        floor, and every card of cards not handed out again is still idle. */
    ghost predicate Dealing(base: seq<GameObject>, cards: seq<GameObject>, spawned: seq<GameObject>, floor: nat)
      reads this, pooler, pooler.registry.Values
    {
      && (spawned != [] ==> cardPrefab in pooler.registry)
      && pooler.SpawnedOf(cardPrefab) == base + spawned
      && pooler.CountOf(cardPrefab) >= floor
      && IdleUnlessIn(pooler, cards, spawned)
    }

    /** One Spawn of SpawnCards: go joins the card pool's in-use list, the
        pool does not shrink, and every other idle card stays idle. */
    method Take(ghost base: seq<GameObject>, ghost cards: seq<GameObject>, ghost spawned: seq<GameObject>, ghost floor: nat)
      returns (go: GameObject)
      requires Valid() && Dealing(base, cards, spawned, floor)
      modifies pooler, pooler.Repr
      ensures Valid() && fresh(pooler.Repr - old(pooler.Repr))
      ensures Dealing(base, cards, spawned + [go], floor)
    {
      go := PoolingUtils.Spawn(pooler, cardPrefab);
    }
  }
}
