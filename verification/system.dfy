/** System ids of BrewTools: every `System<T>` gets the static id
    `++ProtoSystem::GetSysIDCount()` when its static member is initialised,
    from one zero-initialised `unsigned` counter shared by all systems.

    Which type is initialised first is up to the C++ runtime, so the order
    of initialisation is an input (`order`, each type once) and the
    properties are stated relative to that order. */
module SystemIds {
  import opened Types

  /** The static `systemidcount`. */
  datatype Counter = Counter(value: Unsigned)

  /** Each system type appears at most once: a static member is initialised
      once per template instantiation. */
  predicate Distinct<T(==)>(order: seq<T>) {
    forall i, j :: 0 <= i < j < |order| ==> order[i] != order[j]
  }

  /** The counter before any id is handed out: a static `unsigned` is
      zero-initialised. */
  function InitialCounter(): (c: Counter)
    ensures c.value == 0
  {
    Counter(0)
  }

  /** `GetSysIDCount()` hands out a reference to the one counter: it is the
      counter itself, unchanged, whoever calls it. */
  function GetSysIdCount(c: Counter): (r: Counter)
    ensures r == c
  {
    c
  }

  /** `n` truncated to an `unsigned`: what is left after taking away whole
      multiples of 2^32. */
  function Wrap(n: nat): (w: Unsigned)
    decreases n
  {
    if n < UINT_RANGE then n as Unsigned else Wrap(n - UINT_RANGE)
  }

  /** `Wrap` is reduction modulo 2^32. */
  lemma {:induction false} WrapIsModulo(n: nat)
    ensures Wrap(n) as int == n % UINT_RANGE
    decreases n
  {
    if n >= UINT_RANGE {
      WrapIsModulo(n - UINT_RANGE);
    }
  }

  lemma WrapSmall(n: nat)
    requires n < UINT_RANGE
    ensures Wrap(n) as int == n
  {
  }

  /** Truncation commutes with stepping by one, which wraps at `UINT_MAX`. */
  lemma {:induction false} WrapSucc(n: nat)
    ensures Wrap(n + 1) == if Wrap(n) == UINT_MAX then 0 else Wrap(n) + 1
    decreases n
  {
    if n + 1 < UINT_RANGE {
    } else if n < UINT_RANGE {
      assert Wrap(n + 1) == Wrap(0);
    } else {
      WrapSucc(n - UINT_RANGE);
    }
  }

  /** Incrementing a truncated value and truncating again is truncating once. */
  lemma WrapIncrement(n: nat)
    ensures Wrap(Wrap(n) as nat + 1) == Wrap(n + 1)
  {
    WrapSmall(Wrap(n) as nat);
    WrapSucc(Wrap(n) as nat);
    WrapSucc(n);
  }

  /** `++GetSysIDCount()` on a 32-bit `unsigned`: the counter steps by one
      modulo 2^32 and the expression's value is the counter's new value. */
  function PreIncrement(c: Counter): (r: (Counter, Unsigned))
    ensures r.1 == r.0.value
    ensures r.0.value == Wrap(c.value as nat + 1)
  {
    WrapSmall(c.value as nat);
    WrapSucc(c.value as nat);
    var next := if c.value == UINT_MAX then 0 else c.value + 1;
    (Counter(next), next)
  }

  /** The ids handed out and the counter left behind. */
  datatype Allocation<T> = Allocation(ids: map<T, Unsigned>, counter: Counter)

  /** What initialising `order` from `c` leaves: the counter advanced by
      `|order|`, and the `i`-th type holding the counter's `i+1`-th value. */
  ghost predicate AllocatedFrom<T>(order: seq<T>, c: Counter, a: Allocation<T>) {
    && a.counter.value == Wrap(c.value as nat + |order|)
    && a.ids.Keys == (set t | t in order)
    && forall i :: 0 <= i < |order| ==> a.ids[order[i]] == Wrap(c.value as nat + i + 1)
  }

  lemma KeysExtend<T>(prefix: seq<T>, last: T, keys: set<T>)
    requires keys == set t | t in prefix
    ensures keys + {last} == set t | t in prefix + [last]
  {
  }

  lemma IdsExtend<T>(order: seq<T>, c: Counter, prev: map<T, Unsigned>, id: Unsigned)
    requires |order| > 0 && Distinct(order)
    requires forall i :: 0 <= i < |order| - 1 ==>
               order[i] in prev && prev[order[i]] == Wrap(c.value as nat + i + 1)
    requires id == Wrap(c.value as nat + |order|)
    ensures forall i :: 0 <= i < |order| ==>
              prev[order[|order| - 1] := id][order[i]] == Wrap(c.value as nat + i + 1)
  {
    var n := |order| - 1;
    forall i | 0 <= i < |order|
      ensures prev[order[n] := id][order[i]] == Wrap(c.value as nat + i + 1)
    {
      if i < n {
        assert order[i] != order[n];
        assert prev[order[n] := id][order[i]] == prev[order[i]];
      }
    }
  }

  /** One more pre-increment extends an allocation by the next type. */
  lemma ExtendAllocation<T>(order: seq<T>, c: Counter, prev: Allocation<T>, step: (Counter, Unsigned))
    requires |order| > 0 && Distinct(order)
    requires AllocatedFrom(order[..|order| - 1], c, prev)
    requires step == PreIncrement(GetSysIdCount(prev.counter))
    ensures AllocatedFrom(order, c, Allocation(prev.ids[order[|order| - 1] := step.1], step.0))
  {
    var n := |order| - 1;
    WrapIncrement(c.value as nat + n);
    assert order == order[..n] + [order[n]];
    KeysExtend(order[..n], order[n], prev.ids.Keys);
    IdsExtend(order, c, prev.ids, step.1);
  }

  /** Initialising `System<T>::id` for the types of `order`, in that order,
      starting from counter `c`. */
  function Allocate<T(==)>(order: seq<T>, c: Counter): (a: Allocation<T>)
    requires Distinct(order)
    ensures a.counter.value == Wrap(c.value as nat + |order|)
    ensures a.ids.Keys == set t | t in order
    ensures forall i :: 0 <= i < |order| ==> a.ids[order[i]] == Wrap(c.value as nat + i + 1)
    decreases |order|
  {
    if |order| == 0 then
      WrapSmall(c.value as nat);
      Allocation(map[], c)
    else
      var n := |order| - 1;
      var prev := Allocate(order[..n], c);
      var step := PreIncrement(GetSysIdCount(prev.counter));
      ExtendAllocation(order, c, prev, step);
      Allocation(prev.ids[order[n] := step.1], step.0)
  }

  /** After `n` allocations from the zero counter the counter holds `n`. */
  lemma CounterCountsAllocations<T>(order: seq<T>)
    requires Distinct(order)
    requires |order| < UINT_RANGE
    ensures Allocate(order, InitialCounter()).counter.value as int == |order|
  {
    WrapSmall(|order|);
  }

  /** Every id is at least 1 while the counter has not wrapped. */
  lemma IdsPositive<T>(order: seq<T>)
    requires Distinct(order)
    requires |order| < UINT_RANGE
    ensures forall t :: t in Allocate(order, InitialCounter()).ids ==>
              Allocate(order, InitialCounter()).ids[t] >= 1
  {
    var a := Allocate(order, InitialCounter());
    forall t | t in a.ids
      ensures a.ids[t] >= 1
    {
      var i :| 0 <= i < |order| && order[i] == t;
      WrapSmall(i + 1);
    }
  }

  /** Ids increase strictly in initialisation order. */
  lemma IdsIncreasing<T>(order: seq<T>, c: Counter, i: int, j: int)
    requires Distinct(order)
    requires c.value as int + |order| < UINT_RANGE
    requires 0 <= i < j < |order|
    ensures Allocate(order, c).ids[order[i]] < Allocate(order, c).ids[order[j]]
  {
    WrapSmall(c.value as nat + i + 1);
    WrapSmall(c.value as nat + j + 1);
  }

  /** Distinct system types get distinct ids while the counter has not
      wrapped. */
  lemma IdsDistinct<T>(order: seq<T>, c: Counter, s: T, u: T)
    requires Distinct(order)
    requires c.value as int + |order| < UINT_RANGE
    requires s in order && u in order && s != u
    ensures Allocate(order, c).ids[s] != Allocate(order, c).ids[u]
  {
    var i :| 0 <= i < |order| && order[i] == s;
    var j :| 0 <= j < |order| && order[j] == u;
    if i < j {
      IdsIncreasing(order, c, i, j);
    } else {
      IdsIncreasing(order, c, j, i);
    }
  }

  /** Ids already handed out do not change when later types are initialised.
      The proof is direct; automatic induction is switched off because it
      only adds hypotheses the solver has to wade through. */
  lemma {:induction false} IdsStable<T>(order: seq<T>, later: seq<T>, c: Counter)
    requires Distinct(order + later)
    ensures Distinct(order)
    ensures forall t :: t in Allocate(order, c).ids ==>
              t in Allocate(order + later, c).ids &&
              Allocate(order + later, c).ids[t] == Allocate(order, c).ids[t]
  {
    var all := order + later;
    assert Distinct(order) by {
      forall i, j | 0 <= i < j < |order|
        ensures order[i] != order[j]
      {
        assert order[i] == all[i] && order[j] == all[j];
      }
    }
    forall t | t in Allocate(order, c).ids
      ensures t in Allocate(all, c).ids && Allocate(all, c).ids[t] == Allocate(order, c).ids[t]
    {
      var i :| 0 <= i < |order| && order[i] == t;
      assert all[i] == t;
    }
  }

  /** When the counter is at its maximum the next id is 0: the increment
      wraps, so positivity and distinctness need fewer than 2^32 systems. */
  lemma WrapGivesZero<T>(order: seq<T>)
    requires |order| == 1
    ensures Allocate(order, Counter(UINT_MAX)).ids[order[0]] == 0
  {
  }

  /** An object of a system type; `obj` is its identity (its address). */
  datatype SystemInstance<T> = SystemInstance(kind: T, obj: nat)

  /** `GetID()` at a moment when the first `done` types of `order` have had
      their `id` dynamically initialised. Before that a `static const` of
      a class template holds its zero-initialised value, so a call made
      earlier (from another static initialiser) reads 0; afterwards it reads
      one more than the number of system types initialised before it. */
  function GetId<T(==)>(order: seq<T>, done: nat, s: SystemInstance<T>): (id: Unsigned)
    requires Distinct(order)
    requires |order| < UINT_RANGE
    requires done <= |order|
    ensures s.kind in order[..done] ==> id >= 1
    ensures forall i :: 0 <= i < done && order[i] == s.kind ==> id as int == i + 1
    ensures s.kind !in order[..done] ==> id == 0
  {
    var initialised := order[..done];
    if s.kind in initialised then
      IdsPositive(initialised);
      forall i | 0 <= i < done && order[i] == s.kind
        ensures Allocate(initialised, InitialCounter()).ids[s.kind] as int == i + 1
      {
        assert initialised[i] == order[i];
        WrapSmall(i + 1);
      }
      Allocate(initialised, InitialCounter()).ids[s.kind]
    else
      0
  }

  /** Two objects of one type, distinct or not, report the same id when
      asked at the same moment. */
  lemma SameTypeSameId<T>(order: seq<T>, done: nat, s: SystemInstance<T>, u: SystemInstance<T>)
    requires Distinct(order) && |order| < UINT_RANGE && done <= |order|
    requires s.kind == u.kind
    ensures GetId(order, done, s) == GetId(order, done, u)
  {
  }

  /** Once a type's id is initialised, later initialisations of other types
      do not change what `GetID()` reports for it. */
  lemma IdFixedOnceInitialised<T>(order: seq<T>, d1: nat, d2: nat, s: SystemInstance<T>)
    requires Distinct(order) && |order| < UINT_RANGE
    requires d1 <= d2 <= |order|
    requires s.kind in order[..d1]
    ensures GetId(order, d1, s) == GetId(order, d2, s)
  {
  }

  /** The window before initialisation: a call that runs before the type's
      initialiser reads 0, one that runs after reads its id, so two objects
      of one type can report different ids across that moment. */
  lemma IdReadBeforeInitialisation<T>(order: seq<T>, i: nat, s: SystemInstance<T>, u: SystemInstance<T>)
    requires Distinct(order) && |order| < UINT_RANGE
    requires i < |order| && s.kind == order[i] && u.kind == order[i]
    ensures GetId(order, i, s) == 0
    ensures GetId(order, i + 1, u) as int == i + 1
  {
  }

  /** `ProtoSystem::Update()`: the base implementation does nothing. */
  function ProtoUpdate(c: Counter): (r: Counter)
    ensures r == c
  {
    c
  }

  /** `ProtoSystem::~ProtoSystem()`: the base destructor does nothing. */
  function ProtoDestroy(c: Counter): (r: Counter)
    ensures r == c
  {
    c
  }
}
