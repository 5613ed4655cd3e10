/** The singleton registry `Beans` and the stateful half of `BeanFactory`
    (`createBean`, `getDependencies`, `createBeanInstance`). They form one
    module because `Beans.inject` and `BeanFactory.createBean` call each
    other. The process-wide statics of the original become objects: a
    `Beans` registry, the `LockManager` it shares with the factory, and a
    `Runtime` standing for the JVM's reflective constructor calls. */
module Registry {
  import opened Types
  import opened BeanFactory
  import opened BeanLockManager

  /** One constructed object: its class, the constructor that built it, and
      the arguments that constructor received. */
  datatype Instance = Instance(beanType: TypeId, ctor: Ctor, args: seq<ObjId>)

  /** Whether the user's constructor throws (`Some(cause)`) when called
      with the given arguments. */
  type Invoker = (TypeId, Ctor, seq<ObjId>) -> Option<Cause>

  /** The host side of `Constructor.newInstance`. `invoke` says whether the
      user's constructor throws (`Some(cause)`) for given arguments;
      `objects` logs every object constructed so far, an object's identity
      being its position there. */
  class Runtime {
    const invoke: Invoker
    var objects: seq<Instance>

    constructor (invoke: Invoker)
      ensures this.invoke == invoke && objects == []
    {
      this.invoke := invoke;
      objects := [];
    }

    /** Allocation: the new object is distinct from every earlier one. */
    method Allocate(o: Instance) returns (id: ObjId)
      modifies this
      ensures id == |old(objects)| && objects == old(objects) + [o]
    {
      id := |objects|;
      objects := objects + [o];
    }
  }

  /** No constructor ever throws. */
  ghost predicate NeverThrows(invoke: Invoker)
  {
    forall t, c, a :: invoke(t, c, a).None?
  }

  /** What `createBean` checks, in its order, before it resolves a single
      dependency: validation, constructor selection, the cycle check. */
  ghost function CreationChecks(u: Universe, t: TypeId): Outcome
    requires t in u
  {
    match ValidateBeanType(u, t)
    case Fail(e) => Fail(e)
    case Pass =>
      match GetGreediestConstructor(u, t)
      case Failure(e) => Fail(e)
      case Success(_) => CycleCheck(u, t, {})
  }

  /** The creation checks pass for every type reachable from `t`. */
  ghost predicate ReachableChecksPass(u: Universe, t: TypeId)
  {
    forall p {:trigger IsPath(u, p)} :: IsPath(u, p) && p[0] == t ==> CreationChecks(u, p[|p| - 1]).Pass?
  }

  /** `o` is an instance of `t` made by `t`'s selected constructor, whose
      arguments are, in parameter order, the registry's entries for the
      constructor's parameter types. */
  ghost predicate BuiltFrom(u: Universe, beans: map<TypeId, ObjId>, o: Instance, t: TypeId)
    requires t in u
  {
    && o.beanType == t
    && GetGreediestConstructor(u, t) == Success(o.ctor)
    && Elems(o.ctor.params) <= beans.Keys
    && o.args == Arguments(o.ctor.params, beans)
  }

  /** The keys `beans` has and `before` lacks. */
  ghost function Added(before: map<TypeId, ObjId>, beans: map<TypeId, ObjId>): (r: set<TypeId>)
    ensures forall t {:trigger t in r} :: t in r <==> t in beans && t !in before
  {
    beans.Keys - before.Keys
  }

  /** Every entry of `beans` that `before` lacked holds an object allocated
      at or after position `count`, and built from `beans`'s own entries. */
  ghost predicate NewEntriesBuiltFrom(u: Universe, before: map<TypeId, ObjId>, beans: map<TypeId, ObjId>,
                                      count: nat, objects: seq<Instance>)
  {
    forall t {:trigger t in Added(before, beans)} :: t in Added(before, beans) ==>
      && t in u
      && count <= beans[t] < |objects|
      && BuiltFrom(u, beans, objects[beans[t]], t)
  }

  /** Every type that was removed had all of its dependencies removed too. */
  ghost predicate RemovalClosed(u: Universe, before: map<TypeId, ObjId>, after: map<TypeId, ObjId>)
  {
    forall x {:trigger Deps(u, x)} :: x in u && x in before && x !in after ==>
      forall q :: q in Deps(u, x) ==> q !in after
  }

  /** `x` is reached from one of `roots` along a chain of dependencies that
      stays inside `within`. */
  ghost predicate ReachableWithin(u: Universe, within: set<TypeId>, roots: seq<TypeId>, x: TypeId)
  {
    exists p {:trigger IsPath(u, p)} ::
      && IsPath(u, p) && p[0] in roots && p[|p| - 1] == x
      && forall i :: 0 <= i < |p| ==> p[i] in within
  }

  /** Every type registered since `before` is a dependency, direct or
      transitive, of one of `roots` (or one of them). */
  ghost predicate AddedOnlyFrom(u: Universe, before: map<TypeId, ObjId>, after: map<TypeId, ObjId>,
                                roots: seq<TypeId>)
  {
    forall x {:trigger x in Added(before, after)} :: x in Added(before, after) ==>
      ReachableWithin(u, u.Keys, roots, x)
  }

  /** Every type unregistered since `before` is reached from one of `roots`
      along a chain of types that were all registered in `before`. */
  ghost predicate RemovedOnlyFrom(u: Universe, before: map<TypeId, ObjId>, after: map<TypeId, ObjId>,
                                  roots: seq<TypeId>)
  {
    forall x {:trigger x in Added(after, before)} :: x in Added(after, before) ==>
      ReachableWithin(u, before.Keys, roots, x)
  }

  /** Position `k` of the object log holds the instance of a type that
      `after` has and `before` lacks. */
  ghost predicate HoldsNewEntry(before: map<TypeId, ObjId>, after: map<TypeId, ObjId>, k: nat)
  {
    exists t :: t in Added(before, after) && after[t] == k
  }

  /** Every object logged at a position from `count` up to `n` is the
      instance of a type registered since `before`: nothing is built and
      then dropped. */
  ghost predicate NewObjectsRegistered(before: map<TypeId, ObjId>, after: map<TypeId, ObjId>, count: nat, n: nat)
  {
    forall k {:trigger HoldsNewEntry(before, after, k)} :: count <= k < n ==> HoldsNewEntry(before, after, k)
  }

  /** Every registered type has a selectable constructor. */
  ghost predicate AllSelectable(u: Universe, beans: map<TypeId, ObjId>)
  {
    forall t {:trigger GetGreediestConstructor(u, t)} :: t in beans && t in u ==> GetGreediestConstructor(u, t).Success?
  }

  // ---------------------------------------------------------------------
  // The creation process as functions of the state it works on
  // ---------------------------------------------------------------------

  /** The state a creation reads and changes: the registry's map and the
      object log. */
  datatype Store = Store(beans: map<TypeId, ObjId>, objects: seq<Instance>)

  /** What a step of the creation process returns or throws, and the store
      it leaves behind, on normal and exceptional exit alike. */
  datatype Step<T> = Step(result: Result<T>, store: Store)

  /** `inject` on store `s` while the types in `locks` are being created:
      the registered instance, or else `createBean` and then `put`. An
      exception from `createBean` propagates, and whatever it registered
      before throwing stays registered. */
  ghost function InjectRun(u: Universe, invoke: Invoker, locks: set<TypeId>, t: TypeId, s: Store): (r: Step<ObjId>)
    requires t in u
    decreases |u.Keys - locks|, 1, 0
    ensures IsSubmap(s.beans, r.store.beans) && s.objects <= r.store.objects
    ensures r.result.Success? ==> t in r.store.beans && r.store.beans[t] == r.result.value
  {
    if t in s.beans then Step(Success(s.beans[t]), s)
    else
      var c := CreateBeanRun(u, invoke, locks, t, s);
      match c.result
      case Failure(e) => Step(Failure(e), c.store)
      case Success(o) => Step(Success(o), Store(c.store.beans[t := o], c.store.objects))
  }

  /** `createBean`: a type whose lock is already held is a creation
      conflict; otherwise the `try` block runs with the lock held. */
  ghost function CreateBeanRun(u: Universe, invoke: Invoker, locks: set<TypeId>, t: TypeId, s: Store): (r: Step<ObjId>)
    requires t in u
    decreases |u.Keys - locks|, 0, 0
    ensures IsSubmap(s.beans, r.store.beans) && s.objects <= r.store.objects
  {
    if t in locks then Step(Failure(CreationConflict(t)), s)
    else
      CardinalityStep(u.Keys, locks, t);
      CreateLockedRun(u, invoke, locks + {t}, t, s)
  }

  /** The `try` block of `createBean`: the checks, then construction. */
  ghost function CreateLockedRun(u: Universe, invoke: Invoker, locks: set<TypeId>, t: TypeId, s: Store): (r: Step<ObjId>)
    requires t in u
    decreases |u.Keys - locks|, 4, 0
    ensures IsSubmap(s.beans, r.store.beans) && s.objects <= r.store.objects
  {
    match CreationChecks(u, t)
    case Fail(e) => Step(Failure(e), s)
    case Pass => ConstructRun(u, invoke, locks, t, s)
  }

  /** `getDependencies` and then `createBeanInstance` with the selected
      constructor. */
  ghost function ConstructRun(u: Universe, invoke: Invoker, locks: set<TypeId>, t: TypeId, s: Store): (r: Step<ObjId>)
    requires t in u && GetGreediestConstructor(u, t).Success?
    decreases |u.Keys - locks|, 3, 0
    ensures IsSubmap(s.beans, r.store.beans) && s.objects <= r.store.objects
    ensures r.result.Success? ==> r.result.value == |r.store.objects| - 1
  {
    var ctor := GetGreediestConstructor(u, t).value;
    var d := DepsRun(u, invoke, locks, Deps(u, t), 0, s, map[]);
    match d.result
    case Failure(e) => Step(Failure(e), d.store)
    case Success(deps) =>
      var args := Arguments(ctor.params, deps);
      match invoke(t, ctor, args)
      case Some(cause) => Step(Failure(BeanCreation(t, ctor, cause)), d.store)
      case None => Step(Success(|d.store.objects|), Store(d.store.beans, d.store.objects + [Instance(t, ctor, args)]))
  }

  /** The loop of `getDependencies` from the `i`-th parameter type on, with
      `acc` the map collected so far: each type is injected in turn, and the
      first exception ends the loop with the earlier injections kept. */
  ghost function DepsRun(u: Universe, invoke: Invoker, locks: set<TypeId>, fields: seq<TypeId>, i: nat,
                         s: Store, acc: map<TypeId, ObjId>): (r: Step<map<TypeId, ObjId>>)
    requires i <= |fields| && forall p :: p in fields ==> p in u
    decreases |u.Keys - locks|, 2, |fields| - i
    ensures IsSubmap(s.beans, r.store.beans) && s.objects <= r.store.objects
    ensures r.result.Success? ==> acc.Keys <= r.result.value.Keys
    ensures r.result.Success? ==> forall j :: i <= j < |fields| ==> fields[j] in r.result.value
  {
    if i == |fields| then Step(Success(acc), s)
    else
      var d := InjectRun(u, invoke, locks, fields[i], s);
      match d.result
      case Failure(e) => Step(Failure(e), d.store)
      case Success(o) => DepsRun(u, invoke, locks, fields, i + 1, d.store, acc[fields[i] := o])
  }

  /** The store the loop of `getDependencies` has reached at index `k`,
      having started at index `i` on `s`, when the injections in between
      succeed. */
  ghost function DepsStoreBefore(u: Universe, invoke: Invoker, locks: set<TypeId>, fields: seq<TypeId>,
                                 i: nat, k: nat, s: Store): Store
    requires i <= k <= |fields| && forall p :: p in fields ==> p in u
    decreases k - i
  {
    if i == k then s
    else DepsStoreBefore(u, invoke, locks, fields, i + 1, k, InjectRun(u, invoke, locks, fields[i], s).store)
  }

  /** When the loop of `getDependencies` throws, it does so while injecting
      some parameter type `fields[k]`, and every parameter type before it
      stays registered: nothing is rolled back. */
  lemma {:induction false} DepsFailureKeepsEarlier(u: Universe, invoke: Invoker, locks: set<TypeId>, fields: seq<TypeId>,
                                                  i: nat, s: Store, acc: map<TypeId, ObjId>) returns (k: nat)
    requires i <= |fields| && forall p :: p in fields ==> p in u
    requires DepsRun(u, invoke, locks, fields, i, s, acc).result.Failure?
    ensures i <= k < |fields|
    ensures InjectRun(u, invoke, locks, fields[k], DepsStoreBefore(u, invoke, locks, fields, i, k, s)).result
            == Failure(DepsRun(u, invoke, locks, fields, i, s, acc).result.error)
    ensures forall j :: i <= j < k ==> fields[j] in DepsRun(u, invoke, locks, fields, i, s, acc).store.beans
    decreases |fields| - i
  {
    var d := InjectRun(u, invoke, locks, fields[i], s);
    if d.result.Failure? {
      k := i;
    } else {
      k := DepsFailureKeepsEarlier(u, invoke, locks, fields, i + 1, d.store, acc[fields[i] := d.result.value]);
    }
  }

  class Beans {
    /** `Beans.beans` */
    var beans: map<TypeId, ObjId>
    /** The classes the program can name. */
    const universe: Universe
    const lockManager: LockManager
    const runtime: Runtime

    ghost predicate Valid()
      reads this, runtime
    {
      && beans.Keys <= universe.Keys
      && forall t :: t in beans ==> beans[t] < |runtime.objects|
    }

    /** The registry's map and the object log, as one value. */
    ghost function Snapshot(): Store
      reads this, runtime
    {
      Store(beans, runtime.objects)
    }

    constructor (universe: Universe, lockManager: LockManager, runtime: Runtime)
      ensures this.universe == universe && this.lockManager == lockManager && this.runtime == runtime
      ensures beans == map[] && Valid()
    {
      this.universe := universe;
      this.lockManager := lockManager;
      this.runtime := runtime;
      beans := map[];
    }

    /** `inject`: the registered instance when there is one; otherwise the
        type is created (with its dependencies, recursively) and registered.
        The busy wait on the type's lock is replaced by the precondition that
        it is not locked; `chain` is the ghost list of the types whose
        creation is in progress further up the call stack (empty for a call
        from application code), which is exactly the lock set. */
    method Inject(beanType: TypeId, ghost chain: seq<TypeId>) returns (r: Result<ObjId>)
      requires Valid() && beanType in universe
      requires beanType !in lockManager.locks
      requires lockManager.locks == Elems(chain) && IsPath(universe, chain + [beanType])
      modifies this, lockManager, runtime
      decreases |universe.Keys - lockManager.locks|, 3
      ensures Valid()
      ensures lockManager.locks == old(lockManager.locks)
      ensures IsSubmap(old(beans), beans) && old(runtime.objects) <= runtime.objects
      ensures NewEntriesBuiltFrom(universe, old(beans), beans, old(|runtime.objects|), runtime.objects)
      ensures (beans.Keys - old(beans).Keys) !! lockManager.locks
      ensures AddedOnlyFrom(universe, old(beans), beans, [beanType])
      ensures NewObjectsRegistered(old(beans), beans, old(|runtime.objects|), |runtime.objects|)
      ensures beanType in old(beans) ==>
                r == Success(old(beans)[beanType]) && beans == old(beans) && runtime.objects == old(runtime.objects)
      ensures r.Success? <==> beanType in beans
      ensures r.Success? ==> beans[beanType] == r.value
      ensures beanType !in old(beans) && CreationChecks(universe, beanType).Fail? ==>
                && r == Failure(CreationChecks(universe, beanType).error)
                && beans == old(beans) && runtime.objects == old(runtime.objects)
      ensures ReachableChecksPass(universe, beanType) && NeverThrows(runtime.invoke) ==> r.Success?
      ensures Step(r, Snapshot()) == InjectRun(universe, runtime.invoke, lockManager.locks, beanType, old(Snapshot()))
    {
      var present := Exists(beanType);
      if present {
        return Success(beans[beanType]);
      }
      r := CreateAndRegister(beanType, chain);
    }

    /** The branch of `inject` for a type that is not registered yet:
        `createBean`, then `put`. */
    method CreateAndRegister(beanType: TypeId, ghost chain: seq<TypeId>) returns (r: Result<ObjId>)
      requires Valid() && beanType in universe && beanType !in beans
      requires beanType !in lockManager.locks
      requires lockManager.locks == Elems(chain) && IsPath(universe, chain + [beanType])
      modifies this, lockManager, runtime
      decreases |universe.Keys - lockManager.locks|, 2
      ensures Valid()
      ensures lockManager.locks == old(lockManager.locks)
      ensures IsSubmap(old(beans), beans) && old(runtime.objects) <= runtime.objects
      ensures NewEntriesBuiltFrom(universe, old(beans), beans, old(|runtime.objects|), runtime.objects)
      ensures (beans.Keys - old(beans).Keys) !! lockManager.locks
      ensures AddedOnlyFrom(universe, old(beans), beans, [beanType])
      ensures NewObjectsRegistered(old(beans), beans, old(|runtime.objects|), |runtime.objects|)
      ensures r.Success? <==> beanType in beans
      ensures r.Success? ==> beans[beanType] == r.value
      ensures CreationChecks(universe, beanType).Fail? ==>
                && r == Failure(CreationChecks(universe, beanType).error)
                && beans == old(beans) && runtime.objects == old(runtime.objects)
      ensures ReachableChecksPass(universe, beanType) && NeverThrows(runtime.invoke) ==> r.Success?
      ensures Step(r, Snapshot()) == InjectRun(universe, runtime.invoke, lockManager.locks, beanType, old(Snapshot()))
    {
      var created := CreateBean(this, beanType, chain);
      if created.Failure? {
        return Failure(created.error);
      }
      ghost var mid := beans;
      NewEntriesPut(universe, old(beans), mid, old(|runtime.objects|), runtime.objects,
                    beanType, created.value);
      AddedOnlyFromPut(universe, old(beans), mid, beanType, created.value);
      NewObjectsPut(old(beans), mid, old(|runtime.objects|), beanType, created.value);
      beans := beans[beanType := created.value];
      assert IsSubmap(mid, beans);
      r := Success(created.value);
    }

    /** `exists` */
    method Exists(beanType: TypeId) returns (r: bool)
      ensures r <==> beanType in beans
    {
      r := beanType in beans;
    }

    /** `isCreating`: whether the type's creation lock is held. */
    method IsCreating(beanType: TypeId) returns (r: bool)
      ensures r <==> beanType in lockManager.locks
    {
      r := lockManager.IsLocked(beanType);
    }

    /** `clear`: empties the registry; the lock set is not touched. */
    method Clear()
      modifies this
      ensures Valid()
      ensures beans == map[]
      ensures lockManager.locks == old(lockManager.locks)
    {
      beans := map[];
    }

    /** `remove`: drops the entry for `beanType` only, if there is one. */
    method Remove(beanType: TypeId)
      requires Valid()
      modifies this
      ensures Valid()
      ensures beans == old(beans) - {beanType}
    {
      beans := beans - {beanType};
    }

    /** `removeWithDependencies`: nothing happens for an unregistered type;
        otherwise its entry is dropped and the same is done, recursively, for
        every parameter type of its selected constructor, whether or not
        other beans still use those instances. Selection can throw; the
        exception then propagates with the removals made so far kept. */
    method RemoveWithDependencies(beanType: TypeId) returns (r: Outcome)
      requires Valid() && beanType in universe
      modifies this
      decreases |beans|, 0
      ensures Valid()
      ensures IsSubmap(beans, old(beans))
      ensures beanType !in old(beans) ==> beans == old(beans) && r.Pass?
      ensures beanType !in beans
      ensures r.Pass? ==> RemovalClosed(universe, old(beans), beans)
      ensures RemovedOnlyFrom(universe, old(beans), beans, [beanType])
      ensures AllSelectable(universe, old(beans)) ==> r.Pass?
    {
      var present := Exists(beanType);
      if !present {
        return Pass;
      }
      beans := beans - {beanType};
      var selected := GetGreediestConstructor(universe, beanType);
      if selected.Failure? {
        RemovedOnlyFromHead(universe, old(beans), beans, beanType);
        return Fail(selected.error);
      }
      SubmapSmaller(beans, old(beans), beanType);
      AllSelectableSubmap(universe, old(beans), beans);
      r := RemoveAll(selected.value.params, old(beans) - {beanType});
      RemovedOnlyFromHead(universe, old(beans), beans, beanType);
      if r.Pass? {
        RemovalClosedAdd(universe, old(beans), beans, beanType);
      }
    }

    /** The loop of `removeWithDependencies`: the recursive call on each
        parameter type in turn, stopping at the first exception. What the
        enclosing call removed so far (from `removed`) stays closed. */
    method RemoveAll(ps: seq<TypeId>, ghost removed: map<TypeId, ObjId>) returns (r: Outcome)
      requires Valid() && forall p :: p in ps ==> p in universe
      requires RemovalClosed(universe, removed, beans)
      modifies this
      decreases |beans|, 1
      ensures Valid()
      ensures IsSubmap(beans, old(beans))
      ensures r.Pass? ==> (forall p :: p in ps ==> p !in beans) && RemovalClosed(universe, removed, beans)
      ensures RemovedOnlyFrom(universe, old(beans), beans, ps)
      ensures AllSelectable(universe, old(beans)) ==> r.Pass?
    {
      var i := 0;
      while i < |ps|
        invariant 0 <= i <= |ps|
        invariant Valid()
        invariant IsSubmap(beans, old(beans))
        invariant forall j :: 0 <= j < i ==> ps[j] !in beans
        invariant RemovalClosed(universe, removed, beans)
        invariant RemovedOnlyFrom(universe, old(beans), beans, ps)
        invariant AllSelectable(universe, old(beans)) ==> AllSelectable(universe, beans)
      {
        ghost var before := beans;
        SubmapNotLarger(beans, old(beans));
        var sub := RemoveWithDependencies(ps[i]);
        RemovedOnlyFromCompose(universe, old(beans), before, beans, ps, [ps[i]], ps);
        if sub.Fail? {
          return sub;
        }
        RemovalClosedTrans(universe, removed, before, beans);
        AllSelectableSubmap(universe, before, beans);
        forall j | 0 <= j <= i ensures ps[j] !in beans {
          if j < i {
            assert ps[j] !in before;
          }
        }
        i := i + 1;
      }
      r := Pass;
    }
  }

  /** Removals compose: what two successive removals drop is closed when
      each of them is. */
  lemma RemovalClosedTrans(u: Universe, a: map<TypeId, ObjId>, b: map<TypeId, ObjId>, c: map<TypeId, ObjId>)
    requires RemovalClosed(u, a, b) && RemovalClosed(u, b, c) && IsSubmap(c, b)
    ensures RemovalClosed(u, a, c)
  {
    forall x | x in u && x in a && x !in c
      ensures forall q :: q in Deps(u, x) ==> q !in c
    {
    }
  }

  /** The removed type itself is covered once its own dependencies are gone. */
  lemma RemovalClosedAdd(u: Universe, a: map<TypeId, ObjId>, c: map<TypeId, ObjId>, t: TypeId)
    requires t in u && RemovalClosed(u, a - {t}, c)
    requires forall q :: q in Deps(u, t) ==> q !in c
    ensures RemovalClosed(u, a, c)
  {
    forall x | x in u && x in a && x !in c
      ensures forall q :: q in Deps(u, x) ==> q !in c
    {
      if x != t {
        assert x in a - {t};
      }
    }
  }

  /** A type is reached from itself. */
  lemma ReachableSelf(u: Universe, within: set<TypeId>, t: TypeId)
    requires t in u && t in within
    ensures ReachableWithin(u, within, [t], t)
  {
    assert IsPath(u, [t]);
  }

  /** A reach survives a larger bound and more roots. */
  lemma ReachableWiden(u: Universe, within: set<TypeId>, within': set<TypeId>,
                       roots: seq<TypeId>, roots': seq<TypeId>, x: TypeId)
    requires ReachableWithin(u, within, roots, x) && within <= within'
    requires forall q :: q in roots ==> q in roots'
    ensures ReachableWithin(u, within', roots', x)
  {
    var p :| IsPath(u, p) && p[0] in roots && p[|p| - 1] == x && forall i :: 0 <= i < |p| ==> p[i] in within;
    assert IsPath(u, p) && p[0] in roots';
  }

  /** What a dependency of `t` reaches, `t` reaches. */
  lemma ReachableThroughDep(u: Universe, within: set<TypeId>, t: TypeId, x: TypeId)
    requires t in u && t in within && ReachableWithin(u, within, Deps(u, t), x)
    ensures ReachableWithin(u, within, [t], x)
  {
    var p :| IsPath(u, p) && p[0] in Deps(u, t) && p[|p| - 1] == x && forall i :: 0 <= i < |p| ==> p[i] in within;
    PathCons(u, t, p);
    var q := [t] + p;
    forall i | 0 <= i < |q| ensures q[i] in within {
      if i > 0 { assert q[i] == p[i - 1]; }
    }
    assert IsPath(u, q) && q[0] in [t];
  }

  /** Additions compose: what two successive steps register is reached from
      the roots of either. */
  lemma AddedOnlyFromCompose(u: Universe, b0: map<TypeId, ObjId>, b1: map<TypeId, ObjId>, b2: map<TypeId, ObjId>,
                             r1: seq<TypeId>, r2: seq<TypeId>, r: seq<TypeId>)
    requires AddedOnlyFrom(u, b0, b1, r1) && AddedOnlyFrom(u, b1, b2, r2)
    requires forall q :: q in r1 ==> q in r
    requires forall q :: q in r2 ==> q in r
    ensures AddedOnlyFrom(u, b0, b2, r)
  {
    forall x | x in Added(b0, b2) ensures ReachableWithin(u, u.Keys, r, x) {
      if x in b1 {
        assert x in Added(b0, b1);
        ReachableWiden(u, u.Keys, u.Keys, r1, r, x);
      } else {
        assert x in Added(b1, b2);
        ReachableWiden(u, u.Keys, u.Keys, r2, r, x);
      }
    }
  }

  /** `createBean(t)` registers only what the injection of `t`'s
      dependencies registered; `inject` then adds `t` itself. */
  lemma AddedOnlyFromPut(u: Universe, b0: map<TypeId, ObjId>, b1: map<TypeId, ObjId>, t: TypeId, v: ObjId)
    requires t in u && AddedOnlyFrom(u, b0, b1, [t])
    ensures AddedOnlyFrom(u, b0, b1[t := v], [t])
  {
    forall x | x in Added(b0, b1[t := v]) ensures ReachableWithin(u, u.Keys, [t], x) {
      if x == t {
        ReachableSelf(u, u.Keys, t);
      } else {
        assert x in Added(b0, b1);
      }
    }
  }

  /** What the injection of `t`'s dependencies registers is reached from `t`. */
  lemma AddedOnlyFromDeps(u: Universe, b0: map<TypeId, ObjId>, b1: map<TypeId, ObjId>, t: TypeId)
    requires t in u && AddedOnlyFrom(u, b0, b1, Deps(u, t))
    ensures AddedOnlyFrom(u, b0, b1, [t])
  {
    forall x | x in Added(b0, b1) ensures ReachableWithin(u, u.Keys, [t], x) {
      ReachableThroughDep(u, u.Keys, t, x);
    }
  }

  /** Removals compose, with the chains of the second step running through
      types the first step left registered. */
  lemma RemovedOnlyFromCompose(u: Universe, b0: map<TypeId, ObjId>, b1: map<TypeId, ObjId>, b2: map<TypeId, ObjId>,
                               r1: seq<TypeId>, r2: seq<TypeId>, r: seq<TypeId>)
    requires IsSubmap(b1, b0)
    requires RemovedOnlyFrom(u, b0, b1, r1) && RemovedOnlyFrom(u, b1, b2, r2)
    requires forall q :: q in r1 ==> q in r
    requires forall q :: q in r2 ==> q in r
    ensures RemovedOnlyFrom(u, b0, b2, r)
  {
    forall x | x in Added(b2, b0) ensures ReachableWithin(u, b0.Keys, r, x) {
      if x in b1 {
        assert x in Added(b2, b1);
        ReachableWiden(u, b1.Keys, b0.Keys, r2, r, x);
      } else {
        assert x in Added(b1, b0);
        ReachableWiden(u, b0.Keys, b0.Keys, r1, r, x);
      }
    }
  }

  /** Dropping a registered `t` and then what is reached from its
      dependencies drops only what is reached from `t`. */
  lemma RemovedOnlyFromHead(u: Universe, b0: map<TypeId, ObjId>, b1: map<TypeId, ObjId>, t: TypeId)
    requires t in u && t in b0
    requires RemovedOnlyFrom(u, b0 - {t}, b1, Deps(u, t))
    ensures RemovedOnlyFrom(u, b0, b1, [t])
  {
    forall x | x in Added(b1, b0) ensures ReachableWithin(u, b0.Keys, [t], x) {
      if x == t {
        ReachableSelf(u, b0.Keys, t);
      } else {
        assert x in Added(b1, b0 - {t});
        ReachableWiden(u, (b0 - {t}).Keys, b0.Keys, Deps(u, t), Deps(u, t), x);
        ReachableThroughDep(u, b0.Keys, t, x);
      }
    }
  }

  /** Objects logged in two successive steps are held by entries the two
      steps added together. */
  lemma NewObjectsCompose(b0: map<TypeId, ObjId>, b1: map<TypeId, ObjId>, b2: map<TypeId, ObjId>,
                          c0: nat, c1: nat, c2: nat)
    requires IsSubmap(b0, b1) && IsSubmap(b1, b2) && c0 <= c1
    requires NewObjectsRegistered(b0, b1, c0, c1) && NewObjectsRegistered(b1, b2, c1, c2)
    ensures NewObjectsRegistered(b0, b2, c0, c2)
  {
    forall k | c0 <= k < c2 ensures HoldsNewEntry(b0, b2, k) {
      if k < c1 {
        assert HoldsNewEntry(b0, b1, k);
        var t :| t in Added(b0, b1) && b1[t] == k;
        assert t in Added(b0, b2);
      } else {
        assert HoldsNewEntry(b1, b2, k);
        var t :| t in Added(b1, b2) && b2[t] == k;
        assert t in Added(b0, b2);
      }
    }
  }

  /** Registering the object just built makes every logged object held. */
  lemma NewObjectsPut(b0: map<TypeId, ObjId>, b1: map<TypeId, ObjId>, c0: nat, t: TypeId, v: nat)
    requires IsSubmap(b0, b1) && t !in b1 && NewObjectsRegistered(b0, b1, c0, v)
    ensures NewObjectsRegistered(b0, b1[t := v], c0, v + 1)
  {
    var b2 := b1[t := v];
    forall k | c0 <= k < v + 1 ensures HoldsNewEntry(b0, b2, k) {
      if k == v {
        assert t in Added(b0, b2);
      } else {
        assert HoldsNewEntry(b0, b1, k);
        var x :| x in Added(b0, b1) && b1[x] == k;
        assert x in Added(b0, b2);
      }
    }
  }

  lemma SubmapNotLarger(m: map<TypeId, ObjId>, m': map<TypeId, ObjId>)
    requires IsSubmap(m, m')
    ensures |m| <= |m'|
  {
    assert m.Keys <= m'.Keys;
    if m.Keys != m'.Keys {
      SubsetSmaller(m.Keys, m'.Keys);
    }
  }

  /** Selection keeps succeeding on whatever is left of a registry. */
  lemma AllSelectableSubmap(u: Universe, m: map<TypeId, ObjId>, m': map<TypeId, ObjId>)
    requires IsSubmap(m', m)
    ensures AllSelectable(u, m) ==> AllSelectable(u, m')
  {
  }

  lemma SubmapSmaller(m: map<TypeId, ObjId>, m': map<TypeId, ObjId>, k: TypeId)
    requires m.Keys <= m'.Keys - {k} && k in m'
    ensures |m| < |m'|
  {
    assert m.Keys < m'.Keys;
    SubsetSmaller(m.Keys, m'.Keys);
  }

  lemma {:induction false} SubsetSmaller(a: set<TypeId>, b: set<TypeId>)
    requires a < b
    ensures |a| < |b|
    decreases |b|
  {
    assert exists x :: x in b && x !in a;
    var x :| x in b && x !in a;
    if a != b - {x} {
      SubsetSmaller(a, b - {x});
    }
  }

  /** A chain of registered types that starts at a removed type is removed
      in full: `removeWithDependencies` reaches the transitive dependencies. */
  lemma {:induction false} RemovedChainsGone(u: Universe, before: map<TypeId, ObjId>, after: map<TypeId, ObjId>,
                                             p: seq<TypeId>)
    requires RemovalClosed(u, before, after)
    requires IsPath(u, p) && p[0] !in after
    requires forall i :: 0 <= i < |p| ==> p[i] in before
    ensures forall i :: 0 <= i < |p| ==> p[i] !in after
    decreases |p|
  {
    if |p| > 1 {
      var rest := p[1..];
      PathSuffix(u, p, 1);
      RemovedChainsGone(u, before, after, rest);
      forall i | 0 <= i < |p| ensures p[i] !in after {
        if i > 0 { assert p[i] == rest[i - 1]; }
      }
    }
  }

  /** What holds for everything reachable from `t` holds for everything
      reachable from a dependency of `t`. */
  lemma ReachableChecksPassDep(u: Universe, t: TypeId, q: TypeId)
    requires t in u && q in Deps(u, t)
    ensures ReachableChecksPass(u, t) ==> ReachableChecksPass(u, q)
  {
    if ReachableChecksPass(u, t) {
      forall p | IsPath(u, p) && p[0] == q ensures CreationChecks(u, p[|p| - 1]).Pass? {
        PathCons(u, t, p);
        assert IsPath(u, [t] + p);
      }
    }
  }

  lemma ReachableChecksPassSelf(u: Universe, t: TypeId)
    requires t in u && ReachableChecksPass(u, t)
    ensures CreationChecks(u, t).Pass?
  {
    assert IsPath(u, [t]);
  }

  /** The arguments looked up in two registries that agree on the
      parameter types are the same. */
  lemma ArgumentsAgree(ps: seq<TypeId>, d: map<TypeId, ObjId>, d': map<TypeId, ObjId>)
    requires forall p :: p in ps ==> p in d && p in d' && d[p] == d'[p]
    ensures Arguments(ps, d) == Arguments(ps, d')
  {
  }

  /** An instance built from a registry's entries is built from the entries
      of any registry that extends it. */
  lemma BuiltFromGrows(u: Universe, b: map<TypeId, ObjId>, b': map<TypeId, ObjId>, o: Instance, t: TypeId)
    requires t in u && IsSubmap(b, b') && BuiltFrom(u, b, o, t)
    ensures BuiltFrom(u, b', o, t)
  {
    forall p | p in o.ctor.params ensures p in b && p in b' && b[p] == b'[p] {
      assert p in Elems(o.ctor.params);
    }
    ArgumentsAgree(o.ctor.params, b, b');
  }

  /** The instance `createBeanInstance` makes from resolved dependencies that
      are registered is built from the registry. */
  lemma InstanceBuiltFrom(u: Universe, beans: map<TypeId, ObjId>, deps: map<TypeId, ObjId>, t: TypeId, c: Ctor)
    requires t in u && GetGreediestConstructor(u, t) == Success(c)
    requires deps.Keys == Elems(c.params)
    requires forall p :: p in deps ==> p in beans && beans[p] == deps[p]
    ensures BuiltFrom(u, beans, Instance(t, c, Arguments(c.params, deps)), t)
  {
    ArgumentsAgree(c.params, deps, beans);
  }

  /** Entries added in two successive steps were added by the two steps together. */
  lemma NewEntriesCompose(u: Universe, b0: map<TypeId, ObjId>, b1: map<TypeId, ObjId>, b2: map<TypeId, ObjId>,
                          n0: nat, o1: seq<Instance>, o2: seq<Instance>)
    requires IsSubmap(b0, b1) && IsSubmap(b1, b2) && o1 <= o2 && n0 <= |o1|
    requires NewEntriesBuiltFrom(u, b0, b1, n0, o1)
    requires NewEntriesBuiltFrom(u, b1, b2, |o1|, o2)
    ensures NewEntriesBuiltFrom(u, b0, b2, n0, o2)
  {
    forall t | t in b2 && t !in b0
      ensures t in u && n0 <= b2[t] < |o2| && BuiltFrom(u, b2, o2[b2[t]], t)
    {
      if t in b1 {
        assert t in Added(b0, b1);
        assert o2[b1[t]] == o1[b1[t]];
        BuiltFromGrows(u, b1, b2, o1[b1[t]], t);
      } else {
        assert t in Added(b1, b2);
      }
    }
  }

  /** Appending objects to the log keeps earlier entries' descriptions. */
  lemma NewEntriesExtend(u: Universe, b0: map<TypeId, ObjId>, b1: map<TypeId, ObjId>,
                         n0: nat, o1: seq<Instance>, o2: seq<Instance>)
    requires o1 <= o2 && NewEntriesBuiltFrom(u, b0, b1, n0, o1)
    ensures NewEntriesBuiltFrom(u, b0, b1, n0, o2)
  {
    forall t | t in b1 && t !in b0
      ensures t in u && n0 <= b1[t] < |o2| && BuiltFrom(u, b1, o2[b1[t]], t)
    {
      assert t in Added(b0, b1);
      assert o2[b1[t]] == o1[b1[t]];
    }
  }

  /** Registering a freshly built instance keeps every new entry built from
      the registry. */
  lemma NewEntriesPut(u: Universe, b0: map<TypeId, ObjId>, b1: map<TypeId, ObjId>,
                      n0: nat, o: seq<Instance>, t: TypeId, v: ObjId)
    requires t in u && t !in b1 && IsSubmap(b0, b1)
    requires NewEntriesBuiltFrom(u, b0, b1, n0, o)
    requires n0 <= v < |o| && BuiltFrom(u, b1, o[v], t)
    ensures NewEntriesBuiltFrom(u, b0, b1[t := v], n0, o)
  {
    var b2 := b1[t := v];
    assert IsSubmap(b1, b2);
    forall x | x in b2 && x !in b0
      ensures x in u && n0 <= b2[x] < |o| && BuiltFrom(u, b2, o[b2[x]], x)
    {
      if x == t {
        BuiltFromGrows(u, b1, b2, o[v], t);
      } else {
        assert x in Added(b0, b1);
        assert o[b1[x]] == o[b2[x]];
        BuiltFromGrows(u, b1, b2, o[b1[x]], x);
      }
    }
  }

  /** `createBean`: takes the type's creation lock, runs the `try` block
      and releases the lock on every path (the `finally` block). */
  method CreateBean(registry: Beans, beanType: TypeId, ghost chain: seq<TypeId>) returns (r: Result<ObjId>)
    requires registry.Valid() && beanType in registry.universe
    requires beanType !in registry.lockManager.locks
    requires registry.lockManager.locks == Elems(chain) && IsPath(registry.universe, chain + [beanType])
    modifies registry, registry.lockManager, registry.runtime
    decreases |registry.universe.Keys - registry.lockManager.locks|, 1
    ensures registry.Valid()
    ensures registry.lockManager.locks == old(registry.lockManager.locks)
    ensures IsSubmap(old(registry.beans), registry.beans)
    ensures old(registry.runtime.objects) <= registry.runtime.objects
    ensures NewEntriesBuiltFrom(registry.universe, old(registry.beans), registry.beans,
                                old(|registry.runtime.objects|), registry.runtime.objects)
    ensures (registry.beans.Keys - old(registry.beans).Keys) !! (registry.lockManager.locks + {beanType})
    ensures AddedOnlyFrom(registry.universe, old(registry.beans), registry.beans, [beanType])
    ensures NewObjectsRegistered(old(registry.beans), registry.beans, old(|registry.runtime.objects|),
                                 if r.Success? then r.value else |registry.runtime.objects|)
    ensures CreationChecks(registry.universe, beanType).Fail? ==>
              && r == Failure(CreationChecks(registry.universe, beanType).error)
              && registry.beans == old(registry.beans)
              && registry.runtime.objects == old(registry.runtime.objects)
    ensures r.Success? ==>
              && old(|registry.runtime.objects|) <= r.value == |registry.runtime.objects| - 1
              && BuiltFrom(registry.universe, registry.beans, registry.runtime.objects[r.value], beanType)
    ensures ReachableChecksPass(registry.universe, beanType) && NeverThrows(registry.runtime.invoke) ==> r.Success?
    ensures Step(r, registry.Snapshot()) == CreateBeanRun(registry.universe, registry.runtime.invoke, registry.lockManager.locks, beanType, old(registry.Snapshot()))
  {
    var acquired := registry.lockManager.Lock(beanType);
    // The "recursive creation conflict" branch cannot be taken: the lock was free.
    assert acquired;
    CardinalityStep(registry.universe.Keys, old(registry.lockManager.locks), beanType);
    ghost var chain' := chain + [beanType];
    assert chain'[|chain'| - 1] == beanType;
    assert Elems(chain') == registry.lockManager.locks;
    r := CreateBeanLocked(registry, beanType, chain');
    registry.lockManager.Unlock(beanType);
  }

  /** The `try` block of `createBean`, run while the type's lock is held
      (`chain` ends with the type): validation, constructor selection, the
      cycle check, dependency injection and the constructor call. */
  method CreateBeanLocked(registry: Beans, beanType: TypeId, ghost chain: seq<TypeId>) returns (r: Result<ObjId>)
    requires registry.Valid() && beanType in registry.universe
    requires registry.lockManager.locks == Elems(chain) && IsPath(registry.universe, chain)
    requires chain[|chain| - 1] == beanType
    modifies registry, registry.lockManager, registry.runtime
    decreases |registry.universe.Keys - registry.lockManager.locks|, 8
    ensures registry.Valid()
    ensures registry.lockManager.locks == old(registry.lockManager.locks)
    ensures IsSubmap(old(registry.beans), registry.beans)
    ensures old(registry.runtime.objects) <= registry.runtime.objects
    ensures NewEntriesBuiltFrom(registry.universe, old(registry.beans), registry.beans,
                                old(|registry.runtime.objects|), registry.runtime.objects)
    ensures (registry.beans.Keys - old(registry.beans).Keys) !! registry.lockManager.locks
    ensures AddedOnlyFrom(registry.universe, old(registry.beans), registry.beans, [beanType])
    ensures NewObjectsRegistered(old(registry.beans), registry.beans, old(|registry.runtime.objects|),
                                 if r.Success? then r.value else |registry.runtime.objects|)
    ensures CreationChecks(registry.universe, beanType).Fail? ==>
              && r == Failure(CreationChecks(registry.universe, beanType).error)
              && registry.beans == old(registry.beans)
              && registry.runtime.objects == old(registry.runtime.objects)
    ensures r.Success? ==>
              && old(|registry.runtime.objects|) <= r.value == |registry.runtime.objects| - 1
              && BuiltFrom(registry.universe, registry.beans, registry.runtime.objects[r.value], beanType)
    ensures ReachableChecksPass(registry.universe, beanType) && NeverThrows(registry.runtime.invoke) ==> r.Success?
    ensures Step(r, registry.Snapshot()) == CreateLockedRun(registry.universe, registry.runtime.invoke, registry.lockManager.locks, beanType, old(registry.Snapshot()))
  {
    var u := registry.universe;
    ghost var total := ReachableChecksPass(u, beanType) && NeverThrows(registry.runtime.invoke);
    if total {
      ReachableChecksPassSelf(u, beanType);
    }
    var validation := ValidateBeanType(u, beanType);
    if validation.Fail? {
      return Failure(validation.error);
    }
    var selected := GetGreediestConstructor(u, beanType);
    if selected.Failure? {
      return Failure(selected.error);
    }
    var cycle, _ := CheckForCircularDependency(u, beanType, {});
    if cycle.Fail? {
      return Failure(cycle.error);
    }
    r := Construct(registry, beanType, selected.value, chain);
  }

  /** The rest of the `try` block, once every check has passed: the
      dependencies are injected and the selected constructor is called on
      them. */
  method Construct(registry: Beans, beanType: TypeId, selected: Ctor, ghost chain: seq<TypeId>)
      returns (r: Result<ObjId>)
    requires registry.Valid() && beanType in registry.universe
    requires registry.lockManager.locks == Elems(chain) && IsPath(registry.universe, chain)
    requires chain[|chain| - 1] == beanType
    requires GetGreediestConstructor(registry.universe, beanType) == Success(selected)
    requires CycleCheck(registry.universe, beanType, {}).Pass?
    modifies registry, registry.lockManager, registry.runtime
    decreases |registry.universe.Keys - registry.lockManager.locks|, 7
    ensures registry.Valid()
    ensures registry.lockManager.locks == old(registry.lockManager.locks)
    ensures IsSubmap(old(registry.beans), registry.beans)
    ensures old(registry.runtime.objects) <= registry.runtime.objects
    ensures NewEntriesBuiltFrom(registry.universe, old(registry.beans), registry.beans,
                                old(|registry.runtime.objects|), registry.runtime.objects)
    ensures (registry.beans.Keys - old(registry.beans).Keys) !! registry.lockManager.locks
    ensures AddedOnlyFrom(registry.universe, old(registry.beans), registry.beans, [beanType])
    ensures NewObjectsRegistered(old(registry.beans), registry.beans, old(|registry.runtime.objects|),
                                 if r.Success? then r.value else |registry.runtime.objects|)
    ensures r.Success? ==>
              && old(|registry.runtime.objects|) <= r.value == |registry.runtime.objects| - 1
              && BuiltFrom(registry.universe, registry.beans, registry.runtime.objects[r.value], beanType)
    ensures ReachableChecksPass(registry.universe, beanType) && NeverThrows(registry.runtime.invoke) ==> r.Success?
    ensures Step(r, registry.Snapshot()) == ConstructRun(registry.universe, registry.runtime.invoke, registry.lockManager.locks, beanType, old(registry.Snapshot()))
  {
    var u := registry.universe;
    var dependencies := GetDependencies(registry, selected.params, chain);
    AddedOnlyFromDeps(u, old(registry.beans), registry.beans, beanType);
    if dependencies.Failure? {
      return Failure(dependencies.error);
    }
    ghost var objects0 := registry.runtime.objects;
    r := CreateBeanInstance(registry.runtime, beanType, dependencies.value, selected);
    NewEntriesExtend(u, old(registry.beans), registry.beans, old(|registry.runtime.objects|),
                     objects0, registry.runtime.objects);
    if r.Success? {
      InstanceBuiltFrom(u, registry.beans, dependencies.value, beanType, selected);
      assert registry.runtime.objects[r.value]
          == Instance(beanType, selected, Arguments(selected.params, dependencies.value));
    }
  }

  /** `getDependencies`: injects every parameter type of the selected
      constructor, in order, collecting type -> instance. `chain` ends with
      the type being created, whose lock is held. */
  method GetDependencies(registry: Beans, requiredFields: seq<TypeId>, ghost chain: seq<TypeId>)
      returns (r: Result<map<TypeId, ObjId>>)
    requires registry.Valid()
    requires IsPath(registry.universe, chain) && registry.lockManager.locks == Elems(chain)
    requires CycleCheck(registry.universe, chain[|chain| - 1], {}).Pass?
    requires requiredFields == Deps(registry.universe, chain[|chain| - 1])
    modifies registry, registry.lockManager, registry.runtime
    decreases |registry.universe.Keys - registry.lockManager.locks|, 6
    ensures registry.Valid()
    ensures registry.lockManager.locks == old(registry.lockManager.locks)
    ensures IsSubmap(old(registry.beans), registry.beans)
    ensures old(registry.runtime.objects) <= registry.runtime.objects
    ensures NewEntriesBuiltFrom(registry.universe, old(registry.beans), registry.beans,
                                old(|registry.runtime.objects|), registry.runtime.objects)
    ensures (registry.beans.Keys - old(registry.beans).Keys) !! registry.lockManager.locks
    ensures AddedOnlyFrom(registry.universe, old(registry.beans), registry.beans, requiredFields)
    ensures NewObjectsRegistered(old(registry.beans), registry.beans, old(|registry.runtime.objects|), |registry.runtime.objects|)
    ensures r.Success? ==>
              && r.value.Keys == Elems(requiredFields)
              && forall p {:trigger p in r.value} :: p in r.value ==> p in registry.beans && registry.beans[p] == r.value[p]
    ensures ReachableChecksPass(registry.universe, chain[|chain| - 1]) && NeverThrows(registry.runtime.invoke) ==>
              r.Success?
    ensures Step(r, registry.Snapshot()) == DepsRun(registry.universe, registry.runtime.invoke, registry.lockManager.locks, requiredFields, 0, old(registry.Snapshot()), map[])
  {
    var u := registry.universe;
    var dependencies: map<TypeId, ObjId> := map[];
    var i := 0;
    while i < |requiredFields|
      invariant 0 <= i <= |requiredFields|
      invariant registry.Valid()
      invariant registry.lockManager.locks == old(registry.lockManager.locks)
      invariant IsSubmap(old(registry.beans), registry.beans)
      invariant old(registry.runtime.objects) <= registry.runtime.objects
      invariant NewEntriesBuiltFrom(u, old(registry.beans), registry.beans,
                                    old(|registry.runtime.objects|), registry.runtime.objects)
      invariant (registry.beans.Keys - old(registry.beans).Keys) !! registry.lockManager.locks
      invariant AddedOnlyFrom(u, old(registry.beans), registry.beans, requiredFields)
      invariant NewObjectsRegistered(old(registry.beans), registry.beans, old(|registry.runtime.objects|), |registry.runtime.objects|)
      invariant dependencies.Keys == Elems(requiredFields[..i])
      invariant forall p {:trigger p in dependencies} :: p in dependencies ==> p in registry.beans && registry.beans[p] == dependencies[p]
      invariant DepsRun(registry.universe, registry.runtime.invoke, registry.lockManager.locks, requiredFields, i, registry.Snapshot(), dependencies)
             == DepsRun(registry.universe, registry.runtime.invoke, registry.lockManager.locks, requiredFields, 0, old(registry.Snapshot()), map[])
    {
      var clazz := requiredFields[i];
      var dependency := ResolveNext(registry, requiredFields, i, chain, old(registry.beans), old(registry.runtime.objects),
                                    dependencies);
      if dependency.Failure? {
        return Failure(dependency.error);
      }
      dependencies := dependencies[clazz := dependency.value];
      ElemsPrefixStep(requiredFields, i);
      i := i + 1;
    }
    ElemsPrefixFull(requiredFields);
    r := Success(dependencies);
  }

  /** One iteration of the loop of `getDependencies`: the injection of the
      `i`-th parameter type, with what the loop keeps about the registry
      since it was at `start` (and the object log at `log`). */
  method ResolveNext(registry: Beans, requiredFields: seq<TypeId>, i: nat, ghost chain: seq<TypeId>,
                     ghost start: map<TypeId, ObjId>, ghost log: seq<Instance>, ghost acc: map<TypeId, ObjId>)
      returns (r: Result<ObjId>)
    requires registry.Valid()
    requires IsPath(registry.universe, chain) && registry.lockManager.locks == Elems(chain)
    requires CycleCheck(registry.universe, chain[|chain| - 1], {}).Pass?
    requires requiredFields == Deps(registry.universe, chain[|chain| - 1]) && i < |requiredFields|
    requires IsSubmap(start, registry.beans) && log <= registry.runtime.objects
    requires NewEntriesBuiltFrom(registry.universe, start, registry.beans, |log|, registry.runtime.objects)
    requires (registry.beans.Keys - start.Keys) !! registry.lockManager.locks
    requires AddedOnlyFrom(registry.universe, start, registry.beans, requiredFields)
    requires NewObjectsRegistered(start, registry.beans, |log|, |registry.runtime.objects|)
    modifies registry, registry.lockManager, registry.runtime
    decreases |registry.universe.Keys - registry.lockManager.locks|, 5
    ensures registry.Valid()
    ensures registry.lockManager.locks == old(registry.lockManager.locks)
    ensures IsSubmap(old(registry.beans), registry.beans) && IsSubmap(start, registry.beans)
    ensures log <= registry.runtime.objects
    ensures NewEntriesBuiltFrom(registry.universe, start, registry.beans, |log|, registry.runtime.objects)
    ensures (registry.beans.Keys - start.Keys) !! registry.lockManager.locks
    ensures AddedOnlyFrom(registry.universe, start, registry.beans, requiredFields)
    ensures NewObjectsRegistered(start, registry.beans, |log|, |registry.runtime.objects|)
    ensures r.Success? ==> requiredFields[i] in registry.beans && registry.beans[requiredFields[i]] == r.value
    ensures ReachableChecksPass(registry.universe, chain[|chain| - 1]) && NeverThrows(registry.runtime.invoke) ==>
              r.Success?
    ensures Step(r, registry.Snapshot()) == InjectRun(registry.universe, registry.runtime.invoke, registry.lockManager.locks, requiredFields[i], old(registry.Snapshot()))
    ensures r.Failure? ==>
              DepsRun(registry.universe, registry.runtime.invoke, registry.lockManager.locks, requiredFields, i, old(registry.Snapshot()), acc)
              == Step(Failure(r.error), registry.Snapshot())
    ensures r.Success? ==>
              DepsRun(registry.universe, registry.runtime.invoke, registry.lockManager.locks, requiredFields, i, old(registry.Snapshot()), acc)
              == DepsRun(registry.universe, registry.runtime.invoke, registry.lockManager.locks, requiredFields, i + 1, registry.Snapshot(), acc[requiredFields[i] := r.value])
  {
    var clazz := requiredFields[i];
    ghost var beans0, objects0 := registry.beans, registry.runtime.objects;
    r := InjectDependency(registry, clazz, chain);
    NewEntriesCompose(registry.universe, start, beans0, registry.beans, |log|, objects0, registry.runtime.objects);
    AddedOnlyFromCompose(registry.universe, start, beans0, registry.beans, requiredFields, [clazz], requiredFields);
    NewObjectsCompose(start, beans0, registry.beans, |log|, |objects0|, |registry.runtime.objects|);
  }

  /** One step of `getDependencies`: `Beans.inject` on a parameter type of
      the constructor being resolved. */
  method InjectDependency(registry: Beans, clazz: TypeId, ghost chain: seq<TypeId>) returns (r: Result<ObjId>)
    requires registry.Valid()
    requires IsPath(registry.universe, chain) && registry.lockManager.locks == Elems(chain)
    requires CycleCheck(registry.universe, chain[|chain| - 1], {}).Pass?
    requires clazz in Deps(registry.universe, chain[|chain| - 1])
    modifies registry, registry.lockManager, registry.runtime
    decreases |registry.universe.Keys - registry.lockManager.locks|, 4
    ensures registry.Valid()
    ensures registry.lockManager.locks == old(registry.lockManager.locks)
    ensures IsSubmap(old(registry.beans), registry.beans)
    ensures old(registry.runtime.objects) <= registry.runtime.objects
    ensures NewEntriesBuiltFrom(registry.universe, old(registry.beans), registry.beans,
                                old(|registry.runtime.objects|), registry.runtime.objects)
    ensures (registry.beans.Keys - old(registry.beans).Keys) !! registry.lockManager.locks
    ensures AddedOnlyFrom(registry.universe, old(registry.beans), registry.beans, [clazz])
    ensures NewObjectsRegistered(old(registry.beans), registry.beans, old(|registry.runtime.objects|), |registry.runtime.objects|)
    ensures clazz in old(registry.beans) ==>
              && r == Success(old(registry.beans)[clazz]) && registry.beans == old(registry.beans)
              && registry.runtime.objects == old(registry.runtime.objects)
    ensures r.Success? ==> clazz in registry.beans && registry.beans[clazz] == r.value
    ensures ReachableChecksPass(registry.universe, chain[|chain| - 1]) && NeverThrows(registry.runtime.invoke) ==>
              r.Success?
    ensures Step(r, registry.Snapshot()) == InjectRun(registry.universe, registry.runtime.invoke, registry.lockManager.locks, clazz, old(registry.Snapshot()))
  {
    DependencyNotOnChain(registry.universe, chain, clazz);
    ReachableChecksPassDep(registry.universe, chain[|chain| - 1], clazz);
    r := registry.Inject(clazz, chain);
  }

  /** The constructor arguments: each parameter type looked up in the
      resolved dependencies, in parameter order. */
  function Arguments(params: seq<TypeId>, dependencies: map<TypeId, ObjId>): (args: seq<ObjId>)
    requires forall p :: p in params ==> p in dependencies
    ensures |args| == |params| && forall i :: 0 <= i < |params| ==> args[i] == dependencies[params[i]]
  {
    seq(|params|, i requires 0 <= i < |params| => dependencies[params[i]])
  }

  /** `createBeanInstance`: invokes the constructor on the arguments; a
      throwing constructor is reported as `BeanCreationException(beanType,
      constructor, cause)`. */
  method CreateBeanInstance(runtime: Runtime, beanType: TypeId, dependencies: map<TypeId, ObjId>, ctor: Ctor)
      returns (r: Result<ObjId>)
    requires forall p :: p in ctor.params ==> p in dependencies
    modifies runtime
    ensures var args := Arguments(ctor.params, dependencies);
            match runtime.invoke(beanType, ctor, args)
            case Some(cause) =>
              r == Failure(BeanCreation(beanType, ctor, cause)) && runtime.objects == old(runtime.objects)
            case None =>
              r == Success(|old(runtime.objects)|) && runtime.objects == old(runtime.objects) + [Instance(beanType, ctor, args)]
  {
    var constructorArgs := Arguments(ctor.params, dependencies);
    var thrown := runtime.invoke(beanType, ctor, constructorArgs);
    if thrown.Some? {
      return Failure(BeanCreation(beanType, ctor, thrown.value));
    }
    var id := runtime.Allocate(Instance(beanType, ctor, constructorArgs));
    r := Success(id);
  }
}
