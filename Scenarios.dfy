/** Concrete dependency graphs from the repository's sample beans, and the
    behaviour the container shows on them. */
module Scenarios {
  import opened Types
  import opened BeanFactory
  import opened BeanLockManager
  import opened Registry
  import opened Context

  /** A user class: no flag is set. */
  function Plain(name: string): Descriptor
  {
    Descriptor(name, false, false, false, false, false)
  }

  /** A plain class whose name begins with neither `j` nor `n` lies outside
      every reserved package, so it is a valid bean type. */
  lemma OrdinaryClassValid(u: Universe, t: TypeId)
    requires t in u && u[t].desc == Plain(u[t].desc.name)
    requires |u[t].desc.name| > 0 && u[t].desc.name[0] != 'j' && u[t].desc.name[0] != 'n'
    ensures ValidateBeanType(u, t) == Pass
  {
    var n := u[t].desc.name;
    forall pre | pre in ReservedPackages ensures !StartsWith(n, pre) {
      if |pre| <= |n| {
        assert n[..|pre|][0] != pre[0];
      }
    }
  }

  // ---------------------------------------------------------------------
  // UserController(UserService, UserRepo), UserService(UserRepo), UserRepo()
  // ---------------------------------------------------------------------

  const UserRepo: TypeId := 1
  const UserService: TypeId := 2
  const UserController: TypeId := 3

  const Users: Universe :=
    map[UserRepo := TypeInfo(Plain("samplebeans.user.UserRepo"), [Ctor([])]),
        UserService := TypeInfo(Plain("samplebeans.user.UserService"), [Ctor([UserRepo])]),
        UserController := TypeInfo(Plain("samplebeans.user.UserController"), [Ctor([UserService, UserRepo])])]

  /** Every sample user type passes validation, selection and the cycle
      check; the controller depends on the service and the repository. */
  lemma UsersCreatable()
    ensures forall x :: x in Users ==> CreationChecks(Users, x).Pass?
    ensures Deps(Users, UserController) == [UserService, UserRepo]
    ensures Deps(Users, UserService) == [UserRepo]
  {
    ControllerCreatable();
    ServiceCreatable();
  }

  lemma ControllerCreatable()
    ensures CreationChecks(Users, UserController).Pass?
  {
    OrdinaryClassValid(Users, UserController);
    var none: set<TypeId> := {};
    assert [UserService, UserRepo][1..] == [UserRepo] && [UserRepo][1..] == [];
    // The service (and, below it, the repository), then the repository.
    var c := none + {UserController};
    assert CycleCheck(Users, UserRepo, c + {UserService}) == Pass;
    assert CycleCheckParams(Users, UserService, [UserRepo], c + {UserService}) == Pass;
    assert CycleCheck(Users, UserService, c) == Pass;
    assert CycleCheck(Users, UserRepo, c) == Pass;
    assert CycleCheckParams(Users, UserController, [UserRepo], c) == Pass;
    assert CycleCheckParams(Users, UserController, [UserService, UserRepo], c) == Pass;
  }

  lemma ServiceCreatable()
    ensures CreationChecks(Users, UserService).Pass? && CreationChecks(Users, UserRepo).Pass?
  {
    OrdinaryClassValid(Users, UserRepo);
    OrdinaryClassValid(Users, UserService);
    var none: set<TypeId> := {};
    assert [UserRepo][1..] == [];
    assert CycleCheck(Users, UserRepo, none + {UserService}) == Pass;
    assert CycleCheckParams(Users, UserService, [UserRepo], none + {UserService}) == Pass;
    assert CycleCheck(Users, UserService, none) == Pass;
    assert CycleCheck(Users, UserRepo, none) == Pass;
  }

  /** Every sample user type has exactly one constructor, so selection
      succeeds for whatever a registry holds. */
  lemma UsersSelectable(b: map<TypeId, ObjId>)
    ensures AllSelectable(Users, b)
  {
    forall t | t in b && t in Users ensures GetGreediestConstructor(Users, t).Success? {
      assert |Users[t].ctors| == 1;
    }
  }

  lemma ControllerDeps()
    ensures Deps(Users, UserController) == [UserService, UserRepo]
  {
    assert |Users[UserController].ctors| == 1;
  }

  /** With every check passing, creation of any sample type cannot fail. */
  lemma UsersReachable(t: TypeId)
    requires t in Users
    ensures ReachableChecksPass(Users, t)
  {
    UsersCreatable();
    forall p | IsPath(Users, p) && p[0] == t
      ensures CreationChecks(Users, p[|p| - 1]).Pass?
    {
      assert p[|p| - 1] in Users;
    }
  }

  /** A runtime whose constructors never throw. */
  function Quiet(): (invoke: (TypeId, Ctor, seq<ObjId>) -> Option<Cause>)
    ensures NeverThrows(invoke)
  {
    (t: TypeId, c: Ctor, a: seq<ObjId>) => None
  }

  /** A fresh registry over `u` with no bean and no lock. */
  method Fresh(u: Universe) returns (registry: Beans)
    ensures fresh(registry) && fresh(registry.lockManager) && fresh(registry.runtime)
    ensures registry.universe == u && registry.Valid() && registry.beans == map[]
    ensures registry.lockManager.locks == {} && registry.runtime.objects == []
    ensures registry.runtime.invoke == Quiet()
  {
    var runtime := new Runtime(Quiet());
    var locks := new LockManager();
    registry := new Beans(u, locks, runtime);
  }

  /** Two injections of the same type give the identical instance. */
  method InjectTwice() returns (first: Result<ObjId>, second: Result<ObjId>)
    ensures first.Success? && first == second
  {
    var registry := Fresh(Users);
    UsersReachable(UserService);
    first := registry.Inject(UserService, []);
    second := registry.Inject(UserService, []);
  }

  /** After the controller is injected, the registry's service and
      repository are exactly the controller's constructor arguments. */
  method ControllerSharesDependencies() returns (controller: Instance, service: ObjId, repo: ObjId)
    ensures controller.args == [service, repo]
  {
    var registry := Fresh(Users);
    controller := InjectController(registry);
    var s := registry.Inject(UserService, []);
    var r := registry.Inject(UserRepo, []);
    service, repo := s.value, r.value;
  }

  /** Injecting the controller into an empty registry registers the service
      and the repository it was built with. */
  method InjectController(registry: Beans) returns (controller: Instance)
    requires registry.universe == Users && registry.Valid() && registry.beans == map[]
    requires registry.lockManager.locks == {} && NeverThrows(registry.runtime.invoke)
    modifies registry, registry.lockManager, registry.runtime
    ensures registry.Valid() && registry.lockManager.locks == {}
    ensures UserController in registry.beans && UserService in registry.beans && UserRepo in registry.beans
    ensures controller.args == [registry.beans[UserService], registry.beans[UserRepo]]
  {
    UsersReachable(UserController);
    var c := registry.Inject(UserController, []);
    assert UserController in Added(old(registry.beans), registry.beans);
    controller := registry.runtime.objects[c.value];
    assert BuiltFrom(Users, registry.beans, controller, UserController);
    assert controller.ctor.params == [UserService, UserRepo];
    BuiltFromTwo(Users, registry.beans, controller, UserController);
  }

  /** The arguments of an instance built by a two-parameter constructor. */
  lemma BuiltFromTwo(u: Universe, b: map<TypeId, ObjId>, o: Instance, t: TypeId)
    requires t in u && BuiltFrom(u, b, o, t) && |o.ctor.params| == 2
    ensures o.ctor.params[0] in b && o.ctor.params[1] in b
    ensures o.args == [b[o.ctor.params[0]], b[o.ctor.params[1]]]
  {
    assert o.ctor.params[0] in Elems(o.ctor.params) && o.ctor.params[1] in Elems(o.ctor.params);
  }

  /** `remove` invalidates the cache: the next injection builds a new,
      distinct instance. */
  method RemoveThenInject() returns (before: ObjId, after: ObjId)
    ensures before != after
  {
    var registry := Fresh(Users);
    UsersReachable(UserService);
    var first := registry.Inject(UserService, []);
    registry.Remove(UserService);
    var present := registry.Exists(UserService);
    assert !present;
    ghost var removed := registry.beans;
    var second := registry.Inject(UserService, []);
    assert UserService in Added(removed, registry.beans);
    before, after := first.value, second.value;
  }

  /** `removeWithDependencies` on the controller removes the controller,
      the service and the repository. */
  method RemoveControllerWithDependencies() returns (left: map<TypeId, ObjId>)
    ensures UserController !in left && UserService !in left && UserRepo !in left
  {
    var registry := Fresh(Users);
    UsersReachable(UserController);
    var c := registry.Inject(UserController, []);
    UsersSelectable(registry.beans);
    ControllerDeps();
    var r := registry.RemoveWithDependencies(UserController);
    left := registry.beans;
  }

  lemma ServiceDeps()
    ensures Deps(Users, UserService) == [UserRepo] && Deps(Users, UserRepo) == []
  {
    assert |Users[UserService].ctors| == 1 && |Users[UserRepo].ctors| == 1;
  }

  /** Every type on a chain of dependencies from the service is the service
      or the repository: the controller is never among them. */
  lemma {:induction false} ServiceChainAvoidsController(p: seq<TypeId>, k: nat)
    requires IsPath(Users, p) && p[0] == UserService && k < |p|
    ensures p[k] == UserService || p[k] == UserRepo
    decreases k
  {
    if k > 0 {
      ServiceChainAvoidsController(p, k - 1);
      ServiceDeps();
      assert p[k] in Deps(Users, p[k - 1]);
    }
  }

  /** `removeWithDependencies` on the service removes the service and the
      repository, and keeps the controller that was built with them. */
  method RemoveServiceWithDependencies() returns (left: map<TypeId, ObjId>)
    ensures UserController in left && UserService !in left && UserRepo !in left
  {
    var registry := Fresh(Users);
    var controller := InjectController(registry);
    ghost var before := registry.beans;
    UsersSelectable(registry.beans);
    ServiceDeps();
    var r := registry.RemoveWithDependencies(UserService);
    if UserController !in registry.beans {
      assert UserController in Added(registry.beans, before);
      ghost var p :| && IsPath(Users, p) && p[0] in [UserService] && p[|p| - 1] == UserController
               && forall i :: 0 <= i < |p| ==> p[i] in before.Keys;
      ServiceChainAvoidsController(p, |p| - 1);
    }
    left := registry.beans;
  }

  /** A runtime in which only the controller's constructor throws. */
  function ControllerThrows(): Invoker
  {
    (t: TypeId, c: Ctor, a: seq<ObjId>) => if t == UserController then Some(7) else None
  }

  /** The repository, injected while the controller and the service are
      being created: it is the first object built. */
  lemma RepoInjectedFirst()
    ensures InjectRun(Users, ControllerThrows(), {UserController, UserService}, UserRepo, Store(map[], []))
         == Step(Success(0), Store(map[UserRepo := 0], [Instance(UserRepo, Ctor([]), [])]))
  {
    UsersCreatable();
    ServiceDeps();
    var inv := ControllerThrows();
    var none: map<TypeId, ObjId> := map[];
    var empty := Store(none, []);
    var locks := {UserController, UserService, UserRepo};
    assert {UserController, UserService} + {UserRepo} == locks;
    assert GetGreediestConstructor(Users, UserRepo) == Success(Ctor([]));
    assert DepsRun(Users, inv, locks, [], 0, empty, none) == Step(Success(none), empty);
    assert CreateLockedRun(Users, inv, locks, UserRepo, empty)
        == Step(Success(0), Store(none, [Instance(UserRepo, Ctor([]), [])]));
  }

  /** The service, injected while the controller is being created: the
      repository is built and registered first, then the service from it. */
  lemma ServiceInjectedSecond()
    ensures InjectRun(Users, ControllerThrows(), {UserController}, UserService, Store(map[], []))
         == Step(Success(1), Store(map[UserRepo := 0, UserService := 1],
                                   [Instance(UserRepo, Ctor([]), []), Instance(UserService, Ctor([UserRepo]), [0])]))
  {
    UsersCreatable();
    ServiceDeps();
    RepoInjectedFirst();
    var inv := ControllerThrows();
    var none: map<TypeId, ObjId> := map[];
    var empty := Store(none, []);
    var one: map<TypeId, ObjId> := map[UserRepo := 0];
    var repo := Instance(UserRepo, Ctor([]), []);
    var s1 := Store(one, [repo]);
    var locks := {UserController, UserService};
    assert {UserController} + {UserService} == locks;
    assert GetGreediestConstructor(Users, UserService) == Success(Ctor([UserRepo]));
    assert DepsRun(Users, inv, locks, [UserRepo], 1, s1, one) == Step(Success(one), s1);
    assert DepsRun(Users, inv, locks, [UserRepo], 0, empty, none) == Step(Success(one), s1);
    assert Arguments([UserRepo], one) == [0];
    assert CreateLockedRun(Users, inv, locks, UserService, empty)
        == Step(Success(1), Store(one, [repo, Instance(UserService, Ctor([UserRepo]), [0])]));
  }

  /** On an empty registry whose controller constructor throws, `inject`
      of the controller builds and registers the repository and the
      service, then propagates the constructor's exception: the two
      dependencies stay registered. */
  lemma ControllerFailureKeepsDependencies()
    ensures InjectRun(Users, ControllerThrows(), {}, UserController, Store(map[], []))
         == Step(Failure(BeanCreation(UserController, Ctor([UserService, UserRepo]), 7)),
                 Store(map[UserRepo := 0, UserService := 1],
                       [Instance(UserRepo, Ctor([]), []), Instance(UserService, Ctor([UserRepo]), [0])]))
  {
    UsersCreatable();
    ServiceInjectedSecond();
    var inv := ControllerThrows();
    var none: map<TypeId, ObjId> := map[];
    var empty := Store(none, []);
    var s2 := Store(map[UserRepo := 0, UserService := 1],
                    [Instance(UserRepo, Ctor([]), []), Instance(UserService, Ctor([UserRepo]), [0])]);
    var locks := {UserController};
    var deps: map<TypeId, ObjId> := map[UserService := 1, UserRepo := 0];
    assert InjectRun(Users, inv, locks, UserRepo, s2) == Step(Success(0), s2);
    assert DepsRun(Users, inv, locks, [UserService, UserRepo], 2, s2, deps) == Step(Success(deps), s2);
    assert DepsRun(Users, inv, locks, [UserService, UserRepo], 0, empty, none) == Step(Success(deps), s2);
    assert GetGreediestConstructor(Users, UserController) == Success(Ctor([UserService, UserRepo]));
    assert Arguments([UserService, UserRepo], deps) == [1, 0];
    var thrown := Failure(BeanCreation(UserController, Ctor([UserService, UserRepo]), 7));
    assert CreateLockedRun(Users, inv, locks, UserController, empty) == Step(thrown, s2);
    assert {} + {UserController} == locks;
  }

  /** The same through the registry: `inject` of the controller fails with
      the constructor's exception, and the registry keeps the repository
      and the service built before it. */
  method ControllerFailureRegistry() returns (r: Result<ObjId>, left: map<TypeId, ObjId>)
    ensures r == Failure(BeanCreation(UserController, Ctor([UserService, UserRepo]), 7))
    ensures left == map[UserRepo := 0, UserService := 1]
  {
    var runtime := new Runtime(ControllerThrows());
    var locks := new LockManager();
    var registry := new Beans(Users, locks, runtime);
    ControllerFailureKeepsDependencies();
    r := registry.Inject(UserController, []);
    left := registry.beans;
  }

  // ---------------------------------------------------------------------
  // The cycle A -> B -> C -> A
  // ---------------------------------------------------------------------

  const A: TypeId := 1
  const B: TypeId := 2
  const C: TypeId := 3

  const Cycle: Universe :=
    map[A := TypeInfo(Plain("testbeans.circular.A"), [Ctor([B])]),
        B := TypeInfo(Plain("testbeans.circular.B"), [Ctor([C])]),
        C := TypeInfo(Plain("testbeans.circular.C"), [Ctor([A])])]

  /** Each entry point reports the edge that closes the cycle as seen from
      it: the last type on the path is the dependent, the entry point the
      parent. */
  lemma CycleReported()
    ensures CreationChecks(Cycle, A) == Fail(CircularDependency(C, A))
    ensures CreationChecks(Cycle, B) == Fail(CircularDependency(A, B))
    ensures CreationChecks(Cycle, C) == Fail(CircularDependency(B, C))
  {
    OrdinaryClassValid(Cycle, A);
    OrdinaryClassValid(Cycle, B);
    OrdinaryClassValid(Cycle, C);
    var none: set<TypeId> := {};
    assert CycleCheckParams(Cycle, C, [A], none + {A} + {B} + {C}) == Fail(CircularDependency(C, A));
    assert CycleCheck(Cycle, C, none + {A} + {B}) == Fail(CircularDependency(C, A));
    assert CycleCheckParams(Cycle, B, [C], none + {A} + {B}) == Fail(CircularDependency(C, A));
    assert CycleCheck(Cycle, B, none + {A}) == Fail(CircularDependency(C, A));
    assert CycleCheckParams(Cycle, A, [B], none + {A}) == Fail(CircularDependency(C, A));
    assert CycleCheck(Cycle, A, none) == Fail(CircularDependency(C, A));
    assert CycleCheckParams(Cycle, A, [B], none + {B} + {C} + {A}) == Fail(CircularDependency(A, B));
    assert CycleCheck(Cycle, A, none + {B} + {C}) == Fail(CircularDependency(A, B));
    assert CycleCheckParams(Cycle, C, [A], none + {B} + {C}) == Fail(CircularDependency(A, B));
    assert CycleCheck(Cycle, C, none + {B}) == Fail(CircularDependency(A, B));
    assert CycleCheckParams(Cycle, B, [C], none + {B}) == Fail(CircularDependency(A, B));
    assert CycleCheck(Cycle, B, none) == Fail(CircularDependency(A, B));
    assert CycleCheckParams(Cycle, B, [C], none + {C} + {A} + {B}) == Fail(CircularDependency(B, C));
    assert CycleCheck(Cycle, B, none + {C} + {A}) == Fail(CircularDependency(B, C));
    assert CycleCheckParams(Cycle, A, [B], none + {C} + {A}) == Fail(CircularDependency(B, C));
    assert CycleCheck(Cycle, A, none + {C}) == Fail(CircularDependency(B, C));
    assert CycleCheckParams(Cycle, C, [A], none + {C}) == Fail(CircularDependency(B, C));
    assert CycleCheck(Cycle, C, none) == Fail(CircularDependency(B, C));
  }

  /** Injecting a type on a cycle fails with the cycle error, invokes no
      constructor and registers nothing. */
  method InjectOnCycle() returns (r: Result<ObjId>, objects: seq<Instance>, beans: map<TypeId, ObjId>)
    ensures r == Failure(CircularDependency(C, A)) && objects == [] && beans == map[]
  {
    var registry := Fresh(Cycle);
    CycleReported();
    r := registry.Inject(A, []);
    objects, beans := registry.runtime.objects, registry.beans;
  }

  // ---------------------------------------------------------------------
  // A diamond: Top(Left, Right), Left(Bottom), Right(Bottom), Bottom()
  // ---------------------------------------------------------------------

  const Top: TypeId := 1
  const Left: TypeId := 2
  const Right: TypeId := 3
  const Bottom: TypeId := 4

  /** The diamond with `Bottom` lacking a public constructor. */
  const Diamond: Universe :=
    map[Top := TypeInfo(Plain("Top"), [Ctor([Left, Right])]),
        Left := TypeInfo(Plain("Left"), [Ctor([Bottom])]),
        Right := TypeInfo(Plain("Right"), [Ctor([Bottom])]),
        Bottom := TypeInfo(Plain("Bottom"), [])]

  /** The diamond with a no-argument constructor for `Bottom`. */
  const DiamondFull: Universe := Diamond[Bottom := TypeInfo(Plain("Bottom"), [Ctor([])])]

  /** A type reached along two sibling branches is not a cycle: the ancestor
      set is restored between siblings. */
  lemma DiamondIsNotACycle()
    ensures CycleCheck(DiamondFull, Top, {}) == Pass
  {
    var none: set<TypeId> := {};
    var top := none + {Top};
    assert [Left, Right][1..] == [Right] && [Right][1..] == [] && [Bottom][1..] == [];
    assert CycleCheck(DiamondFull, Bottom, top + {Left}) == Pass;
    assert CycleCheckParams(DiamondFull, Left, [Bottom], top + {Left}) == Pass;
    assert CycleCheck(DiamondFull, Left, top) == Pass;
    assert CycleCheck(DiamondFull, Bottom, top + {Right}) == Pass;
    assert CycleCheckParams(DiamondFull, Right, [Bottom], top + {Right}) == Pass;
    assert CycleCheck(DiamondFull, Right, top) == Pass;
    assert CycleCheckParams(DiamondFull, Top, [Right], top) == Pass;
    assert CycleCheckParams(DiamondFull, Top, [Left, Right], top) == Pass;
  }

  /** A type without a public constructor fails selection, and the cycle
      check of anything depending on it fails the same way. */
  lemma MissingConstructor()
    ensures GetGreediestConstructor(Diamond, Bottom) == Failure(RequiredConstructorNotFound(Bottom))
    ensures CycleCheck(Diamond, Top, {}) == Fail(RequiredConstructorNotFound(Bottom))
  {
    var none: set<TypeId> := {};
    assert CycleCheck(Diamond, Bottom, none + {Top} + {Left}) == Fail(RequiredConstructorNotFound(Bottom));
    assert CycleCheck(Diamond, Left, none + {Top}) == Fail(RequiredConstructorNotFound(Bottom));
  }

  // ---------------------------------------------------------------------
  // Book(Integer, String, String); Integer(int) and Integer(String)
  // ---------------------------------------------------------------------

  const Book: TypeId := 1
  const Integer: TypeId := 2
  const JString: TypeId := 3
  const Int: TypeId := 4

  const Standard: Universe :=
    map[Book := TypeInfo(Plain("testbeans.standardclasses.Book"), [Ctor([Integer, JString, JString])]),
        Integer := TypeInfo(Plain("java.lang.Integer"), [Ctor([Int]), Ctor([JString])]),
        JString := TypeInfo(Plain("java.lang.String"), [Ctor([]), Ctor([JString])]),
        Int := TypeInfo(Descriptor("int", true, false, false, false, false), [])]

  /** `String` itself is rejected by validation. A `Book` passes validation
      and has a single constructor, whose parameters are therefore not
      validated; the failure comes from the cycle check, which selects
      `Integer`'s constructor and finds the primitive `int` among its
      parameters. */
  lemma BookRejected()
    ensures CreationChecks(Standard, JString) == Fail(InvalidBeanType(JString, None))
    ensures GetGreediestConstructor(Standard, Book) == Success(Ctor([Integer, JString, JString]))
    ensures CreationChecks(Standard, Book) == Fail(InvalidBeanType(Int, Some(Integer)))
  {
    assert StartsWith("java.lang.String", "java.lang.");
    OrdinaryClassValid(Standard, Book);
    assert GreediestIndex(Standard[Integer].ctors) == 0;
    assert GetGreediestConstructor(Standard, Integer) == Failure(InvalidBeanType(Int, Some(Integer)));
    var none: set<TypeId> := {};
    assert CycleCheck(Standard, Integer, none + {Book}) == Fail(InvalidBeanType(Int, Some(Integer)));
    assert CycleCheck(Standard, Book, none) == Fail(InvalidBeanType(Int, Some(Integer)));
  }

  /** The enum `Thread.State` has none of the rejected kinds; its name alone
      excludes it. */
  lemma ThreadStateRejectedByName()
    ensures var u := map[7 := TypeInfo(Plain("java.lang.Thread$State"), [])];
            ValidateBeanType(u, 7) == Fail(InvalidBeanType(7, None))
    ensures var u := map[7 := TypeInfo(Plain("app.Thread$State"), [])];
            ValidateBeanType(u, 7) == Pass
  {
    assert StartsWith("java.lang.Thread$State", "java.lang.");
    OrdinaryClassValid(map[7 := TypeInfo(Plain("app.Thread$State"), [])], 7);
  }

  // ---------------------------------------------------------------------
  // The lock set
  // ---------------------------------------------------------------------

  /** Locking a free type succeeds, locking it again fails without change,
      and unlocking (once or twice) restores the original set. */
  method LockProtocol(locks: LockManager, t: TypeId) returns (first: bool, second: bool)
    requires t !in locks.locks
    modifies locks
    ensures first && !second
    ensures locks.locks == old(locks.locks)
  {
    first := locks.Lock(t);
    ghost var held := locks.locks;
    second := locks.Lock(t);
    assert locks.locks == held;
    locks.Unlock(t);
    locks.Unlock(t);
  }

  // ---------------------------------------------------------------------
  // IoCContext next to the registry
  // ---------------------------------------------------------------------

  /** `IoCContext.getBean(UserService)` after `getBean(UserController)` makes
      a second service: the controller was built with the registry's one. */
  method ContextDuplicatesService() returns (held: ObjId, fetched: ObjId)
    ensures held != fetched
  {
    var registry := Fresh(Users);
    var context := new IoCContext(registry, 0);
    UsersReachable(UserController);
    UsersReachable(UserService);
    UsersCreatable();
    var c := context.GetBean(UserController);
    assert UserService in registry.beans by {
      assert BuiltFrom(Users, registry.beans, registry.runtime.objects[c.value], UserController);
    }
    held := registry.beans[UserService];
    var s := context.GetBean(UserService);
    fetched := s.value;
  }
}
