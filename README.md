# A verified model of the WadeTyler/IoC singleton container

The container hands out one instance per Java class. `Beans.inject(T)`
returns the registered instance of `T`. If there is none yet, it asks
`BeanFactory.createBean(T)` to build one. `createBean` runs these steps in
order:

1. Takes `T`'s creation lock in `BeanLockManager`.
2. Validates `T` as a bean type.
3. Picks `T`'s greediest public constructor.
4. Runs a depth-first search for a circular dependency from `T`.
5. Injects every parameter type of the chosen constructor, recursively through `Beans.inject`.
6. Calls the constructor with those instances.
7. Releases the lock in a `finally` block.

`Beans` also offers `exists`, `isCreating`, `remove`, `clear` and a
recursive `removeWithDependencies`. `IoCContext` is an older facade with its
own map. It builds a missing bean through the same `createBean`, so that
bean's dependencies land in the `Beans` registry, not in its own map.

The model is written in Dafny and takes the source's own form:

- `Types.dfy` holds the vocabulary: type and object identities, the
  reflective view of a class, the error variants, and `Result`/`Outcome`.
  A *universe* maps each type to two things:
  - a descriptor: its name, and whether it is primitive, an array, a
    `Collection`, a `Map` or `Object`;
  - its public constructors, in listed order, each given by its parameter
    types.
- `BeanFactory.dfy` holds the side-effect-free part of `BeanFactory`:
  - validation and constructor selection, as functions;
  - the dependency graph that selection induces;
  - `checkForCircularDependency`, as a method that adds to and removes from
    a shared ancestor set. It is proved equal to a recursive specification,
    `CycleCheck`. Lemmas prove that specification sound (a pass means no
    cycle is reachable) and that a reported cycle is real.
- `BeanLockManager.dfy` holds the lock set as a class with a `set` field.
- `Registry.dfy` holds the `Beans` registry, as a class with a `map`
  field, together with `createBean`, `getDependencies` and
  `createBeanInstance`. These call `Beans.inject` and are called by it, so
  they share a module. A `Runtime` object stands for
  `Constructor.newInstance`:
  - a given function says whether a constructor throws;
  - a log records every object built, and an object's identity is its
    position in that log.

  Every new registry entry is proved to be *built from* the registry: an
  object made by the type's selected constructor, whose arguments are the
  registry's own entries for the parameter types, in parameter order.

  The same module states the whole creation process as functions of a
  *store* (the registry's map plus the object log): `InjectRun`,
  `CreateBeanRun`, `CreateLockedRun`, `ConstructRun` and `DepsRun`. Each
  returns the result or exception together with the store it leaves
  behind. Each creation method is proved to end with exactly that result
  and that store, on normal and exceptional exit alike. So the model
  pins down which error a failed creation throws, and that whatever was
  registered before the exception stays registered.
- `IoCContext.dfy` holds `IoCContext`, as a class with its own map and a
  reference to the registry.
- `Scenarios.dfy` states what the container does on the repository's sample graphs:
  - `UserController(UserService, UserRepo)`;
  - the cycle `A -> B -> C -> A`;
  - a diamond;
  - `Book(Integer, String, String)`.

The Java code runs `createBean` inside a busy-wait on the type's lock. The
model replaces that wait with a precondition: the type is not locked on
entry. A ghost argument `chain` records the types whose creation is in
progress on the current call stack. It always equals the lock set, and it
is a path of the dependency graph. A call from application code has an
empty chain. The nested calls made by `getDependencies` extend the chain
by one type, and the cycle check they passed shows that this type is not
already on it. The recursion between `inject` and `createBean` terminates
because every nested `createBean` holds one more lock than its caller, out
of a finite universe.

## Model

| member | source | states |
|---|---|---|
| BeanFactory.ValidateBeanType | src/main/java/net/tylerwade/ioc/BeanFactory.java:58-71 | no contract of its own: the function follows the source's single condition, and its promise is stated by `ValidationMatchesEligibility` (next row) |
| BeanFactory.ValidationMatchesEligibility | src/main/java/net/tylerwade/ioc/BeanFactory.java:58-71 | validation passes exactly for an eligible type: not primitive, array, collection, map or `Object`, and a name outside `net.tylerwade.ioc.`, `java.lang.`, `java.util.` and `java.time.`; a rejection is `InvalidBeanType(t)` with no owner |
| BeanFactory.NameDecidesPlainTypes | src/main/java/net/tylerwade/ioc/BeanFactory.java:60-64 | for a type of none of the rejected kinds, validation fails exactly when its name starts with a reserved package prefix |
| BeanFactory.GreediestIndex | src/main/java/net/tylerwade/ioc/BeanFactory.java:89-91 | the chosen constructor has at least as many parameters as every constructor, and strictly more than every constructor listed before it (the first maximum) |
| BeanFactory.FirstInvalidParam | src/main/java/net/tylerwade/ioc/BeanFactory.java:93-99 | none exactly when every parameter type validates; otherwise the position of the first parameter type that fails, all earlier ones passing |
| BeanFactory.GetGreediestConstructor | src/main/java/net/tylerwade/ioc/BeanFactory.java:79-102 | a selected constructor is one of the type's own; selection fails only with `RequiredConstructorNotFound` or `InvalidBeanType` |
| BeanFactory.GreediestConstructorSpec | src/main/java/net/tylerwade/ioc/BeanFactory.java:79-102 | `RequiredConstructorNotFound(t)` exactly when there is no constructor; a single constructor is returned without validating its parameters; with two or more, the greediest is returned exactly when all its parameter types validate, and otherwise the error is `InvalidBeanType(p, t)` for the first invalid parameter `p` |
| BeanFactory.GreediestIsMaximalAndValid | src/main/java/net/tylerwade/ioc/BeanFactory.java:89-99 | with two or more constructors, a selected constructor has as many parameters as any other and only valid parameter types |
| BeanFactory.Deps | src/main/java/net/tylerwade/ioc/BeanFactory.java:115-117 | the dependency edges of a type are the parameter types of its selected constructor, all of them known types |
| BeanFactory.CheckForCircularDependency | src/main/java/net/tylerwade/ioc/BeanFactory.java:111-126 | the in-place search with a shared ancestor set reports exactly what the recursive specification `CycleCheck` reports; on normal return the ancestor set is back to its entry contents |
| BeanFactory.CycleCheckParamsPassed | src/main/java/net/tylerwade/ioc/BeanFactory.java:117-123 | once the loop over the parameters has passed, every parameter type was off the ancestor path and its own search passed |
| BeanFactory.CycleCheckPassSound | src/main/java/net/tylerwade/ioc/BeanFactory.java:111-126 | when the check passes, every dependency chain from the type is free of repeated types, avoids the ancestors, and consists of types whose selection succeeds |
| BeanFactory.CircularDependencyWitness | src/main/java/net/tylerwade/ioc/BeanFactory.java:117-120 | a reported `CircularDependency(d, q)` names a real edge `d -> q` at the end of a dependency chain from the start type, with `q` an ancestor or on that chain |
| BeanFactory.CircularParamsWitness | src/main/java/net/tylerwade/ioc/BeanFactory.java:117-123 | the same for the loop over one type's parameters |
| BeanFactory.DependencyNotOnChain | src/main/java/net/tylerwade/ioc/BeanFactory.java:139-140 | after a passed cycle check, a dependency of the type being created is not on the chain of creations in progress, so `inject` never meets a lock already held on the same call stack |
| BeanLockManager.LockManager.constructor | src/main/java/net/tylerwade/ioc/BeanLockManager.java:11 | the lock set starts empty |
| BeanLockManager.LockManager.IsLocked | src/main/java/net/tylerwade/ioc/BeanLockManager.java:18-20 | true exactly when the type is in the lock set |
| BeanLockManager.LockManager.Lock | src/main/java/net/tylerwade/ioc/BeanLockManager.java:27-29 | acquired exactly when the type was not locked; the type is in the set afterwards and nothing else changes |
| BeanLockManager.LockManager.Unlock | src/main/java/net/tylerwade/ioc/BeanLockManager.java:35-37 | the type is absent afterwards and every other member stays |
| Registry.Runtime.Allocate | src/main/java/net/tylerwade/ioc/BeanFactory.java:162 | a constructed object gets an identity distinct from every earlier object, and the log grows by exactly that object |
| Registry.Beans.constructor | src/main/java/net/tylerwade/ioc/Beans.java:15 | the registry starts empty |
| Registry.Beans.Inject | src/main/java/net/tylerwade/ioc/Beans.java:24-44 | a registered type returns its stored instance, with nothing changed; otherwise success exactly when the type is registered afterwards, under the returned id; the lock set is unchanged; old entries stay; every new entry is a new object built from the registry's own entries, and is the type itself or one of its direct or transitive dependencies; every object constructed during the call is held by a new entry, so nothing is built twice or built and then dropped; the result, the registry and the object log are exactly those `InjectRun` gives, on success and on failure alike; if a creation check fails for the type, that error is returned and nothing changes; if all checks pass for everything reachable and no constructor throws, injection succeeds |
| Registry.Beans.CreateAndRegister | src/main/java/net/tylerwade/ioc/Beans.java:33-36 | the branch for an unregistered type: the same guarantees as `Inject`, including the exact outcome and final state given by `InjectRun`, with success exactly when the type is registered afterwards under the created object |
| Registry.Beans.Exists | src/main/java/net/tylerwade/ioc/Beans.java:52-55 | true exactly when the type is registered |
| Registry.Beans.IsCreating | src/main/java/net/tylerwade/ioc/Beans.java:64-67 | true exactly when the type's creation lock is held |
| Registry.Beans.Clear | src/main/java/net/tylerwade/ioc/Beans.java:72-75 | the registry is empty and the lock set is unchanged |
| Registry.Beans.Remove | src/main/java/net/tylerwade/ioc/Beans.java:82-85 | exactly the entry for the type is gone; every other entry stays (a no-op for an absent type) |
| Registry.Beans.RemoveWithDependencies | src/main/java/net/tylerwade/ioc/Beans.java:87-100 | a no-op for an absent type; otherwise the type is gone and the registry only shrinks; every removed type is reached from the type along a chain of types that were all registered (so a type that only uses it, like the controller of a removed service, stays); on normal return, every removed type's dependencies are removed too; it returns normally whenever selection succeeds for every registered type |
| Registry.Beans.RemoveAll | src/main/java/net/tylerwade/ioc/Beans.java:97-99 | after the loop over the parameter types, each of them is absent and the removals stay closed under dependencies; every removed type is reached from one of them along registered types |
| Registry.RemovalClosedTrans | src/main/java/net/tylerwade/ioc/Beans.java:97-99 | two successive removals that are each closed under dependencies are closed together |
| Registry.RemovedChainsGone | src/main/java/net/tylerwade/ioc/Beans.java:87-100 | after a closed removal, every registered chain of dependencies that starts at a removed type is removed entirely (the removal is transitive) |
| Registry.BuiltFromGrows | src/main/java/net/tylerwade/ioc/Beans.java:35 | an object built from the registry's entries stays so as the registry gains entries |
| Registry.InstanceBuiltFrom | src/main/java/net/tylerwade/ioc/BeanFactory.java:158-162 | the object made from resolved dependencies that are the registry's own entries is built from the registry |
| Registry.NewEntriesCompose | src/main/java/net/tylerwade/ioc/BeanFactory.java:139-141 | entries added by two successive injections were added by the two together, each still built from the grown registry |
| Registry.NewObjectsCompose | src/main/java/net/tylerwade/ioc/BeanFactory.java:139-141 | if every object constructed by each of two successive injections is held by an entry it added, the same holds for the two together |
| Registry.NewObjectsPut | src/main/java/net/tylerwade/ioc/Beans.java:34-35 | storing the just-built object under its type extends "every constructed object is held by a new entry" to that object |
| Registry.CreateBean | src/main/java/net/tylerwade/ioc/BeanFactory.java:26-56 | the lock set is the same on every exit (locked, then unlocked in `finally`); a failed validation, selection or cycle check is returned before any injection or constructor call, with the registry and object log untouched; a success is a new object built from the registry; new entries are never for types whose creation is in progress, and each is the type or one of its transitive dependencies; every object constructed during the call is held by a new entry, except a successful result, which is the last object built; the result, registry and object log are exactly those `CreateBeanRun` gives, whatever is thrown |
| Registry.CreateBeanLocked | src/main/java/net/tylerwade/ioc/BeanFactory.java:34-49 | the body of the `try` block, with the same guarantees while the lock is held; the outcome and final state are exactly those of `CreateLockedRun` |
| Registry.Construct | src/main/java/net/tylerwade/ioc/BeanFactory.java:42-44 | once the checks have passed: new entries are the type's transitive dependencies, built from the registry; a success is one new object built by the selected constructor from the registry's entries; every object constructed during the call is held by a new entry, except a successful result, which is the last object built; success whenever everything reachable passes the checks and no constructor throws; the outcome and final state are exactly those of `ConstructRun` |
| Registry.GetDependencies | src/main/java/net/tylerwade/ioc/BeanFactory.java:135-145 | on success, the map has exactly the required types as keys, each mapped to that type's registry entry; the registry only grows, with new entries built from it, each a required type or one of its transitive dependencies; every object constructed during the call, on success or failure, is held by a new entry (nothing is rolled back and nothing is built twice); success whenever everything reachable passes the checks and no constructor throws; the map or exception, the registry and the object log are exactly those of `DepsRun` from the first parameter type |
| Registry.InjectDependency | src/main/java/net/tylerwade/ioc/BeanFactory.java:139-141 | one `inject` of the loop: a registered dependency is returned with nothing changed; on success the dependency is registered under the returned id; new entries are the dependency or its transitive dependencies; every object constructed is held by a new entry; the outcome and final state are exactly those of `InjectRun` on the dependency |
| Registry.ResolveNext | src/main/java/net/tylerwade/ioc/BeanFactory.java:139-141 | one step of the loop, measured from the loop's start: the entries added so far are required types or their transitive dependencies, built from the registry, every object constructed so far is held by one of them, and on success the step's type is registered under the returned id; the step is one unfolding of `DepsRun`: a failure ends the loop with this step's exception and store, a success continues it from the next index with the new entry collected |
| Registry.InjectRun | src/main/java/net/tylerwade/ioc/Beans.java:24-44 | `inject` on a store: a registered type is returned as stored; otherwise `createBean`, whose exception propagates, then `put`; the store only grows (no entry is dropped or changed, the log is only appended to), and a success leaves the type registered under the result |
| Registry.CreateBeanRun | src/main/java/net/tylerwade/ioc/BeanFactory.java:26-56 | `createBean` on a store: a type whose lock is held is a `CreationConflict`; otherwise the `try` block runs with the lock added; the store only grows |
| Registry.CreateLockedRun | src/main/java/net/tylerwade/ioc/BeanFactory.java:34-49 | a failed check throws its error with the store unchanged; otherwise construction; the store only grows |
| Registry.ConstructRun | src/main/java/net/tylerwade/ioc/BeanFactory.java:42-44 | the dependencies' exception propagates with their store; then the selected constructor is called on them, a throw becoming `BeanCreation` and a success the next object in the log; the store only grows |
| Registry.DepsRun | src/main/java/net/tylerwade/ioc/BeanFactory.java:135-145 | each parameter type is injected in order into the store the previous one left, and the first exception ends the loop with that store; the store only grows; a success maps every parameter type |
| Registry.DepsFailureKeepsEarlier | src/main/java/net/tylerwade/ioc/BeanFactory.java:139-141 | a failed loop failed while injecting some parameter type, with exactly that injection's exception, and every parameter type before it is still registered afterwards |
| Registry.Arguments | src/main/java/net/tylerwade/ioc/BeanFactory.java:158-160 | one argument per parameter, each the resolved instance of that parameter's type |
| Registry.CreateBeanInstance | src/main/java/net/tylerwade/ioc/BeanFactory.java:155-166 | a throwing constructor becomes `BeanCreation(type, ctor, cause)` with nothing allocated; otherwise one new object of the type, built by that constructor from the arguments in parameter order |
| Context.IoCContext.constructor | src/main/java/net/tylerwade/ioc/IoCContext.java:14 | the context's own map starts empty |
| Context.IoCContext.GetBean | src/main/java/net/tylerwade/ioc/IoCContext.java:23-44 | may not be asked for `IoCContext` itself; a present type returns the stored instance with nothing changed; success exactly when the type is in the context's map afterwards, under the returned id; only that key can be added; the registry gains only the type's transitive dependencies, not the type itself; every object constructed is held by a new registry entry, except a successful result, which is the last object built; check failures return their error with nothing changed; for a type the context lacks, the result, registry and object log are exactly those `CreateBeanRun` gives with no lock held |
| Context.IoCContext.BeanExists | src/main/java/net/tylerwade/ioc/IoCContext.java:52-55 | true exactly when the type is a key of the context's own map |
| Context.IoCContext.Clear | src/main/java/net/tylerwade/ioc/IoCContext.java:61-64 | the context's map is empty; the registry's entries are untouched |
| Scenarios.OrdinaryClassValid | src/main/java/net/tylerwade/ioc/BeanFactory.java:58-71 | a plain class whose name starts with neither `j` nor `n` is a valid bean type |
| Scenarios.UsersCreatable | src/test/java/BeansTests.java:85-97 | every sample user type passes validation, selection and the cycle check; the controller depends on the service and the repository, the service on the repository |
| Scenarios.InjectTwice | src/test/java/BeansTests.java:68-74 | two injections of `UserService` succeed with the identical instance |
| Scenarios.ControllerSharesDependencies | src/test/java/BeansTests.java:85-97 | after the controller is injected, the service and repository that `inject` then returns are exactly the controller's constructor arguments |
| Scenarios.RemoveThenInject | src/test/java/BeansTests.java:100-108 | after `remove`, the next injection builds a different instance |
| Scenarios.RemoveControllerWithDependencies | src/test/java/BeansTests.java:124-137 | after `removeWithDependencies(UserController)`, the controller, service and repository are all absent |
| Scenarios.RemoveServiceWithDependencies | src/main/java/net/tylerwade/ioc/Beans.java:87-100 | after `removeWithDependencies(UserService)` on a registry holding all three user types, the service and repository are absent and the controller stays |
| Scenarios.RepoInjectedFirst | src/main/java/net/tylerwade/ioc/BeanFactory.java:135-145 | with the controller and service being created, injecting the repository builds it as object 0 and registers it |
| Scenarios.ServiceInjectedSecond | src/main/java/net/tylerwade/ioc/BeanFactory.java:135-145 | with the controller being created, injecting the service registers the repository (object 0), then the service built from it (object 1) |
| Scenarios.ControllerFailureKeepsDependencies | src/main/java/net/tylerwade/ioc/BeanFactory.java:155-166 | when only the controller's constructor throws, `inject(UserController)` on an empty store throws `BeanCreation` for the controller, and the store keeps the repository and the service it built first |
| Scenarios.ControllerFailureRegistry | src/main/java/net/tylerwade/ioc/Beans.java:33-35 | the same through `Beans.inject`: the exception is returned and the registry holds exactly the repository and the service |
| Scenarios.CycleReported | src/test/java/CircularDependencyTests.java:19-35 | on `A -> B -> C -> A`, starting from A reports dependent C and parent A; from B, dependent A and parent B; from C, dependent B and parent C |
| Scenarios.InjectOnCycle | src/test/java/CircularDependencyTests.java:27-35 | injecting A fails with `CircularDependency(C, A)`, constructs nothing and registers nothing |
| Scenarios.DiamondIsNotACycle | src/main/java/net/tylerwade/ioc/BeanFactory.java:113-125 | a type reached along two sibling branches is not reported as a cycle |
| Scenarios.MissingConstructor | src/main/java/net/tylerwade/ioc/BeanFactory.java:83-84 | a type without public constructors fails selection, and so does the cycle check of a type that depends on it |
| Scenarios.BookRejected | src/test/java/StandardClassTests.java:21-29 | `String` is rejected by validation; `Book`'s single constructor is selected unvalidated, and its creation fails in the cycle check with `InvalidBeanType(int, Integer)` |
| Scenarios.ThreadStateRejectedByName | src/test/java/BeanCreationValidationTests.java:69-72 | the enum `java.lang.Thread$State` is rejected for its name alone; the same class under another package would pass |
| Scenarios.LockProtocol | src/main/java/net/tylerwade/ioc/BeanLockManager.java:27-37 | locking a free type succeeds, locking it again fails without change, and unlocking twice restores the original set |
| Scenarios.ContextDuplicatesService | src/main/java/net/tylerwade/ioc/IoCContext.java:33-35 | `IoCContext.getBean(UserService)` after `getBean(UserController)` returns a different object from the service the controller was built with |

## Left out

- Concurrency. The model is sequential, and Java's `synchronized` has no counterpart.
  - The busy-wait on the lock in `inject` and `getBean` becomes a precondition: the type is not locked on entry.
  - The `IllegalStateException` branch of `createBean` is unreachable for the methods under that precondition. `CreateBeanRun` returns `CreationConflict` for it. That branch's `finally` then releases a lock held by the other creation, which the store-level functions do not track.
  - Cross-thread deadlock is not modelled.
- Java reflection is abstracted.
  - A class is a descriptor plus its constructor list.
  - `Collection`, `Map` and `Object` are flags, with no type hierarchy behind them.
  - `newInstance` is a given function that reports whether a constructor throws. Every constructor exception is treated as a reflective failure, which is what `InvocationTargetException` makes of it.
  - That function depends only on the type, the constructor and the arguments. A retry after a `BeanCreation` failure, with the same registered dependencies, therefore fails again. A constructor that fails once and succeeds later (a transient failure) is not modelled.
- Tie-breaking between constructors of equal arity is fixed as the first maximum in listed order. The order `getConstructors` returns is unspecified, so this rule is a choice of the model, not a claim about the JVM.
- Logging is not modelled. The `assertThat` checks become preconditions, and a `null` type cannot be expressed.
- Exception messages are not modelled; each exception is an error variant with the fields it carries. `BeanNotFoundException` is never thrown by the core.
- The test fixtures are used only as dependency graphs. The sample user repository's seeded data is not modelled.
- The identity expectations at `src/test/java/IoCContextTests.java:92-94` do not hold for this code. `IoCContext` builds a second `UserService` in its own map, while the controller holds the registry's instance. They are not claimed; `Scenarios.ContextDuplicatesService` shows the opposite.
- Registry.Beans.RemoveWithDependencies: when selection throws part-way, the contract does not say which error is returned, nor exactly which removals were made before it. It states that the type is gone and that everything removed is reached from it through registered types.
