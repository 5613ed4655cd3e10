/** The side-effect-free half of `BeanFactory`: type validation, greediest
    constructor selection, the dependency graph those selections induce, and
    the depth-first cycle check over it. (`createBean`, `getDependencies` and
    `createBeanInstance` change the registry and the lock set; they are in
    module Registry, next to `Beans.inject`, with which they are mutually
    recursive.) */
module BeanFactory {
  import opened Types

  // ---------------------------------------------------------------------
  // validateBeanType
  // ---------------------------------------------------------------------

  /** Name prefixes of the packages whose classes are never beans: the
      container's own package and the JDK's lang, util and time packages. */
  const ReservedPackages: seq<string> :=
    ["net.tylerwade.ioc.", "java.lang.", "java.util.", "java.time."]

  predicate StartsWith(s: string, prefix: string)
  {
    |prefix| <= |s| && s[..|prefix|] == prefix
  }

  /** A type the container may manage: not primitive, array, collection, map
      or `Object`, and not declared in a reserved package. */
  ghost predicate IsEligible(d: Descriptor)
  {
    && !d.isPrimitive && !d.isArray && !d.isCollection && !d.isMap && !d.isObject
    && forall pre :: pre in ReservedPackages ==> !StartsWith(d.name, pre)
  }

  /** `validateBeanType`: an `InvalidBeanTypeException(type)` for a
      primitive, a type of a reserved package, a collection, a map, an array
      or `Object`. */
  function ValidateBeanType(u: Universe, t: TypeId): Outcome
    requires t in u
  {
    var d := u[t].desc;
    if d.isPrimitive
       || StartsWith(d.name, "net.tylerwade.ioc.")
       || StartsWith(d.name, "java.lang.")
       || StartsWith(d.name, "java.util.")
       || StartsWith(d.name, "java.time.")
       || d.isCollection
       || d.isMap
       || d.isArray
       || d.isObject
    then Fail(InvalidBeanType(t, None))
    else Pass
  }

  /** Validation rejects every type that is not eligible, naming it alone,
      and passes every eligible type. */
  lemma ValidationMatchesEligibility(u: Universe, t: TypeId)
    requires t in u
    ensures ValidateBeanType(u, t).Pass? <==> IsEligible(u[t].desc)
    ensures ValidateBeanType(u, t).Fail? ==> ValidateBeanType(u, t).error == InvalidBeanType(t, None)
  {
  }

  /** A type that carries none of the rejected kinds is rejected exactly when
      its name lies in a reserved package: rejection looks at the name, not
      at what sort of type it is (an enum, for one, is not rejected as such). */
  lemma NameDecidesPlainTypes(u: Universe, t: TypeId)
    requires t in u
    requires var d := u[t].desc; !d.isPrimitive && !d.isArray && !d.isCollection && !d.isMap && !d.isObject
    ensures ValidateBeanType(u, t).Fail? <==>
              exists pre :: pre in ReservedPackages && StartsWith(u[t].desc.name, pre)
  {
  }

  // ---------------------------------------------------------------------
  // getGreediestConstructor
  // ---------------------------------------------------------------------

  /** `cs[k]` has the most parameters, and every constructor listed before
      it has strictly fewer: the first constructor of maximal arity. */
  ghost predicate IsGreediest(cs: seq<Ctor>, k: int)
  {
    && 0 <= k < |cs|
    && (forall j :: 0 <= j < |cs| ==> |cs[j].params| <= |cs[k].params|)
    && (forall j :: 0 <= j < k ==> |cs[j].params| < |cs[k].params|)
  }

  /** The index the stream maximum picks, ties going to the constructor
      listed first. */
  function GreediestIndex(cs: seq<Ctor>): (k: nat)
    requires |cs| > 0
    ensures IsGreediest(cs, k)
  {
    if |cs| == 1 then 0
    else
      var k := GreediestIndex(cs[..|cs| - 1]);
      if |cs[|cs| - 1].params| > |cs[k].params| then |cs| - 1 else k
  }

  /** The position of the first parameter type that fails validation, if any. */
  function FirstInvalidParam(u: Universe, ps: seq<TypeId>): (r: Option<nat>)
    requires forall p :: p in ps ==> p in u
    ensures r.None? <==> forall p :: p in ps ==> ValidateBeanType(u, p).Pass?
    ensures r.Some? ==> && r.value < |ps|
                        && ValidateBeanType(u, ps[r.value]).Fail?
                        && forall j :: 0 <= j < r.value ==> ValidateBeanType(u, ps[j]).Pass?
  {
    if ps == [] then None
    else if ValidateBeanType(u, ps[0]).Fail? then Some(0)
    else
      match FirstInvalidParam(u, ps[1..])
      case None => None
      case Some(k) => Some(k + 1)
  }

  /** `getGreediestConstructor`. */
  function GetGreediestConstructor(u: Universe, t: TypeId): (r: Result<Ctor>)
    requires t in u
    ensures r.Success? ==> r.value in u[t].ctors
    ensures r.Failure? ==> r.error.RequiredConstructorNotFound? || r.error.InvalidBeanType?
  {
    var cs := u[t].ctors;
    if |cs| == 0 then Failure(RequiredConstructorNotFound(t))
    else if |cs| == 1 then Success(cs[0])
    else
      var c := cs[GreediestIndex(cs)];
      match FirstInvalidParam(u, c.params)
      case Some(k) => Failure(InvalidBeanType(c.params[k], Some(t)))
      case None => Success(c)
  }

  /** Constructor selection: no public constructor is an error; a single one
      is returned as it is, without looking at its parameters; among two or
      more, the greediest is chosen and its parameters must all be valid
      bean types, the first invalid one being reported together with the
      type that owns the constructor. */
  lemma GreediestConstructorSpec(u: Universe, t: TypeId)
    requires t in u
    ensures var r := GetGreediestConstructor(u, t);
            && (r == Failure(RequiredConstructorNotFound(t)) <==> |u[t].ctors| == 0)
            && (|u[t].ctors| == 1 ==> r == Success(u[t].ctors[0]))
            && (|u[t].ctors| >= 2 ==>
                  var cs := u[t].ctors;
                  var c := cs[GreediestIndex(cs)];
                  && (r.Success? ==> r.value == c)
                  && (r.Success? <==> forall p :: p in c.params ==> ValidateBeanType(u, p).Pass?)
                  && (r.Failure? ==>
                        && r.error.InvalidBeanType? && r.error.owner == Some(t)
                        && exists k :: && 0 <= k < |c.params| && c.params[k] == r.error.beanType
                                       && ValidateBeanType(u, c.params[k]).Fail?
                                       && forall j :: 0 <= j < k ==> ValidateBeanType(u, c.params[j]).Pass?))
  {
    var cs := u[t].ctors;
    if |cs| >= 2 {
      var c := cs[GreediestIndex(cs)];
      var r := GetGreediestConstructor(u, t);
      if r.Failure? {
        var k := FirstInvalidParam(u, c.params).value;
        assert c.params[k] == r.error.beanType;
      }
    }
  }

  /** With two or more constructors, a successful selection has the most
      parameters of all and only valid parameter types. */
  lemma GreediestIsMaximalAndValid(u: Universe, t: TypeId)
    requires t in u && |u[t].ctors| >= 2
    requires GetGreediestConstructor(u, t).Success?
    ensures var c := GetGreediestConstructor(u, t).value;
            && (forall d :: d in u[t].ctors ==> |d.params| <= |c.params|)
            && (forall p :: p in c.params ==> ValidateBeanType(u, p).Pass?)
  {
    GreediestConstructorSpec(u, t);
    var cs := u[t].ctors;
    var k := GreediestIndex(cs);
    forall d | d in cs ensures |d.params| <= |cs[k].params| {
      var j :| 0 <= j < |cs| && cs[j] == d;
    }
  }

  // ---------------------------------------------------------------------
  // The dependency graph: an edge from each type to every parameter type of
  // the constructor that getGreediestConstructor selects for it.
  // ---------------------------------------------------------------------

  /** The parameter types of the selected constructor (none when selection
      throws). */
  function Deps(u: Universe, t: TypeId): (ps: seq<TypeId>)
    requires t in u
    ensures forall p :: p in ps ==> p in u
    ensures GetGreediestConstructor(u, t).Success? ==> ps == GetGreediestConstructor(u, t).value.params
  {
    match GetGreediestConstructor(u, t)
    case Success(c) => c.params
    case Failure(_) => []
  }

  /** `p` is a chain of types each of which depends on the next. */
  ghost predicate IsPath(u: Universe, p: seq<TypeId>)
  {
    && |p| > 0
    && (forall i :: 0 <= i < |p| ==> p[i] in u)
    && (forall i :: 0 <= i < |p| - 1 ==> p[i + 1] in Deps(u, p[i]))
  }

  /** An edge into the head of a chain extends the chain at the front. */
  lemma PathCons(u: Universe, t: TypeId, p: seq<TypeId>)
    requires t in u && IsPath(u, p) && p[0] in Deps(u, t)
    ensures IsPath(u, [t] + p) && ([t] + p)[|p|] == p[|p| - 1]
  {
    var q := [t] + p;
    forall i | 0 <= i < |q| - 1 ensures q[i + 1] in Deps(u, q[i]) {
      if i > 0 { assert q[i] == p[i - 1] && q[i + 1] == p[i]; }
    }
  }

  /** Every non-empty suffix of a chain is a chain. */
  lemma PathSuffix(u: Universe, p: seq<TypeId>, k: nat)
    requires IsPath(u, p) && k < |p|
    ensures IsPath(u, p[k..])
  {
    var rest := p[k..];
    forall i | 0 <= i < |rest| - 1 ensures rest[i + 1] in Deps(u, rest[i]) {
      assert rest[i] == p[k + i] && rest[i + 1] == p[k + i + 1];
    }
  }

  /** An edge out of the last type of a chain extends the chain at the end. */
  lemma PathSnoc(u: Universe, p: seq<TypeId>, t: TypeId)
    requires IsPath(u, p) && t in Deps(u, p[|p| - 1])
    ensures IsPath(u, p + [t])
  {
    var q := p + [t];
    forall i | 0 <= i < |q| - 1 ensures q[i + 1] in Deps(u, q[i]) {
      if i + 1 < |p| { assert q[i] == p[i] && q[i + 1] == p[i + 1]; }
    }
  }

  /** Adding a type of `keys` that `a` lacks removes exactly that type from
      `keys - a`, so the measure of the recursions over a growing set of
      ancestors (or locks) drops by one. */
  lemma CardinalityStep(keys: set<TypeId>, a: set<TypeId>, t: TypeId)
    requires t in keys && t !in a
    ensures |keys - (a + {t})| < |keys - a|
  {
    assert keys - a == (keys - (a + {t})) + {t};
  }

  // ---------------------------------------------------------------------
  // checkForCircularDependency
  // ---------------------------------------------------------------------

  /** What the depth-first check started at `t`, with `ancestors` on the
      path above it, reports. */
  function CycleCheck(u: Universe, t: TypeId, ancestors: set<TypeId>): Outcome
    requires t in u && t !in ancestors && ancestors <= u.Keys
    decreases |u.Keys - ancestors|, 0
  {
    match GetGreediestConstructor(u, t)
    case Failure(e) => Fail(e)
    case Success(c) =>
      CardinalityStep(u.Keys, ancestors, t);
      CycleCheckParams(u, t, c.params, ancestors + {t})
  }

  /** The loop over the parameter types `ps` of `owner`, with `path` the
      ancestor set including `owner`. */
  function CycleCheckParams(u: Universe, owner: TypeId, ps: seq<TypeId>, path: set<TypeId>): Outcome
    requires path <= u.Keys && forall p :: p in ps ==> p in u
    decreases |u.Keys - path|, 1, |ps|
  {
    if ps == [] then Pass
    else if ps[0] in path then Fail(CircularDependency(owner, ps[0]))
    else
      match CycleCheck(u, ps[0], path)
      case Fail(e) => Fail(e)
      case Pass => CycleCheckParams(u, owner, ps[1..], path)
  }

  /** `checkForCircularDependency(clazz, parents)`: adds `clazz` to the shared
      ancestor set, visits every parameter type of its selected constructor
      depth first, and removes `clazz` again. `after` is the ancestor set
      when the call ends; on normal return it is exactly what it was on
      entry, which is what keeps sibling subtrees independent. */
  method CheckForCircularDependency(u: Universe, clazz: TypeId, parents: set<TypeId>)
      returns (r: Outcome, after: set<TypeId>)
    requires clazz in u && clazz !in parents && parents <= u.Keys
    ensures r == CycleCheck(u, clazz, parents)
    ensures r.Pass? ==> after == parents
    decreases |u.Keys - parents|
  {
    after := parents + {clazz};
    var selected := GetGreediestConstructor(u, clazz);
    if selected.Failure? {
      return Fail(selected.error), after;
    }
    var ps := selected.value.params;
    CardinalityStep(u.Keys, parents, clazz);
    assert ps[0..] == ps;
    var i := 0;
    while i < |ps|
      invariant 0 <= i <= |ps|
      invariant after == parents + {clazz}
      invariant CycleCheckParams(u, clazz, ps[i..], after) == CycleCheck(u, clazz, parents)
    {
      assert ps[i..][1..] == ps[i + 1..];
      if ps[i] in after {
        return Fail(CircularDependency(clazz, ps[i])), after;
      }
      var sub;
      sub, after := CheckForCircularDependency(u, ps[i], after);
      if sub.Fail? {
        return sub, after;
      }
      i := i + 1;
    }
    after := after - {clazz};
    r := Pass;
  }

  /** A parameter the loop got past was off the ancestor path and its own
      subtree passed. */
  lemma {:induction false} CycleCheckParamsPassed(u: Universe, owner: TypeId, ps: seq<TypeId>, path: set<TypeId>, q: TypeId)
    requires path <= u.Keys && forall p :: p in ps ==> p in u
    requires CycleCheckParams(u, owner, ps, path).Pass?
    requires q in ps
    ensures q !in path && CycleCheck(u, q, path).Pass?
    decreases |ps|
  {
    if ps[0] != q {
      CycleCheckParamsPassed(u, owner, ps[1..], path, q);
    }
  }

  /** Soundness: when the check passes, every dependency chain from `t` is
      free of repetition (no cycle is reachable), avoids the ancestors, and
      runs through types whose constructor selection succeeds. */
  lemma {:induction false} CycleCheckPassSound(u: Universe, t: TypeId, ancestors: set<TypeId>, p: seq<TypeId>)
    requires t in u && t !in ancestors && ancestors <= u.Keys
    requires CycleCheck(u, t, ancestors).Pass?
    requires IsPath(u, p) && p[0] == t
    ensures forall i :: 0 <= i < |p| ==> p[i] !in ancestors && GetGreediestConstructor(u, p[i]).Success?
    ensures forall i, j :: 0 <= i < j < |p| ==> p[i] != p[j]
    decreases |p|
  {
    var c := GetGreediestConstructor(u, t).value;
    if |p| > 1 {
      var path := ancestors + {t};
      CycleCheckParamsPassed(u, t, c.params, path, p[1]);
      var rest := p[1..];
      PathSuffix(u, p, 1);
      CycleCheckPassSound(u, p[1], path, rest);
      forall i | 0 <= i < |p| ensures p[i] !in ancestors && GetGreediestConstructor(u, p[i]).Success? {
        if i > 0 { assert p[i] == rest[i - 1]; }
      }
      forall i, j | 0 <= i < j < |p| ensures p[i] != p[j] {
        assert p[j] == rest[j - 1];
        if i > 0 { assert p[i] == rest[i - 1]; }
      }
    }
  }

  /** Completeness of a report: a `CircularDependency(d, q)` raised from `t`
      names a real edge `d -> q` at the end of a dependency chain from `t`,
      and `q` is an ancestor or lies on that chain. Started with no
      ancestors, it therefore exhibits a genuine cycle through `q`. */
  lemma {:induction false} CircularDependencyWitness(u: Universe, t: TypeId, ancestors: set<TypeId>, d: TypeId, q: TypeId)
      returns (p: seq<TypeId>)
    requires t in u && t !in ancestors && ancestors <= u.Keys
    requires CycleCheck(u, t, ancestors) == Fail(CircularDependency(d, q))
    ensures IsPath(u, p) && p[0] == t && p[|p| - 1] == d
    ensures q in Deps(u, d)
    ensures q in ancestors || q in p
    decreases |u.Keys - ancestors|, 0
  {
    var sel := GetGreediestConstructor(u, t);
    match sel
    case Success(c) =>
      CardinalityStep(u.Keys, ancestors, t);
      p := CircularParamsWitness(u, t, c.params, ancestors + {t}, d, q);
  }

  lemma {:induction false} CircularParamsWitness(u: Universe, owner: TypeId, ps: seq<TypeId>, path: set<TypeId>, d: TypeId, q: TypeId)
      returns (p: seq<TypeId>)
    requires owner in u && owner in path && path <= u.Keys
    requires GetGreediestConstructor(u, owner).Success?
    requires forall x :: x in ps ==> x in u && x in Deps(u, owner)
    requires CycleCheckParams(u, owner, ps, path) == Fail(CircularDependency(d, q))
    ensures IsPath(u, p) && p[0] == owner && p[|p| - 1] == d
    ensures q in Deps(u, d)
    ensures q in path || q in p
    decreases |u.Keys - path|, 1, |ps|
  {
    if ps[0] in path {
      p := [owner];
    } else if CycleCheck(u, ps[0], path).Fail? {
      var sub := CircularDependencyWitness(u, ps[0], path, d, q);
      PathCons(u, owner, sub);
      p := [owner] + sub;
    } else {
      p := CircularParamsWitness(u, owner, ps[1..], path, d, q);
    }
  }

  /** A dependency of the last type on a chain whose last type passed the
      cycle check is not on that chain. (This is why a dependency's creation
      never waits on a lock held further up the same call stack.) */
  lemma DependencyNotOnChain(u: Universe, s: seq<TypeId>, p: TypeId)
    requires IsPath(u, s)
    requires CycleCheck(u, s[|s| - 1], {}).Pass?
    requires p in Deps(u, s[|s| - 1])
    ensures p !in s && IsPath(u, s + [p])
  {
    var t := s[|s| - 1];
    if p in s {
      // Then t -> s[k] -> ... -> t would be a cycle the check let through.
      var k :| 0 <= k < |s| && s[k] == p;
      PathSuffix(u, s, k);
      PathCons(u, t, s[k..]);
      var q := [t] + s[k..];
      assert q[|q| - 1] == q[0];
      CycleCheckPassSound(u, t, {}, q);
      assert false;
    }
    PathSnoc(u, s, p);
  }
}
