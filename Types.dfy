/** The vocabulary shared by the container model: type identities, the
    reflective view of a type (its descriptor and its public constructors),
    the error taxonomy, and small failure-carrying wrappers. */
module Types {

  /** Identity of a Java `Class<?>`; equality is class identity. */
  type TypeId = nat

  /** Identity of a constructed Java object (its index in the runtime's log
      of allocated objects). */
  type ObjId = nat

  /** Identity of the throwable a reflective constructor call raised. */
  type Cause = nat

  /** What `Class` reflection tells the validator about a type: its binary
      name and the kinds the validator asks about. */
  datatype Descriptor = Descriptor(
    name: string,
    isPrimitive: bool,
    isArray: bool,
    isCollection: bool,   // Collection.class.isAssignableFrom(type)
    isMap: bool,          // Map.class.isAssignableFrom(type)
    isObject: bool)       // type == Object.class

  /** A public constructor, seen through its ordered parameter types. */
  datatype Ctor = Ctor(params: seq<TypeId>)

  /** Everything reflection reveals about one type: its descriptor and its
      public constructors in the order `getConstructors` lists them. */
  datatype TypeInfo = TypeInfo(desc: Descriptor, ctors: seq<Ctor>)

  /** Every parameter type of every constructor is itself a known type. */
  predicate Closed(u: map<TypeId, TypeInfo>)
  {
    forall t, c, p :: t in u && c in u[t].ctors && p in c.params ==> p in u
  }

  /** The finite, closed set of classes visible to the container. */
  type Universe = u: map<TypeId, TypeInfo> | Closed(u) witness map[]

  /** The exceptions the core raises, one variant per exception class. */
  datatype Error =
    | InvalidBeanType(beanType: TypeId, owner: Option<TypeId>)   // InvalidBeanTypeException(type[, parentClass])
    | RequiredConstructorNotFound(clazz: TypeId)
    | CircularDependency(dependent: TypeId, parent: TypeId)
    | BeanCreation(beanType: TypeId, ctor: Ctor, cause: Cause)
    | CreationConflict(beanType: TypeId)                           // IllegalStateException: the type's lock was already held

  datatype Option<+T> = None | Some(value: T)

  /** A value or the exception that was thrown instead. */
  datatype Result<+T> = Success(value: T) | Failure(error: Error)

  /** Normal completion of a `void` method, or the exception it threw. */
  datatype Outcome = Pass | Fail(error: Error)

  /** The elements of a sequence, as a set. */
  function Elems<T>(s: seq<T>): set<T>
  {
    set x | x in s
  }

  /** Growing a prefix by one element adds that element to its elements. */
  lemma ElemsPrefixStep<T>(s: seq<T>, i: nat)
    requires i < |s|
    ensures Elems(s[..i + 1]) == Elems(s[..i]) + {s[i]}
  {
    assert s[..i + 1] == s[..i] + [s[i]];
  }

  /** The full prefix has all the elements. */
  lemma ElemsPrefixFull<T>(s: seq<T>)
    ensures Elems(s[..|s|]) == Elems(s)
  {
    assert s[..|s|] == s;
  }

  /** Every entry of `m` is still in `m'`, with the same value. */
  ghost predicate IsSubmap<K, V>(m: map<K, V>, m': map<K, V>)
  {
    forall k {:trigger k in m} :: k in m ==> k in m' && m'[k] == m[k]
  }
}
