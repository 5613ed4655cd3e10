/** `IoCContext`: the older facade, which keeps a map of its own. A missing
    type is made by `createBean` directly, so the type itself lands in this
    map, while everything it depends on is injected into (and taken from)
    the `Beans` registry. */
module Context {
  import opened Types
  import opened BeanFactory
  import opened Registry

  class IoCContext {
    /** `IoCContext.beans` */
    var beans: map<TypeId, ObjId>
    /** The registry, lock set and runtime `createBean` works with. */
    const registry: Beans
    /** `IoCContext.class`, which may not be asked for. */
    const ownType: TypeId

    constructor (registry: Beans, ownType: TypeId)
      ensures this.registry == registry && this.ownType == ownType && beans == map[]
    {
      this.registry := registry;
      this.ownType := ownType;
      beans := map[];
    }

    /** `getBean`: the stored instance when there is one; otherwise a new
        instance from `createBean`, stored under `beanType` only. The
        assertion that the type is not `IoCContext` itself is a
        precondition, and so is the end of the busy wait: the call is made
        from application code, with no creation in progress. */
    method GetBean(beanType: TypeId) returns (r: Result<ObjId>)
      requires beanType != ownType
      requires registry.Valid() && beanType in registry.universe
      requires registry.lockManager.locks == {}
      modifies this, registry, registry.lockManager, registry.runtime
      ensures registry.Valid()
      ensures registry.lockManager.locks == {}
      ensures IsSubmap(old(beans), beans) && beans.Keys <= old(beans).Keys + {beanType}
      ensures r.Success? <==> beanType in beans
      ensures r.Success? ==> beans[beanType] == r.value
      ensures beanType in old(beans) ==>
                && r == Success(old(beans)[beanType]) && beans == old(beans)
                && registry.beans == old(registry.beans) && registry.runtime.objects == old(registry.runtime.objects)
      ensures IsSubmap(old(registry.beans), registry.beans)
      ensures beanType in registry.beans <==> beanType in old(registry.beans)
      ensures AddedOnlyFrom(registry.universe, old(registry.beans), registry.beans, [beanType])
      ensures NewObjectsRegistered(old(registry.beans), registry.beans, old(|registry.runtime.objects|),
                                   if beanType !in old(beans) && r.Success? then r.value else |registry.runtime.objects|)
      ensures old(registry.runtime.objects) <= registry.runtime.objects
      ensures NewEntriesBuiltFrom(registry.universe, old(registry.beans), registry.beans,
                                  old(|registry.runtime.objects|), registry.runtime.objects)
      ensures beanType !in old(beans) && r.Success? ==>
                && old(|registry.runtime.objects|) <= r.value == |registry.runtime.objects| - 1
                && BuiltFrom(registry.universe, registry.beans, registry.runtime.objects[r.value], beanType)
      ensures beanType !in old(beans) && CreationChecks(registry.universe, beanType).Fail? ==>
                && r == Failure(CreationChecks(registry.universe, beanType).error)
                && beans == old(beans) && registry.beans == old(registry.beans)
                && registry.runtime.objects == old(registry.runtime.objects)
      ensures ReachableChecksPass(registry.universe, beanType) && NeverThrows(registry.runtime.invoke) ==>
                r.Success?
      ensures beanType !in old(beans) ==>
                Step(r, registry.Snapshot())
                == CreateBeanRun(registry.universe, registry.runtime.invoke, {}, beanType, old(registry.Snapshot()))
    {
      var present := BeanExists(beanType);
      if !present {
        assert IsPath(registry.universe, [] + [beanType]);
        var created := CreateBean(registry, beanType, []);
        if created.Failure? {
          return Failure(created.error);
        }
        beans := beans[beanType := created.value];
      }
      r := Success(beans[beanType]);
    }

    /** `beanExists`: a key of this context's own map. */
    method BeanExists(beanType: TypeId) returns (r: bool)
      ensures r <==> beanType in beans
    {
      r := beanType in beans;
    }

    /** `clear`: empties this context's map; the registry keeps its entries. */
    method Clear()
      modifies this
      ensures beans == map[]
      ensures registry.beans == old(registry.beans)
    {
      beans := map[];
    }
  }
}
