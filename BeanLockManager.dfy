/** `BeanLockManager`: the set of bean types whose creation is in progress.
    (The Java methods are `synchronized`; this model is sequential.) */
module BeanLockManager {
  import opened Types

  class LockManager {
    /** `beanCreationLocks` */
    var locks: set<TypeId>

    constructor ()
      ensures locks == {}
    {
      locks := {};
    }

    /** `isLocked`: membership of `beanType` in the lock set. */
    method IsLocked(beanType: TypeId) returns (r: bool)
      ensures r <==> beanType in locks
    {
      r := beanType in locks;
    }

    /** `lock`: `Set.add` reports whether the set changed, so the lock is
        acquired exactly when nobody held it; either way it is held after. */
    method Lock(beanType: TypeId) returns (acquired: bool)
      modifies this
      ensures acquired <==> beanType !in old(locks)
      ensures locks == old(locks) + {beanType}
    {
      acquired := beanType !in locks;
      locks := locks + {beanType};
    }

    /** `unlock`: removes the marker unconditionally; other markers stay. */
    method Unlock(beanType: TypeId)
      modifies this
      ensures locks == old(locks) - {beanType}
    {
      locks := locks - {beanType};
    }
  }
}
