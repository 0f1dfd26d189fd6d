/**
 * The keyed mutex registry that keeps Create, Update, Read and Delete of
 * rules for the same auto-tag from interleaving. Only its map bookkeeping is
 * modelled, sequentially: locking and unlocking are not.
 */
module Registry {

  /** A per-auto-tag lock; only its identity matters here. */
  class Mutex {
    constructor ()
    {
    }
  }

  class MultiMutex {
    var mutexes: map<string, Mutex>

    /** Distinct auto-tag ids never share a lock. */
    ghost predicate Valid()
      reads this
    {
      forall id1, id2 :: id1 in mutexes && id2 in mutexes && id1 != id2 ==> mutexes[id1] != mutexes[id2]
    }

    constructor ()
      ensures Valid() && mutexes == map[]
    {
      mutexes := map[];
    }

    /**
     * The lock for `id`: the one already registered, or a new one that is
     * registered first. No other entry changes and none is ever removed.
     */
    method Get(id: string) returns (res: Mutex)
      requires Valid()
      modifies this
      ensures Valid()
      ensures id in mutexes && res == mutexes[id]
      ensures id in old(mutexes) ==> res == old(mutexes)[id] && mutexes == old(mutexes)
      ensures id !in old(mutexes) ==> fresh(res) && mutexes == old(mutexes)[id := res]
      ensures old(mutexes).Keys <= mutexes.Keys
      ensures forall other :: other in old(mutexes) ==> mutexes[other] == old(mutexes)[other]
    {
      if id in mutexes {
        res := mutexes[id];
      } else {
        res := new Mutex();
        mutexes := mutexes[id := res];
      }
    }
  }
}
