/** src/persistence_client_library_handle.c and _key.c: the allocator and the key-handle table in memory. */
module KeyHandles {
  import opened Options
  import opened RbShape
  import opened RbTree
  import opened HandleRuns

  const EPERS_BADPOL := -3
  const EPERS_NOT_INITIALIZED := -32

  class KeyHandles {
    var gHandleIdx: int
    var gFreeHandleArray: array<int>
    var gFreeHandleIdxHead: int
    var gKeyHandleTree: RbTree?<Resource>

    ghost function Repr(): set<object>
      reads this, gKeyHandleTree
    {
      if gKeyHandleTree == null then {this, gFreeHandleArray} else
        var t: RbTree<Resource> := gKeyHandleTree; {this, gFreeHandleArray, t} + t.Nodes()
    }

    ghost predicate Valid()
      reads Repr()
    {
      && gFreeHandleArray.Length == MAX_PERS_HANDLE
      && 0 <= gFreeHandleIdxHead <= MAX_PERS_HANDLE
      && (gKeyHandleTree != null ==> gKeyHandleTree.Valid())
      && Ints(Value())
    }

    ghost function Table(): map<Key, Resource>
      reads this, gKeyHandleTree
    {
      if gKeyHandleTree == null then map[] else gKeyHandleTree.Contents()
    }

    /** What the run model sees of this memory; the path handles are another table's business. */
    ghost function Value(): State
      requires 0 <= gFreeHandleIdxHead <= gFreeHandleArray.Length
      reads this, gFreeHandleArray, gKeyHandleTree
    {
      State(Table(), map[], false, gFreeHandleArray[..gFreeHandleIdxHead], gHandleIdx)
    }

    constructor ()
      ensures Valid() && Value() == START && fresh(Repr())
    {
      gHandleIdx, gFreeHandleIdxHead, gKeyHandleTree := 1, 0, null;
      gFreeHandleArray := new int[MAX_PERS_HANDLE](_ => 0);
    }

    /** get_persistence_handle_idx */
    method GetHandleIdx() returns (handle: int)
      requires Valid()
      modifies `gHandleIdx, `gFreeHandleIdxHead
      ensures Valid() && (Value(), handle) == Take(old(Value())) && Repr() == old(Repr())
    {
      if gFreeHandleIdxHead > 0 && gFreeHandleIdxHead < MAX_PERS_HANDLE {
        assert gFreeHandleArray[..gFreeHandleIdxHead - 1]
            == gFreeHandleArray[..gFreeHandleIdxHead][..gFreeHandleIdxHead - 1];
        gFreeHandleIdxHead := gFreeHandleIdxHead - 1;
        handle := gFreeHandleArray[gFreeHandleIdxHead];
      } else if gHandleIdx < MAX_PERS_HANDLE - 1 {
        handle := gHandleIdx;
        gHandleIdx := gHandleIdx + 1;
      } else {
        handle := EPERS_MAXHANDLE;
      }
    }

    /** set_persistence_handle_close_idx */
    method CloseHandleIdx(handle: Key)
      requires Valid()
      modifies `gFreeHandleIdxHead, gFreeHandleArray
      ensures Valid() && Value() == Give(old(Value()), handle) && Repr() == old(Repr())
    {
      if gFreeHandleIdxHead >= 0 && gFreeHandleIdxHead < MAX_PERS_HANDLE {
        gFreeHandleArray[gFreeHandleIdxHead] := handle;
        gFreeHandleIdxHead := gFreeHandleIdxHead + 1;
      }
    }

    /** close_all_persistence_handle: the key handles stay in their tree. */
    method CloseAllHandles()
      requires Valid()
      modifies `gHandleIdx, `gFreeHandleIdxHead, gFreeHandleArray
      ensures Valid() && Value() == CloseAll(old(Value())) && Repr() == old(Repr())
    {
      forall i | 0 <= i < gFreeHandleArray.Length {
        gFreeHandleArray[i] := 0;
      }
      gHandleIdx, gFreeHandleIdxHead := 1, 0;
    }

    /** set_key_handle_data: insert only, an old record under this number would stay. */
    method SetKeyHandleData(idx: Key, r: Resource) returns (handle: int)
      requires Valid()
      modifies Repr()
      ensures Valid() && Value() == old(Value()).(keys := Insert(old(Value()).keys, idx, r)) && handle == idx
      ensures forall o :: o in Repr() ==> o in old(Repr()) || fresh(o)
    {
      if gKeyHandleTree == null {
        gKeyHandleTree := new RbTree<Resource>();
      }
      var _ := gKeyHandleTree.Insert(Item(idx, r));
      handle := idx;
    }

    /** get_key_handle_data */
    method GetKeyHandleData(idx: Key) returns (r: Option<Resource>)
      requires Valid()
      ensures r == if idx in Value().keys then Some(Value().keys[idx]) else None
    {
      r := None;
      if gKeyHandleTree != null {
        ghost var steps;
        r, steps := gKeyHandleTree.Find(idx);
      }
    }

    /** clear_key_handle_array */
    method ClearKeyHandle(idx: Key)
      requires Valid()
      modifies Repr()
      ensures Valid() && Value() == old(Value()).(keys := old(Value()).keys - {idx}) && Repr() <= old(Repr())
    {
      if gKeyHandleTree != null {
        var _ := gKeyHandleTree.Erase(idx);
      } else {
        assert Value().keys - {idx} == Value().keys;
      }
    }

    /**
     pclKeyHandleOpen. What the resource table says comes in as parameters: the result of the lookup, whether the
     resource is a key, and whether its storage is one of the known ones.
     */
    method KeyHandleOpen(r: Resource, initialised: bool, lookup: int, isKey: bool, storageValid: bool)
        returns (handle: int)
      requires Valid()
      modifies Repr()
      ensures Valid() && forall o :: o in Repr() ==> o in old(Repr()) || fresh(o)
      ensures if initialised && lookup >= 0 && isKey && storageValid then (Value(), handle) == OpenKey(old(Value()), r)
              else Value() == old(Value())
      ensures !initialised || lookup < 0 || !isKey ==> handle == EPERS_NOT_INITIALIZED
      ensures initialised && lookup >= 0 && isKey && !storageValid ==> handle == EPERS_BADPOL
    {
      handle := EPERS_NOT_INITIALIZED;
      if initialised {
        if lookup >= 0 && isKey {
          if storageValid {
            var idx := GetHandleIdx();
            handle := SetKeyHandleData(idx, r);
          } else {
            handle := EPERS_BADPOL;
          }
        }
      }
    }

    /** pclKeyHandleClose */
    method KeyHandleClose(keyHandle: Key, initialised: bool) returns (rval: int)
      requires Valid()
      modifies Repr()
      ensures Valid() && Repr() <= old(Repr())
      ensures if initialised then (Value(), rval) == CloseKey(old(Value()), keyHandle)
              else Value() == old(Value()) && rval == EPERS_NOT_INITIALIZED
    {
      assert allocated(Repr());
      rval := EPERS_NOT_INITIALIZED;
      if initialised {
        var persHandle := GetKeyHandleData(keyHandle);
        if persHandle.Some? {
          if persHandle.value.resourceId != "" {
            CloseHandleIdx(keyHandle);
            ClearKeyHandle(keyHandle);
            rval := 1;
          } else {
            rval := EPERS_INVALID_HANDLE;
          }
        } else {
          rval := EPERS_MAXHANDLE;
        }
      }
    }
  }
}
