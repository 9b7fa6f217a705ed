/** Sessions: handles that share reference-counted data. */
module HttpSessions {

  /** The shared data; `frees` counts how often it has been deleted. */
  class HttpSessionData {
    var refCount: int
    ghost var frees: nat

    constructor ()
      ensures refCount == 1 && frees == 0
    {
      refCount, frees := 1, 0;
    }

    ghost method Delete()
      modifies this`frees
      ensures frees == old(frees) + 1
    {
      frees := frees + 1;
    }

    /** The count is tested as it was before the decrement. */
    method LeaveByAssignment()
      modifies this
      ensures refCount == old(refCount) - 1
      ensures frees == old(frees) + if old(refCount) == 0 then 1 else 0
    {
      var count := refCount;
      refCount := refCount - 1;
      if count == 0 {
        Delete();
      }
    }

    /** The count is tested as it is after the decrement. */
    method LeaveAtEnd()
      modifies this
      ensures refCount == old(refCount) - 1
      ensures frees == old(frees) + if refCount == 0 then 1 else 0
    {
      refCount := refCount - 1;
      var count := refCount;
      if count == 0 {
        Delete();
      }
    }
  }

  ghost function Pointers(handles: set<HttpSession>): map<HttpSession, HttpSessionData?>
    reads handles
  {
    map h | h in handles :: h.dataPtr
  }

  ghost function Owners(pointers: map<HttpSession, HttpSessionData?>, data: HttpSessionData): set<HttpSession> {
    set h | h in pointers && pointers[h] == data
  }

  ghost function Pointing(handles: set<HttpSession>, data: HttpSessionData): set<HttpSession>
    reads handles
  {
    Owners(Pointers(handles), data)
  }

  /** A handle that is new or redirected leaves the owners of its old data and joins those of the new. */
  lemma HandleMoves(pointers: map<HttpSession, HttpSessionData?>, h: HttpSession, to: HttpSessionData?)
    ensures forall d: HttpSessionData ::
      |Owners(pointers[h := to], d)|
        == |Owners(pointers, d)| - (if h in pointers && pointers[h] == d then 1 else 0) + (if to == d then 1 else 0)
  {
    forall d: HttpSessionData
      ensures Owners(pointers[h := to], d) == Owners(pointers, d) - {h} + if to == d then {h} else {}
    {
    }
  }

  /**
   The count of all data is the number of handles that point to it; data is deleted at most once, and only when no
   handle points to it.
   */
  ghost predicate Agree(handles: set<HttpSession>, pool: set<HttpSessionData>)
    reads handles, pool
  {
    && (forall h :: h in handles && h.dataPtr != null ==> h.dataPtr in pool)
    && (forall d :: d in pool ==>
          d.refCount == |Pointing(handles, d)| && d.frees <= 1 && (d.frees == 1 ==> d.refCount == 0))
  }

  lemma PointingIsCounted(handles: set<HttpSession>, pool: set<HttpSessionData>, h: HttpSession)
    requires Agree(handles, pool) && h in handles && h.dataPtr != null
    ensures h.dataPtr in pool && h.dataPtr.refCount >= 1 && h.dataPtr.frees == 0
  {
    assert h in Pointing(handles, h.dataPtr);
  }

  class HttpSession {
    var dataPtr: HttpSessionData?

    /** A session with data of its own, or a null session. */
    constructor (canStore: bool)
      ensures canStore ==> dataPtr != null && fresh(dataPtr) && dataPtr.refCount == 1 && dataPtr.frees == 0
      ensures !canStore ==> dataPtr == null
    {
      if canStore {
        dataPtr := new HttpSessionData();
      } else {
        dataPtr := null;
      }
    }

    constructor Copy(other: HttpSession, ghost handles: set<HttpSession>, ghost pool: set<HttpSessionData>)
      requires Agree(handles, pool) && other in handles
      modifies other.dataPtr
      ensures dataPtr == other.dataPtr
      ensures Agree(handles + {this}, pool)
      ensures forall d :: d in pool ==> d.frees == old(d.frees)
    {
      hide Owners;
      if other.dataPtr != null {
        PointingIsCounted(handles, pool, other);
      }
      dataPtr := other.dataPtr;
      new;
      ghost var all := handles + {this};
      if dataPtr != null {
        dataPtr.refCount := dataPtr.refCount + 1;
      }
      assert Pointers(all) == old(Pointers(handles))[this := dataPtr];
      HandleMoves(old(Pointers(handles)), this, dataPtr);
    }

    /** Assignment, also of the session to itself and of null sessions, deletes nothing. */
    method Assign(other: HttpSession, ghost handles: set<HttpSession>, ghost pool: set<HttpSessionData>)
      requires Agree(handles, pool) && this in handles && other in handles
      modifies this, this.dataPtr, other.dataPtr
      ensures dataPtr == old(other.dataPtr) && Agree(handles, pool)
      ensures forall d :: d in pool ==> d.frees == old(d.frees)
    {
      hide Owners;
      if dataPtr != null {
        PointingIsCounted(handles, pool, this);
      }
      if other.dataPtr != null {
        PointingIsCounted(handles, pool, other);
      }
      var oldPtr := dataPtr;
      dataPtr := other.dataPtr;
      if dataPtr != null {
        dataPtr.refCount := dataPtr.refCount + 1;
      }
      if oldPtr != null {
        oldPtr.LeaveByAssignment();
      }
      assert Pointers(handles) == old(Pointers(handles))[this := dataPtr];
      HandleMoves(old(Pointers(handles)), this, dataPtr);
    }

    /** The end of a handle; the data is deleted exactly when this was the last one. */
    method Destroy(ghost handles: set<HttpSession>, ghost pool: set<HttpSessionData>)
      requires Agree(handles, pool) && this in handles
      modifies this.dataPtr
      ensures Agree(handles - {this}, pool)
      ensures forall d :: d in pool ==>
        d.frees == old(d.frees) + if d == dataPtr && old(d.refCount) == 1 then 1 else 0
    {
      ghost var others := handles - {this};
      if dataPtr != null {
        PointingIsCounted(handles, pool, this);
        dataPtr.LeaveAtEnd();
        assert Pointing(others, dataPtr) == old(Pointing(handles, dataPtr)) - {this};
      }
      assert forall d :: d in pool && d != dataPtr ==> Pointing(others, d) == old(Pointing(handles, d));
    }
  }

  // ---------- Whole runs ----------

  /** A step of a program that uses sessions; the numbers are those of its variables. */
  datatype Op = Create(canStore: bool) | CopyOf(i: nat) | Assign(i: nat, j: nat) | Destroy(i: nat)

  ghost predicate Distinct(vars: seq<HttpSession>) {
    forall i, j :: 0 <= i < j < |vars| ==> vars[i] != vars[j]
  }

  ghost function Handles(vars: seq<HttpSession>): set<HttpSession> {
    set h | h in vars
  }

  /** Over every sequence of steps the counts agree with the handles, and nothing is deleted while it is pointed to. */
  method Run(ops: seq<Op>) returns (vars: seq<HttpSession>, ghost pool: set<HttpSessionData>)
    ensures Distinct(vars) && Agree(Handles(vars), pool)
    ensures forall h :: h in vars && h.dataPtr != null ==> h.dataPtr in pool && h.dataPtr.frees == 0
  {
    hide Pointing, Owners;
    vars, pool := [], {};
    NoHandles();
    for k := 0 to |ops|
      invariant Distinct(vars) && Agree(Handles(vars), pool)
      invariant fresh(Handles(vars)) && fresh(pool)
    {
      ghost var handles := Handles(vars);
      var op := ops[k];
      if op.Create? {
        var s := new HttpSession(op.canStore);
        if s.dataPtr != null {
          NewData(handles, pool, s);
          pool := pool + {s.dataPtr};
        } else {
          NewNull(handles, pool, s);
        }
        assert Handles(vars + [s]) == handles + {s};
        vars := vars + [s];
      } else if op.CopyOf? && op.i < |vars| {
        var s := new HttpSession.Copy(vars[op.i], handles, pool);
        assert Handles(vars + [s]) == handles + {s};
        vars := vars + [s];
      } else if op.Assign? && op.i < |vars| && op.j < |vars| {
        assert vars[op.i] in handles && vars[op.j] in handles;
        vars[op.i].Assign(vars[op.j], handles, pool);
      } else if op.Destroy? && op.i < |vars| {
        assert vars[op.i] in handles;
        vars[op.i].Destroy(handles, pool);
        assert Handles(vars[..op.i] + vars[op.i + 1..]) == handles - {vars[op.i]};
        vars := vars[..op.i] + vars[op.i + 1..];
      }
    }
    forall h | h in vars && h.dataPtr != null
      ensures h.dataPtr in pool && h.dataPtr.frees == 0
    {
      PointingIsCounted(Handles(vars), pool, h);
    }
  }

  lemma NoHandles()
    ensures Agree(Handles([]), {})
  {
  }

  lemma NewData(handles: set<HttpSession>, pool: set<HttpSessionData>, s: HttpSession)
    requires Agree(handles, pool) && s !in handles && s.dataPtr != null && s.dataPtr !in pool
    requires s.dataPtr.refCount == 1 && s.dataPtr.frees == 0
    ensures Agree(handles + {s}, pool + {s.dataPtr})
  {
    var all := handles + {s};
    assert Pointing(all, s.dataPtr) == {s};
    assert forall d :: d in pool ==> Pointing(all, d) == Pointing(handles, d);
  }

  lemma NewNull(handles: set<HttpSession>, pool: set<HttpSessionData>, s: HttpSession)
    requires Agree(handles, pool) && s.dataPtr == null
    ensures Agree(handles + {s}, pool)
  {
    assert forall d :: d in pool ==> Pointing(handles + {s}, d) == Pointing(handles, d);
  }

  /** Assigning over the last handle leaves its data with count 0 and not deleted. */
  method AssignOverLast() returns (ghost lost: HttpSessionData)
    ensures fresh(lost) && lost.refCount == 0 && lost.frees == 0
  {
    var a := new HttpSession(true);
    var b := new HttpSession(false);
    lost := a.dataPtr;
    ghost var pool := {a.dataPtr};
    assert Agree({}, {});
    NewData({}, {}, a);
    assert {} + {a} == {a} && {} + {a.dataPtr} == pool;
    NewNull({a}, pool, b);
    a.Assign(b, {a} + {b}, pool);
    assert Pointing({a} + {b}, lost) == {};
  }
}
