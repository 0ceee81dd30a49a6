/// The host runtime as the weak-delegate engine sees it: object identities,
/// the set of objects the garbage collector has not yet reclaimed, dependent
/// handles, reflection method identities and delegates, and the exceptions
/// the engine can raise.
module Host {

  /// Identity of a heap object (a delegate, a target instance, a surrogate).
  type ObjId = nat

  /// Identity of a dependent handle allocated by the runtime.
  type HandleId = nat

  /// A reference that may be null.
  datatype Option<+T> = None | Some(value: T)

  /// The exceptions the modelled code raises.
  datatype Error =
    | NullReference     // NullReferenceException
    | InvalidCast       // InvalidCastException
    | IndexOutOfRange   // IndexOutOfRangeException
    | Argument          // ArgumentException
    | InvalidOperation  // InvalidOperationException

  /// A value, or the exception thrown instead of returning one.
  datatype Result<+T> = Ok(value: T) | Fail(error: Error)

  /// How a `void` operation ended.
  datatype Outcome = Done | Threw(error: Error)

  /// A reflected method: its identity and the text `MethodInfo.ToString()` gives.
  /// Two different methods may share the same text.
  datatype MethodInfo = MethodInfo(id: nat, text: string)

  /// A single-cast delegate object: its identity, its runtime delegate type,
  /// the method it calls and the instance it is bound to (None for a static method).
  datatype Delegate = Delegate(obj: ObjId, delegateType: string, methodInfo: MethodInfo, target: Option<ObjId>)

  /// The delegate `==` operator: same delegate type, same method, same target.
  /// It compares contents, not object identity.
  predicate SameDelegate(d: Delegate, e: Delegate)
  {
    d.delegateType == e.delegateType && d.methodInfo == e.methodInfo && d.target == e.target
  }

  /// A type argument `T`: its name and the names of all its proper base classes.
  datatype TypeArg = TypeArg(name: string, baseTypes: set<string>)

  const DelegateClass := "System.Delegate"

  /// `typeof(T).IsSubclassOf(typeof(Delegate))`: strictly derived from Delegate,
  /// so `Delegate` itself does not qualify.
  predicate IsDelegateType(t: TypeArg)
  {
    DelegateClass in t.baseTypes
  }

  /// The part of the runtime the engine depends on. `live` only ever shrinks
  /// through `Collect` and grows only by fresh allocations.
  class Runtime {
    var live: set<ObjId>
    var handles: set<HandleId>
    var nextObj: ObjId
    var nextHandle: HandleId
    var nextMethod: nat

    ghost predicate Valid()
      reads this
    {
      && (forall o | o in live :: o < nextObj)
      && (forall h | h in handles :: h < nextHandle)
    }

    constructor ()
      ensures Valid()
      ensures live == {} && handles == {}
    {
      live, handles := {}, {};
      nextObj, nextHandle, nextMethod := 0, 0, 0;
    }

    /// Allocates a new object, which starts out reachable.
    method NewObject() returns (o: ObjId)
      requires Valid()
      modifies this`live, this`nextObj
      ensures Valid()
      ensures o == old(nextObj) && o !in old(live)
      ensures live == old(live) + {o} && nextObj == o + 1
    {
      o := nextObj;
      live := live + {o};
      nextObj := nextObj + 1;
    }

    /// Allocates a dependent handle.
    method NewHandle() returns (h: HandleId)
      requires Valid()
      modifies this`handles, this`nextHandle
      ensures Valid()
      ensures h == old(nextHandle) && h !in old(handles)
      ensures handles == old(handles) + {h} && nextHandle == h + 1
    {
      h := nextHandle;
      handles := handles + {h};
      nextHandle := nextHandle + 1;
    }

    /// Frees a dependent handle: it leaves the set of allocated handles.
    method FreeHandle(h: HandleId)
      modifies this`handles
      ensures handles == old(handles) - {h}
    {
      handles := handles - {h};
    }

    /// Creates a new method (a dynamic method), distinct from every earlier one.
    method NewMethod(text: string) returns (m: MethodInfo)
      modifies this`nextMethod
      ensures m == MethodInfo(old(nextMethod), text)
      ensures nextMethod == old(nextMethod) + 1
    {
      m := MethodInfo(nextMethod, text);
      nextMethod := nextMethod + 1;
    }

    /// A garbage collection that reclaims the objects in `dead`.
    method Collect(dead: set<ObjId>)
      requires Valid()
      modifies this`live
      ensures Valid()
      ensures live == old(live) - dead
    {
      live := live - dead;
    }
  }
}
