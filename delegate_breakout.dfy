/// One member of a weak invocation list (`DelegateBreakout`): a delegate
/// broken out into a method and a weakly held target, or a weak reference to
/// the delegate itself.
module DelegateBreakouts {
  import opened Host

  /// The three shapes the struct can take.
  /// - Bound: the `MethodInfo` plus a dependent handle whose primary is the target.
  /// - Unbound: a `WeakReference<Delegate>` to the delegate itself.
  /// - Empty: the default value of the struct (every field null), found in
  ///   freshly allocated arrays.
  datatype DelegateBreakout =
    | Bound(methodInfo: MethodInfo, target: ObjId, handle: HandleId)
    | Unbound(del: Delegate)
    | Empty

  /// A callable produced by resolving an entry: a delegate re-created from a
  /// method and a live target (`MethodInfo.CreateDelegate`), or the weakly
  /// held delegate itself.
  datatype Callable =
    | BoundCall(methodInfo: MethodInfo, target: ObjId, delegateType: string)
    | Direct(del: Delegate)

  /// The constructor's choice: bound exactly when the delegate has a target
  /// and a collection callback was supplied.
  predicate Binds(d: Delegate, hasOnCollection: bool)
  {
    d.target.Some? && hasOnCollection
  }

  /// The entry the constructor builds for `d`, using handle `h` if it binds.
  function Breakout(d: Delegate, hasOnCollection: bool, h: HandleId): (e: DelegateBreakout)
    ensures e.Bound? <==> Binds(d, hasOnCollection)
    ensures e.Unbound? <==> !Binds(d, hasOnCollection)
    ensures e.Bound? ==> e.methodInfo == d.methodInfo && Some(e.target) == d.target && e.handle == h
    ensures e.Unbound? ==> e.del == d
    ensures ToString(e) == Some(d.methodInfo.text)
  {
    if Binds(d, hasOnCollection) then Bound(d.methodInfo, d.target.value, h) else Unbound(d)
  }

  /// The next free handle after building the entry for `d`.
  function HandleAfter(d: Delegate, hasOnCollection: bool, h: HandleId): HandleId
  {
    if Binds(d, hasOnCollection) then h + 1 else h
  }

  /// The dependent handles an entry owns (what `Dispose` frees).
  function Handles(e: DelegateBreakout): set<HandleId>
  {
    if e.Bound? then {e.handle} else {}
  }

  /// The constructor: allocates a dependent handle only for a bound entry.
  method NewBreakout(rt: Runtime, d: Delegate, hasOnCollection: bool) returns (e: DelegateBreakout)
    requires rt.Valid()
    modifies rt`handles, rt`nextHandle
    ensures rt.Valid()
    ensures e == Breakout(d, hasOnCollection, old(rt.nextHandle))
    ensures rt.nextHandle == HandleAfter(d, hasOnCollection, old(rt.nextHandle))
    ensures rt.handles == old(rt.handles) + Handles(e)
  {
    if d.target.Some? && hasOnCollection {
      var h := rt.NewHandle();
      e := Bound(d.methodInfo, d.target.value, h);
    } else {
      e := Unbound(d);
    }
  }

  /// `Dispose`: frees the handle of a bound entry, does nothing otherwise.
  method Dispose(rt: Runtime, e: DelegateBreakout)
    modifies rt`handles
    ensures e.Bound? ==> rt.handles == old(rt.handles) - {e.handle}
    ensures !e.Bound? ==> rt.handles == old(rt.handles)
  {
    if e.Bound? {
      rt.FreeHandle(e.handle);
    }
  }

  /// `Alive`: a bound entry is alive while its target is reachable, an unbound
  /// one while the delegate is; the default entry dereferences null.
  function Alive(e: DelegateBreakout, live: set<ObjId>): (r: Result<bool>)
    ensures r.Fail? <==> e.Empty?
    ensures e.Bound? ==> r == Ok(e.target in live)
    ensures e.Unbound? ==> r == Ok(e.del.obj in live)
    ensures e.Empty? ==> r == Fail(NullReference)
  {
    match e
    case Bound(_, target, _) => Ok(target in live)
    case Unbound(d) => Ok(d.obj in live)
    case Empty => Fail(NullReference)
  }

  /// `Alive` returned true.
  predicate IsAlive(e: DelegateBreakout, live: set<ObjId>)
  {
    Alive(e, live) == Ok(true)
  }

  /// `TryGetDelegate`: the current callable, or None (the out parameter is
  /// null) once the weak reference no longer resolves.
  function TryGetDelegate(e: DelegateBreakout, delegateType: string, live: set<ObjId>): (r: Result<Option<Callable>>)
    ensures r.Fail? <==> Alive(e, live).Fail?
    ensures r.Ok? ==> (r.value.Some? <==> Alive(e, live).value)
    ensures r.Ok? && r.value.Some? ==> (r.value.value.BoundCall? <==> e.Bound?)
    ensures r.Ok? && r.value.Some? && e.Bound? ==> r.value.value == BoundCall(e.methodInfo, e.target, delegateType)
    ensures r.Ok? && r.value.Some? && e.Unbound? ==> r.value.value == Direct(e.del)
    ensures e.Empty? ==> r == Fail(NullReference)
  {
    match e
    case Bound(m, target, _) =>
      if target !in live then Ok(None) else Ok(Some(BoundCall(m, target, delegateType)))
    case Unbound(d) =>
      if d.obj in live then Ok(Some(Direct(d))) else Ok(None)
    case Empty => Fail(NullReference)
  }

  /// `Equals(DelegateBreakout)`, receiver `a`.  Two bound entries with the same
  /// method text are equal. Otherwise the receiver's field is cast to a weak
  /// delegate reference, which throws for a bound receiver; an unbound receiver
  /// that still resolves then casts the other entry's field the same way.
  function Equals(a: DelegateBreakout, b: DelegateBreakout, live: set<ObjId>): (r: Result<bool>)
    ensures r == Ok(true) <==>
      || (a.Bound? && b.Bound? && a.methodInfo.text == b.methodInfo.text)
      || (a.Unbound? && b.Unbound? && a.del.obj in live && b.del.obj in live && SameDelegate(a.del, b.del))
    ensures r == Ok(false) <==>
      || (a.Unbound? && a.del.obj !in live)
      || (a.Unbound? && b.Unbound? && a.del.obj in live && !(b.del.obj in live && SameDelegate(a.del, b.del)))
  {
    match a
    case Bound(m, _, _) =>
      if b.Bound? && m.text == b.methodInfo.text then Ok(true) else Fail(InvalidCast)
    case Empty => Fail(NullReference)
    case Unbound(d) =>
      if d.obj !in live then Ok(false)
      else
        match b
        case Bound(_, _, _) => Fail(InvalidCast)
        case Empty => Fail(NullReference)
        case Unbound(d') => Ok(d'.obj in live && SameDelegate(d, d'))
  }

  /// Operator `!=`.
  function NotEquals(a: DelegateBreakout, b: DelegateBreakout, live: set<ObjId>): (r: Result<bool>)
    ensures r.Fail? <==> Equals(a, b, live).Fail?
    ensures r.Ok? ==> r.value == !Equals(a, b, live).value
  {
    match Equals(a, b, live)
    case Ok(eq) => Ok(!eq)
    case Fail(err) => Fail(err)
  }

  /// `ToString`: the method text captured at construction (null for the default entry).
  function ToString(e: DelegateBreakout): (r: Option<string>)
    ensures r.None? <==> e.Empty?
    ensures e.Bound? ==> r == Some(e.methodInfo.text)
    ensures e.Unbound? ==> r == Some(e.del.methodInfo.text)
  {
    match e
    case Bound(m, _, _) => Some(m.text)
    case Unbound(d) => Some(d.methodInfo.text)
    case Empty => None
  }

  /// Bound entries compare by method text alone: the targets play no part.
  lemma BoundEqualityIgnoresTarget(m: MethodInfo, m': MethodInfo, t: ObjId, t': ObjId, h: HandleId, h': HandleId, live: set<ObjId>)
    requires m.text == m'.text
    ensures Equals(Bound(m, t, h), Bound(m', t', h'), live) == Ok(true)
  {
  }

  /// Two unbound entries are equal exactly when both weak references resolve
  /// and the delegates compare `==`; the comparison never throws.
  lemma UnboundEquality(d: Delegate, d': Delegate, live: set<ObjId>)
    ensures Equals(Unbound(d), Unbound(d'), live) == Ok(d.obj in live && d'.obj in live && SameDelegate(d, d'))
  {
  }

  /// Exactly when the comparison throws, and what it throws.
  lemma EqualsFailsExactly(a: DelegateBreakout, b: DelegateBreakout, live: set<ObjId>)
    ensures Equals(a, b, live).Fail? <==>
      || a.Empty?
      || (a.Bound? && !(b.Bound? && a.methodInfo.text == b.methodInfo.text))
      || (a.Unbound? && a.del.obj in live && !b.Unbound?)
    ensures Equals(a, b, live) == Fail(InvalidCast) <==>
      || (a.Bound? && !(b.Bound? && a.methodInfo.text == b.methodInfo.text))
      || (a.Unbound? && a.del.obj in live && b.Bound?)
    ensures Equals(a, b, live) == Fail(NullReference) <==> a.Empty? || (a.Unbound? && a.del.obj in live && b.Empty?)
  {
  }

  /// The comparison is not symmetric in whether it throws: a bound receiver
  /// throws against an unbound entry, while a dead unbound receiver answers false.
  lemma EqualsIsAsymmetric(m: MethodInfo, t: ObjId, h: HandleId, d: Delegate, live: set<ObjId>)
    requires d.obj !in live
    ensures Equals(Bound(m, t, h), Unbound(d), live) == Fail(InvalidCast)
    ensures Equals(Unbound(d), Bound(m, t, h), live) == Ok(false)
  {
  }

  /// An unbound entry whose delegate was collected is not even equal to itself.
  lemma DeadUnboundNotReflexive(d: Delegate, live: set<ObjId>)
    requires d.obj !in live
    ensures Equals(Unbound(d), Unbound(d), live) == Ok(false)
  {
  }

  /// With no collection callback the constructor always builds an unbound entry,
  /// which owns no handle, so disposing it is a no-op.
  lemma NoCallbackMeansUnbound(d: Delegate, h: HandleId)
    ensures Breakout(d, false, h) == Unbound(d)
    ensures Handles(Breakout(d, false, h)) == {}
  {
  }
}
