/// The public entry points (`WeakDelegate.Combine`, `WeakDelegate.Remove`)
/// and the two global tables they share: composite method -> weakly held
/// surrogate, and target instance -> surrogate (the pin that keeps a
/// surrogate reachable while a target of one of `Combine`'s own two
/// arguments is).
module WeakDelegates {
  import opened Host
  import opened DelegateBreakouts
  import opened Suragates

  /// `CheckIsDelegate<T>`: `T` must derive from `System.Delegate`.
  function CheckIsDelegate(t: TypeArg): (r: Outcome)
    ensures r == Done <==> IsDelegateType(t)
    ensures r.Threw? ==> r.error == InvalidOperation
  {
    if IsDelegateType(t) then Done else Threw(InvalidOperation)
  }

  // ---------------------------------------------------------------------------
  // The surrogate-selection ladder
  // ---------------------------------------------------------------------------

  /// How `Combine` builds the result surrogate, one constructor per rung.
  datatype Build =
    | JoinSuragates   // aSuragate.Add(bSuragate)
    | NewPair         // new WeakDelegateSuragate(a, b)
    | AddToA          // aSuragate.Add(b)
    | AddToB          // bSuragate.Add(a)
    | CloneA          // aSuragate.Clone()
    | CloneB          // bSuragate.Clone()
    | SingleA         // new WeakDelegateSuragate(a)
    | SingleB         // new WeakDelegateSuragate(b)

  /// The ladder, rung by rung, over which arguments are non-null and which
  /// of them have a registered surrogate.
  function SelectBuild(aDel: bool, bDel: bool, aSur: bool, bSur: bool): (r: Build)
    ensures r == JoinSuragates <==> aSur && bSur
    ensures r == NewPair <==> aDel && bDel && !(aSur && bSur)
    ensures r in {AddToA, CloneA} ==> aSur && !bSur
    ensures r in {AddToB, CloneB} ==> bSur && !aSur
    ensures r in {SingleA, SingleB} ==> !aSur && !bSur
    ensures r == SingleA ==> aDel
  {
    if aSur && bSur then JoinSuragates
    else if aDel && bDel then NewPair
    else if aSur && bDel then AddToA
    else if bSur && aDel then AddToB
    else if aSur then CloneA
    else if bSur then CloneB
    else if aDel then SingleA
    else SingleB
  }

  /// A surrogate is looked up only for a non-null argument.
  predicate Consistent(aDel: bool, bDel: bool, aSur: bool, bSur: bool)
  {
    (aSur ==> aDel) && (bSur ==> bDel)
  }

  /// The construction the ladder is meant to pick, case by case on how many
  /// arguments are present.
  function IntendedBuild(aDel: bool, bDel: bool, aSur: bool, bSur: bool): Build
    requires aDel || bDel
  {
    if aDel && bDel then (if aSur && bSur then JoinSuragates else NewPair)
    else if aDel then (if aSur then CloneA else SingleA)
    else (if bSur then CloneB else SingleB)
  }

  /// The two `Add(Delegate)` rungs never fire: a surrogate implies its
  /// delegate, so whenever their guards hold the `NewPair` rung already has.
  /// With at least one argument the ladder picks the intended construction.
  lemma LadderSkipsAddDelegate(aDel: bool, bDel: bool, aSur: bool, bSur: bool)
    requires Consistent(aDel, bDel, aSur, bSur) && (aDel || bDel)
    ensures SelectBuild(aDel, bDel, aSur, bSur) != AddToA
    ensures SelectBuild(aDel, bDel, aSur, bSur) != AddToB
    ensures SelectBuild(aDel, bDel, aSur, bSur) == IntendedBuild(aDel, bDel, aSur, bSur)
  {
  }

  /// The entries the ladder's choice produces, given the arguments, the
  /// entries of their surrogates (when registered) and the next handle.
  /// None where the rung builds nothing: the unreachable `Add(Delegate)` rungs,
  /// and `new WeakDelegateSuragate(b)` with a null `b`.
  function CombinedEntries(a: Option<Delegate>, b: Option<Delegate>,
                           aList: Option<seq<DelegateBreakout>>, bList: Option<seq<DelegateBreakout>>,
                           h: HandleId): (r: Option<seq<DelegateBreakout>>)
    ensures Consistent(a.Some?, b.Some?, aList.Some?, bList.Some?) && (a.Some? || b.Some?) ==> r.Some?
  {
    match SelectBuild(a.Some?, b.Some?, aList.Some?, bList.Some?)
    case JoinSuragates => Some(aList.value + bList.value)
    case NewPair => Some([Breakout(a.value, true, h), Breakout(b.value, true, HandleAfter(a.value, true, h))])
    case AddToA => None
    case AddToB => None
    case CloneA => Some(aList.value)
    case CloneB => Some(bList.value)
    case SingleA => Some([Breakout(a.value, true, h)])
    case SingleB => if b.Some? then Some([Breakout(b.value, true, h)]) else None
  }

  /// Both arguments registered: a's entries followed by b's.
  lemma CombineJoins(a: Delegate, b: Delegate, aList: seq<DelegateBreakout>, bList: seq<DelegateBreakout>, h: HandleId)
    ensures CombinedEntries(Some(a), Some(b), Some(aList), Some(bList), h) == Some(aList + bList)
  {
  }

  /// Both arguments present but not both registered: a fresh pair `[a, b]`.
  lemma CombinePairs(a: Delegate, b: Delegate, aList: Option<seq<DelegateBreakout>>, bList: Option<seq<DelegateBreakout>>, h: HandleId)
    requires !(aList.Some? && bList.Some?)
    ensures CombinedEntries(Some(a), Some(b), aList, bList, h) ==
      Some([Breakout(a, true, h), Breakout(b, true, HandleAfter(a, true, h))])
  {
  }

  /// One argument present: a copy of its surrogate's entries if it has one,
  /// otherwise a single entry for it, whichever side it is on.
  lemma CombineOne(d: Delegate, list: Option<seq<DelegateBreakout>>, h: HandleId)
    ensures CombinedEntries(Some(d), None, list, None, h) ==
      if list.Some? then list else Some([Breakout(d, true, h)])
    ensures CombinedEntries(None, Some(d), None, list, h) ==
      if list.Some? then list else Some([Breakout(d, true, h)])
  {
  }

  /// The entries of a composite never include a default entry when its
  /// operands' surrogates had none.
  lemma {:induction false} CombinedEntriesNoEmpty(a: Option<Delegate>, b: Option<Delegate>,
                                                  aList: Option<seq<DelegateBreakout>>, bList: Option<seq<DelegateBreakout>>,
                                                  h: HandleId)
    requires aList.Some? ==> NoEmpty(aList.value)
    requires bList.Some? ==> NoEmpty(bList.value)
    requires CombinedEntries(a, b, aList, bList, h).Some?
    ensures NoEmpty(CombinedEntries(a, b, aList, bList, h).value)
  {
    if SelectBuild(a.Some?, b.Some?, aList.Some?, bList.Some?) == JoinSuragates {
      NoEmptyAppend(aList.value, bList.value);
    }
  }

  // ---------------------------------------------------------------------------
  // Pins
  // ---------------------------------------------------------------------------

  /// The target of an optional delegate (null for a null or static delegate).
  function TargetOf(d: Option<Delegate>): Option<ObjId>
  {
    if d.Some? then d.value.target else None
  }

  /// The caller holds the delegate and, through it, its target.
  predicate Held(d: Delegate, live: set<ObjId>)
  {
    d.obj in live && (d.target.Some? ==> d.target.value in live)
  }

  /// Pinning `a`'s target throws: the target is already a key.
  predicate ClashA(a: Option<Delegate>, keys: set<ObjId>)
  {
    TargetOf(a).Some? && TargetOf(a).value in keys
  }

  /// Pinning `b`'s target throws: it is already a key, or it is `a`'s target
  /// that was just added.
  predicate ClashB(a: Option<Delegate>, b: Option<Delegate>, keys: set<ObjId>)
  {
    TargetOf(b).Some? && (TargetOf(b).value in keys || TargetOf(b) == TargetOf(a))
  }

  /// The pin table after pinning `a`'s and then `b`'s target to `c`, stopping
  /// at the first key already present.
  function Pinned<S>(pins: map<ObjId, S>, a: Option<Delegate>, b: Option<Delegate>, c: S): (r: map<ObjId, S>)
    ensures forall k | k in pins :: k in r && r[k] == pins[k]
    ensures forall k | k in r && k !in pins :: r[k] == c && (Some(k) == TargetOf(a) || Some(k) == TargetOf(b))
    ensures r.Keys == pins.Keys
      + (if TargetOf(a).Some? && !ClashA(a, pins.Keys) then {TargetOf(a).value} else {})
      + (if TargetOf(b).Some? && !ClashA(a, pins.Keys) && !ClashB(a, b, pins.Keys) then {TargetOf(b).value} else {})
  {
    var afterA := if TargetOf(a).Some? && !ClashA(a, pins.Keys) then pins[TargetOf(a).value := c] else pins;
    if ClashA(a, pins.Keys) then afterA
    else if TargetOf(b).Some? && !ClashB(a, b, pins.Keys) then afterA[TargetOf(b).value := c]
    else afterA
  }

  /// Arguments without a target (composites, whose generated delegate is
  /// bound to nothing, and static delegates) pin nothing: the pin table is
  /// unchanged, so the new surrogate is held only weakly.
  lemma TargetlessArgumentsPinNothing<S>(pins: map<ObjId, S>, x: Option<Delegate>, y: Option<Delegate>, c: S)
    requires TargetOf(x).None? && TargetOf(y).None?
    ensures Pinned(pins, x, y, c) == pins
    ensures !ClashA(x, pins.Keys) && !ClashB(x, y, pins.Keys)
  {
  }

  /// A composite passed to the pair rung becomes an unbound entry: it holds the
  /// composite only weakly, and once the caller drops the composite the entry
  /// resolves to nothing.
  lemma NestedCompositeIsWeak(composite: Delegate, h: HandleId, delegateType: string, live: set<ObjId>)
    requires composite.target.None? && composite.obj !in live
    ensures Breakout(composite, true, h) == Unbound(composite)
    ensures TryGetDelegate(Breakout(composite, true, h), delegateType, live) == Ok(None)
  {
  }

  // ---------------------------------------------------------------------------
  // The registry
  // ---------------------------------------------------------------------------

  /// The two static tables of `WeakDelegate`.
  class Registry {
    /// composite method -> weak reference to its surrogate
    var suragates: map<MethodInfo, WeakDelegateSuragate>
    /// target instance -> surrogate (held strongly while the target lives)
    var pins: map<ObjId, WeakDelegateSuragate>

    /// The arrays of the registered surrogates.
    ghost function Arrays(): set<array<DelegateBreakout>>
      reads this, suragates.Values
    {
      set s | s in suragates.Values :: s.delegates
    }

    /// - every registered method was created before now;
    /// - every registered surrogate was allocated and holds no default entry,
    ///   so reading its invocation list never throws;
    /// - every pin has a live key and keeps a registered surrogate alive.
    ghost predicate Valid(rt: Runtime)
      reads this, rt, suragates.Values, Arrays()
    {
      && rt.Valid()
      && (forall m | m in suragates :: m.id < rt.nextMethod)
      && (forall s | s in suragates.Values :: s.id < rt.nextObj && NoEmpty(s.Entries()))
      && (forall k | k in pins :: k in rt.live && pins[k] in suragates.Values && pins[k].id in rt.live)
    }

    constructor (rt: Runtime)
      requires rt.Valid()
      ensures Valid(rt)
      ensures suragates == map[] && pins == map[]
    {
      suragates := map[];
      pins := map[];
    }

    /// `GetCombinedHolder`: the surrogate registered for `m` if the weak
    /// reference to it still resolves, otherwise null.
    function GetCombinedHolder(m: MethodInfo, live: set<ObjId>): (h: Option<WeakDelegateSuragate>)
      reads this
      ensures h.Some? <==> m in suragates && suragates[m].id in live
      ensures h.Some? ==> h.value == suragates[m]
    {
      if m in suragates && suragates[m].id in live then Some(suragates[m]) else None
    }

    /// The entries of the holder found for `m`, if any.
    ghost function HolderEntries(m: MethodInfo, live: set<ObjId>): Option<seq<DelegateBreakout>>
      reads this, suragates.Values, Arrays()
    {
      var h := GetCombinedHolder(m, live);
      if h.Some? then Some(h.value.Entries()) else None
    }

    /// Looks up the holder of a non-null argument.
    function HolderOf(d: Option<Delegate>, live: set<ObjId>): (h: Option<WeakDelegateSuragate>)
      reads this
      ensures h.Some? ==> d.Some?
      ensures d.Some? ==> h == GetCombinedHolder(d.value.methodInfo, live)
    {
      if d.Some? then GetCombinedHolder(d.value.methodInfo, live) else None
    }

    /// The holder's entries for a non-null argument.
    ghost function ListOf(d: Option<Delegate>, live: set<ObjId>): Option<seq<DelegateBreakout>>
      reads this, suragates.Values, Arrays()
    {
      if d.Some? then HolderEntries(d.value.methodInfo, live) else None
    }

    /// A surrogate pinned by a target is the holder of every method it is
    /// registered under: the pin keeps the weak reference resolving.
    lemma PinnedHolderResolves(rt: Runtime, k: ObjId, m: MethodInfo)
      requires Valid(rt)
      requires k in pins && m in suragates && suragates[m] == pins[k]
      ensures GetCombinedHolder(m, rt.live) == Some(pins[k])
    {
    }

    /// `Combine<T>(a, b)`. In order: both null throws; a non-delegate `T`
    /// throws; a fresh composite method and delegate are created (of `a`'s
    /// type, else `b`'s, bound to nothing); the surrogate is built by the
    /// ladder; it is registered under the composite method; then `a`'s and
    /// `b`'s targets are pinned to it, and a target that is already pinned
    /// (or shared by `a` and `b`) throws with the earlier steps kept.
    method Combine(rt: Runtime, t: TypeArg, a: Option<Delegate>, b: Option<Delegate>, compositeText: string)
      returns (r: Result<Delegate>)
      requires Valid(rt)
      requires a.Some? ==> Held(a.value, rt.live)
      requires b.Some? ==> Held(b.value, rt.live)
      modifies this, rt`live, rt`nextObj, rt`handles, rt`nextHandle, rt`nextMethod
      ensures Valid(rt)
      ensures a.None? && b.None? ==> r == Fail(Argument) && unchanged(this, rt)
      ensures (a.Some? || b.Some?) && !IsDelegateType(t) ==> r == Fail(InvalidOperation) && unchanged(this, rt)
      ensures (a.Some? || b.Some?) && IsDelegateType(t) ==>
        var m := MethodInfo(old(rt.nextMethod), compositeText);
        var composite := Delegate(old(rt.nextObj), (if a.Some? then a.value else b.value).delegateType, m, None);
        && m !in old(suragates)
        && m in suragates
        && suragates == old(suragates)[m := suragates[m]]
        && fresh(suragates[m])
        && rt.live == old(rt.live) + {composite.obj, suragates[m].id}
        && old(rt.handles) <= rt.handles
        && Some(suragates[m].Entries()) ==
             CombinedEntries(a, b, old(ListOf(a, rt.live)), old(ListOf(b, rt.live)), old(rt.nextHandle))
        && pins == Pinned(old(pins), a, b, suragates[m])
        && (ClashA(a, old(pins).Keys) || ClashB(a, b, old(pins).Keys) ==> r == Fail(Argument))
        && (!ClashA(a, old(pins).Keys) && !ClashB(a, b, old(pins).Keys) ==> r == Ok(composite))
    {
      if a.None? && b.None? {
        return Fail(Argument);
      }
      var check := CheckIsDelegate(t);
      if check.Threw? {
        return Fail(check.error);
      }
      ghost var aList := ListOf(a, rt.live);
      ghost var bList := ListOf(b, rt.live);
      ghost var pins0 := pins;
      var signature := if a.Some? then a.value else b.value;
      var m := rt.NewMethod(compositeText);
      var obj := rt.NewObject();
      var composite := Delegate(obj, signature.delegateType, m, None);
      ListOfIgnoresFresh(a, old(rt.live), obj);
      ListOfIgnoresFresh(b, old(rt.live), obj);
      ghost var h := rt.nextHandle;
      var c := BuildSuragate(rt, a, b);
      assert Some(c.Entries()) == CombinedEntries(a, b, aList, bList, h);
      Register(rt, m, c);
      assert suragates[m] == c;
      r := PinTargets(rt, a, b, c, composite);
      assert pins == Pinned(pins0, a, b, c);
    }

    /// A newly allocated object is no registered surrogate, so it does not
    /// change what the lookups find.
    lemma ListOfIgnoresFresh(d: Option<Delegate>, live: set<ObjId>, o: ObjId)
      requires forall s | s in suragates.Values :: s.id != o
      ensures ListOf(d, live + {o}) == ListOf(d, live)
    {
      if d.Some? && d.value.methodInfo in suragates {
        assert suragates[d.value.methodInfo] in suragates.Values;
      }
    }

    /// Looks up both holders and builds the result surrogate, rung by rung
    /// (the two `Add(Delegate)` rungs are left out: they cannot fire).
    method BuildSuragate(rt: Runtime, a: Option<Delegate>, b: Option<Delegate>) returns (c: WeakDelegateSuragate)
      requires Valid(rt) && (a.Some? || b.Some?)
      modifies rt`live, rt`nextObj, rt`handles, rt`nextHandle
      ensures rt.Valid() && rt.live == old(rt.live) + {c.id} && c.id !in old(rt.live)
      ensures old(rt.handles) <= rt.handles
      ensures fresh(c)
      ensures Some(c.Entries()) == CombinedEntries(a, b, old(ListOf(a, rt.live)), old(ListOf(b, rt.live)), old(rt.nextHandle))
      ensures NoEmpty(c.Entries())
    {
      ghost var aList := ListOf(a, rt.live);
      ghost var bList := ListOf(b, rt.live);
      ghost var h := rt.nextHandle;
      var aSuragate := HolderOf(a, rt.live);
      var bSuragate := HolderOf(b, rt.live);
      LadderSkipsAddDelegate(a.Some?, b.Some?, aSuragate.Some?, bSuragate.Some?);
      CombinedEntriesNoEmpty(a, b, aList, bList, h);
      if aSuragate.Some? && bSuragate.Some? {
        c := aSuragate.value.AddSuragate(rt, bSuragate.value);
      } else if a.Some? && b.Some? {
        c := new WeakDelegateSuragate.Pair(rt, a.value, b.value);
      } else if aSuragate.Some? {
        c := aSuragate.value.Clone(rt);
      } else if bSuragate.Some? {
        c := bSuragate.value.Clone(rt);
      } else if a.Some? {
        c := new WeakDelegateSuragate.Single(rt, a.value);
      } else {
        c := new WeakDelegateSuragate.Single(rt, b.value);
      }
    }

    /// `suragates.Add(method, new WeakReference(surrogate))`; the composite
    /// method is new, so the key is never already present.
    method Register(rt: Runtime, m: MethodInfo, c: WeakDelegateSuragate)
      requires Valid(rt)
      requires m.id < rt.nextMethod && m !in suragates
      requires c.id < rt.nextObj && NoEmpty(c.Entries())
      modifies this`suragates
      ensures Valid(rt)
      ensures suragates == old(suragates)[m := c]
    {
      forall k | k in pins
        ensures pins[k] in suragates[m := c].Values
      {
        var m' :| m' in suragates && suragates[m'] == pins[k];
        assert suragates[m := c][m'] == pins[k];
      }
      suragates := suragates[m := c];
    }

    /// `weakReference.Add(a.Target, surrogate)` then the same for `b`; each
    /// `Add` throws when the target is already a key.
    method PinTargets(rt: Runtime, a: Option<Delegate>, b: Option<Delegate>, c: WeakDelegateSuragate, composite: Delegate)
      returns (r: Result<Delegate>)
      requires Valid(rt) && c in suragates.Values && c.id in rt.live
      requires a.Some? ==> Held(a.value, rt.live)
      requires b.Some? ==> Held(b.value, rt.live)
      modifies this`pins
      ensures Valid(rt)
      ensures pins == Pinned(old(pins), a, b, c)
      ensures ClashA(a, old(pins).Keys) || ClashB(a, b, old(pins).Keys) ==> r == Fail(Argument)
      ensures !ClashA(a, old(pins).Keys) && !ClashB(a, b, old(pins).Keys) ==> r == Ok(composite)
    {
      if a.Some? && a.value.target.Some? {
        if a.value.target.value in pins {
          return Fail(Argument);
        }
        pins := pins[a.value.target.value := c];
      }
      if b.Some? && b.value.target.Some? {
        if b.value.target.value in pins {
          return Fail(Argument);
        }
        pins := pins[b.value.target.value := c];
      }
      r := Ok(composite);
    }

    /// Calling a composite: the generated method looks up its holder and, if
    /// one resolves and its invocation list is not null, invokes that list.
    /// Returns the callables invoked, in order (None: nothing is called).
    /// Under the registry invariant the lookup never throws.
    method Invoke(rt: Runtime, composite: Delegate) returns (r: Option<seq<Callable>>)
      requires Valid(rt)
      ensures GetCombinedHolder(composite.methodInfo, rt.live).None? ==> r.None?
      ensures GetCombinedHolder(composite.methodInfo, rt.live).Some? ==>
        var s := suragates[composite.methodInfo];
        r == AsDelegate(Resolved(s.Entries(), s.delegateType, rt.live))
    {
      var holder := GetCombinedHolder(composite.methodInfo, rt.live);
      if holder.None? {
        return None;
      }
      var got := holder.value.GetInvocationList(rt);
      r := got.value;
    }

    /// The collection callback of a registered surrogate: `Clean` on it.
    method Alert(rt: Runtime, s: WeakDelegateSuragate) returns (outcome: Outcome)
      requires Valid(rt) && s in suragates.Values
      modifies s`delegates, rt`handles
      ensures Valid(rt)
      ensures outcome == Done
      ensures s.Entries() == KeepAlive(old(s.Entries()), rt.live)
      ensures rt.handles == old(rt.handles) - DeadHandles(old(s.Entries()), rt.live)
    {
      outcome := s.Clean(rt);
      AllAliveNoEmpty(s.Entries(), rt.live);
    }

    /// The collector may reclaim `dead`: no pin with a surviving key holds a
    /// surrogate in it.
    predicate CollectAllowed(dead: set<ObjId>)
      reads this
    {
      forall k | k in pins && k !in dead :: pins[k].id !in dead
    }

    /// A registered surrogate that no pin holds may be reclaimed at any time,
    /// after which its composite finds no holder and calls nothing.
    lemma UnpinnedHolderCanVanish(rt: Runtime, m: MethodInfo)
      requires Valid(rt) && m in suragates
      requires forall k | k in pins :: pins[k].id != suragates[m].id
      ensures CollectAllowed({suragates[m].id})
      ensures GetCombinedHolder(m, rt.live - {suragates[m].id}).None?
    {
    }

    /// A garbage collection reclaiming `dead`. A pinned surrogate is reachable
    /// from its live key, so it is not reclaimed; entries whose key died
    /// leave the pin table. Composite methods stay registered.
    method Collect(rt: Runtime, dead: set<ObjId>)
      requires Valid(rt)
      requires CollectAllowed(dead)
      modifies this`pins, rt`live
      ensures Valid(rt)
      ensures rt.live == old(rt.live) - dead
      ensures pins == map k | k in old(pins) && k !in dead :: old(pins)[k]
    {
      rt.Collect(dead);
      pins := map k | k in pins && k !in dead :: pins[k];
    }

    /// `Remove<T>(source, value)`, as written: checks `T`, returns null for a
    /// null source, dereferences `value` only once `source` has a holder, and
    /// returns null on every path that does not throw.
    function Remove(t: TypeArg, source: Option<Delegate>, value: Option<Delegate>, live: set<ObjId>): (r: Result<Option<Delegate>>)
      reads this
      ensures r.Ok? ==> r.value.None?
      ensures r == Fail(InvalidOperation) <==> !IsDelegateType(t)
      ensures r == Fail(NullReference) <==>
        IsDelegateType(t) && source.Some? && HolderOf(source, live).Some? && value.None?
      ensures r.Fail? ==> r.error in {InvalidOperation, NullReference}
    {
      if CheckIsDelegate(t).Threw? then Fail(InvalidOperation)
      else if source.None? then Ok(None)
      else if GetCombinedHolder(source.value.methodInfo, live).Some? && value.None? then Fail(NullReference)
      else Ok(None)
    }
  }
}
