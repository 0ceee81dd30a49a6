/// The surrogate (`WeakDelegateSuragate`): an ordered array of entries whose
/// order is call order. Combining and removing build new surrogates; only
/// `Clean` (and the slot write in `AddDelegate`) change an existing one.
module Suragates {
  import opened Host
  import opened DelegateBreakouts

  // ---------------------------------------------------------------------------
  // Specification functions over entry sequences
  // ---------------------------------------------------------------------------

  /// No entry is the default struct (every constructed entry is bound or unbound).
  predicate NoEmpty(s: seq<DelegateBreakout>)
  {
    forall i | 0 <= i < |s| :: !s[i].Empty?
  }

  /// Every entry is alive.
  predicate AllAlive(s: seq<DelegateBreakout>, live: set<ObjId>)
  {
    forall i | 0 <= i < |s| :: IsAlive(s[i], live)
  }

  /// The position of the first default entry.
  function FirstEmpty(s: seq<DelegateBreakout>): (k: nat)
    requires !NoEmpty(s)
    ensures k < |s| && s[k].Empty? && NoEmpty(s[..k])
  {
    if s[0].Empty? then 0
    else
      var k := 1 + FirstEmpty(s[1..]);
      assert s[..k] == [s[0]] + s[1..][..k - 1];
      k
  }

  /// A default entry with none before it is the first one.
  lemma FirstEmptyIsFirst(s: seq<DelegateBreakout>, i: nat)
    requires i < |s| && s[i].Empty? && NoEmpty(s[..i])
    ensures FirstEmpty(s) == i
  {
    var k := FirstEmpty(s);
    assert forall j | 0 <= j < i :: s[..i][j] == s[j];
    assert forall j | 0 <= j < k :: s[..k][j] == s[j];
  }

  /// The live entries, in their original order.
  function KeepAlive(s: seq<DelegateBreakout>, live: set<ObjId>): (r: seq<DelegateBreakout>)
    ensures |r| <= |s|
    ensures AllAlive(r, live)
    decreases |s|
  {
    if s == [] then []
    else
      var rest := KeepAlive(s[..|s| - 1], live);
      if IsAlive(s[|s| - 1], live) then rest + [s[|s| - 1]] else rest
  }

  /// The handles of the entries found dead (what `Clean` disposes).
  function DeadHandles(s: seq<DelegateBreakout>, live: set<ObjId>): set<HandleId>
    decreases |s|
  {
    if s == [] then {}
    else
      DeadHandles(s[..|s| - 1], live)
      + (if Alive(s[|s| - 1], live) == Ok(false) then Handles(s[|s| - 1]) else {})
  }

  /// The callable a live entry resolves to.
  function Resolve(e: DelegateBreakout, delegateType: string): Callable
    requires !e.Empty?
  {
    match e
    case Bound(m, target, _) => BoundCall(m, target, delegateType)
    case Unbound(d) => Direct(d)
  }

  /// The callables of the entries that resolve, in order.
  function Resolved(s: seq<DelegateBreakout>, delegateType: string, live: set<ObjId>): seq<Callable>
    decreases |s|
  {
    if s == [] then []
    else
      Resolved(s[..|s| - 1], delegateType, live)
      + match TryGetDelegate(s[|s| - 1], delegateType, live)
        case Ok(Some(c)) => [c]
        case _ => []
  }

  /// `Delegate.Combine` on invocation lists: null is the identity, otherwise
  /// the lists are concatenated.
  function DelegateCombine(a: Option<seq<Callable>>, b: Option<seq<Callable>>): Option<seq<Callable>>
  {
    match a
    case None => b
    case Some(x) =>
      match b
      case None => a
      case Some(y) => Some(x + y)
  }

  /// A list of callables as a delegate: null when empty.
  function AsDelegate(cs: seq<Callable>): (r: Option<seq<Callable>>)
    ensures r.None? <==> cs == []
  {
    if cs == [] then None else Some(cs)
  }

  /// What a removal compares each entry against.
  datatype Removal =
    | OneEntry(x: DelegateBreakout)         // Remove(Delegate): `breakout != toRemove`
    | AnyOf(xs: seq<DelegateBreakout>)      // Remove(other): `Array.IndexOf(toRemove, breakout) == -1`

  /// `Array.IndexOf(xs, x)`: scans from the front, calling `xs[j].Equals(x)`,
  /// and stops at the first match or the first exception.
  function IndexOf(xs: seq<DelegateBreakout>, x: DelegateBreakout, live: set<ObjId>): (r: Result<int>)
    ensures r.Ok? ==> -1 <= r.value < |xs|
    ensures r.Ok? && r.value >= 0 ==> Equals(xs[r.value], x, live) == Ok(true)
    ensures r.Ok? ==> forall j | 0 <= j < |xs| && (r.value < 0 || j < r.value) :: Equals(xs[j], x, live) == Ok(false)
    ensures r.Fail? <==> exists j | 0 <= j < |xs| ::
      Equals(xs[j], x, live).Fail? && forall k | 0 <= k < j :: Equals(xs[k], x, live) == Ok(false)
    decreases |xs|
  {
    if xs == [] then Ok(-1)
    else
      match Equals(xs[0], x, live)
      case Fail(err) => Fail(err)
      case Ok(eq) =>
        if eq then Ok(0)
        else
          match IndexOf(xs[1..], x, live)
          case Fail(err) => Fail(err)
          case Ok(k) =>
            assert forall j | 1 <= j < |xs| :: xs[j] == xs[1..][j - 1];
            Ok(if k < 0 then -1 else k + 1)
  }

  /// The removal test: true when `e` is not matched by the removal.
  function Unmatched(e: DelegateBreakout, rem: Removal, live: set<ObjId>): Result<bool>
  {
    match rem
    case OneEntry(x) => NotEquals(e, x, live)
    case AnyOf(xs) =>
      match IndexOf(xs, e, live)
      case Fail(err) => Fail(err)
      case Ok(k) => Ok(k == -1)
  }

  /// `unmatched && e.Alive`, evaluated left to right with short circuit.
  function Admit(e: DelegateBreakout, rem: Removal, live: set<ObjId>): Result<bool>
  {
    match Unmatched(e, rem, live)
    case Fail(err) => Fail(err)
    case Ok(keep) => if keep then Alive(e, live) else Ok(false)
  }

  /// The entry passes the removal loop's test.
  predicate Admitted(e: DelegateBreakout, rem: Removal, live: set<ObjId>)
  {
    Admit(e, rem, live) == Ok(true)
  }

  /// The removal loop: the admitted entries in order, or the first exception.
  function Survivors(s: seq<DelegateBreakout>, rem: Removal, live: set<ObjId>): (r: Result<seq<DelegateBreakout>>)
    ensures r.Ok? ==> |r.value| <= |s|
    ensures r.Ok? ==> forall i | 0 <= i < |r.value| :: Admitted(r.value[i], rem, live)
    decreases |s|
  {
    if s == [] then Ok([])
    else
      match Survivors(s[..|s| - 1], rem, live)
      case Fail(err) => Fail(err)
      case Ok(kept) =>
        match Admit(s[|s| - 1], rem, live)
        case Fail(err) => Fail(err)
        case Ok(keep) => Ok(if keep then kept + [s[|s| - 1]] else kept)
  }

  /// Reference definition: the entries that pass the test, in order.
  function Kept(s: seq<DelegateBreakout>, rem: Removal, live: set<ObjId>): seq<DelegateBreakout>
    decreases |s|
  {
    if s == [] then []
    else
      var rest := Kept(s[..|s| - 1], rem, live);
      if Admitted(s[|s| - 1], rem, live) then rest + [s[|s| - 1]] else rest
  }

  // ---------------------------------------------------------------------------
  // Lemmas about the specification functions
  // ---------------------------------------------------------------------------

  lemma {:induction false} KeepAliveAppend(s: seq<DelegateBreakout>, t: seq<DelegateBreakout>, live: set<ObjId>)
    ensures KeepAlive(s + t, live) == KeepAlive(s, live) + KeepAlive(t, live)
    decreases |t|
  {
    if t != [] {
      assert (s + t)[..|s + t| - 1] == s + t[..|t| - 1];
      KeepAliveAppend(s, t[..|t| - 1], live);
    } else {
      assert s + t == s;
    }
  }

  /// Filtering a sequence that is already all alive changes nothing.
  lemma {:induction false} KeepAliveOfAllAlive(s: seq<DelegateBreakout>, live: set<ObjId>)
    requires AllAlive(s, live)
    ensures KeepAlive(s, live) == s
    decreases |s|
  {
    if s != [] {
      KeepAliveOfAllAlive(s[..|s| - 1], live);
    }
  }

  /// Compaction is idempotent.
  lemma KeepAliveIdempotent(s: seq<DelegateBreakout>, live: set<ObjId>)
    ensures KeepAlive(KeepAlive(s, live), live) == KeepAlive(s, live)
  {
    KeepAliveOfAllAlive(KeepAlive(s, live), live);
  }

  /// A sequence of live entries owns no dead handles: `Clean` frees nothing.
  lemma {:induction false} DeadHandlesOfAllAlive(s: seq<DelegateBreakout>, live: set<ObjId>)
    requires AllAlive(s, live)
    ensures DeadHandles(s, live) == {}
    decreases |s|
  {
    if s != [] {
      assert IsAlive(s[|s| - 1], live);
      DeadHandlesOfAllAlive(s[..|s| - 1], live);
    }
  }

  /// Concatenating two sequences without default entries gives one without.
  lemma NoEmptyAppend(s: seq<DelegateBreakout>, t: seq<DelegateBreakout>)
    requires NoEmpty(s) && NoEmpty(t)
    ensures NoEmpty(s + t)
  {
    assert forall i | |s| <= i < |s + t| :: (s + t)[i] == t[i - |s|];
  }

  /// A live entry is never the default one.
  lemma AllAliveNoEmpty(s: seq<DelegateBreakout>, live: set<ObjId>)
    requires AllAlive(s, live)
    ensures NoEmpty(s)
  {
    assert forall i | 0 <= i < |s| :: IsAlive(s[i], live) ==> !s[i].Empty?;
  }

  /// Nothing is dropped exactly when everything is alive.
  lemma {:induction false} KeepAliveFull(s: seq<DelegateBreakout>, live: set<ObjId>)
    ensures |KeepAlive(s, live)| == |s| <==> AllAlive(s, live)
    decreases |s|
  {
    if s != [] {
      var p := s[..|s| - 1];
      KeepAliveFull(p, live);
      assert AllAlive(s, live) <==> AllAlive(p, live) && IsAlive(s[|s| - 1], live) by {
        assert forall i | 0 <= i < |p| :: p[i] == s[i];
      }
    }
  }

  /// Dead entries stay dead: compacting against an earlier (larger) live set
  /// and filtering against the current one is the same as filtering once.
  lemma {:induction false} KeepAliveLater(s: seq<DelegateBreakout>, earlier: set<ObjId>, now: set<ObjId>)
    requires now <= earlier
    ensures KeepAlive(KeepAlive(s, earlier), now) == KeepAlive(s, now)
    decreases |s|
  {
    if s != [] {
      var p, e := s[..|s| - 1], s[|s| - 1];
      KeepAliveLater(p, earlier, now);
      if IsAlive(e, earlier) {
        KeepAliveAppend(KeepAlive(p, earlier), [e], now);
        assert KeepAlive([e], now) == (if IsAlive(e, now) then [e] else []) by {
          assert [e][..0] == [];
        }
      } else {
        assert !IsAlive(e, now);
      }
    }
  }

  lemma {:induction false} ResolvedAppend(s: seq<DelegateBreakout>, t: seq<DelegateBreakout>, delegateType: string, live: set<ObjId>)
    ensures Resolved(s + t, delegateType, live) == Resolved(s, delegateType, live) + Resolved(t, delegateType, live)
    decreases |t|
  {
    if t != [] {
      assert (s + t)[..|s + t| - 1] == s + t[..|t| - 1];
      ResolvedAppend(s, t[..|t| - 1], delegateType, live);
    } else {
      assert s + t == s;
    }
  }

  /// The invocation list holds exactly the live entries' callables, in order.
  lemma {:induction false} ResolvedIsLiveEntries(s: seq<DelegateBreakout>, delegateType: string, live: set<ObjId>)
    requires NoEmpty(s)
    ensures |Resolved(s, delegateType, live)| == |KeepAlive(s, live)|
    ensures forall i | 0 <= i < |KeepAlive(s, live)| ::
      !KeepAlive(s, live)[i].Empty? && Resolved(s, delegateType, live)[i] == Resolve(KeepAlive(s, live)[i], delegateType)
    decreases |s|
  {
    if s != [] {
      var p := s[..|s| - 1];
      assert NoEmpty(p) by {
        assert forall i | 0 <= i < |p| :: p[i] == s[i];
      }
      ResolvedIsLiveEntries(p, delegateType, live);
    }
  }

  /// A collected target is never called.
  lemma {:induction false} DeadTargetNeverCalled(s: seq<DelegateBreakout>, delegateType: string, live: set<ObjId>)
    ensures forall c | c in Resolved(s, delegateType, live) :: c.BoundCall? ==> c.target in live
    ensures forall c | c in Resolved(s, delegateType, live) :: c.Direct? ==> c.del.obj in live
    decreases |s|
  {
    if s != [] {
      DeadTargetNeverCalled(s[..|s| - 1], delegateType, live);
    }
  }

  /// Compaction never changes what an invocation calls, now or later.
  lemma {:induction false} ResolvedAfterCompaction(s: seq<DelegateBreakout>, delegateType: string, earlier: set<ObjId>, now: set<ObjId>)
    requires now <= earlier
    ensures Resolved(KeepAlive(s, earlier), delegateType, now) == Resolved(s, delegateType, now)
    decreases |s|
  {
    if s != [] {
      var p, e := s[..|s| - 1], s[|s| - 1];
      ResolvedAfterCompaction(p, delegateType, earlier, now);
      if IsAlive(e, earlier) {
        ResolvedAppend(KeepAlive(p, earlier), [e], delegateType, now);
        assert [e][..0] == [];
      } else {
        assert !IsAlive(e, now);
        assert TryGetDelegate(e, delegateType, now).Ok? ==> TryGetDelegate(e, delegateType, now).value.None?;
      }
    }
  }

  /// Once a prefix of the removal loop throws, the whole loop throws the same.
  lemma {:induction false} SurvivorsFailureStays(s: seq<DelegateBreakout>, k: nat, rem: Removal, live: set<ObjId>)
    requires k <= |s|
    requires Survivors(s[..k], rem, live).Fail?
    ensures Survivors(s, rem, live) == Survivors(s[..k], rem, live)
    decreases |s| - k
  {
    if k < |s| {
      assert s[..k + 1][..k] == s[..k];
      SurvivorsFailureStays(s, k + 1, rem, live);
    } else {
      assert s[..k] == s;
    }
  }

  /// The removal loop throws exactly when some entry's test throws.
  lemma {:induction false} SurvivorsFailsIff(s: seq<DelegateBreakout>, rem: Removal, live: set<ObjId>)
    ensures Survivors(s, rem, live).Fail? <==> exists i | 0 <= i < |s| :: Admit(s[i], rem, live).Fail?
    decreases |s|
  {
    if s != [] {
      var p := s[..|s| - 1];
      SurvivorsFailsIff(p, rem, live);
      assert forall i | 0 <= i < |p| :: p[i] == s[i];
    }
  }

  /// When the removal loop completes, it returns the reference filter.
  lemma {:induction false} SurvivorsAreKept(s: seq<DelegateBreakout>, rem: Removal, live: set<ObjId>)
    requires Survivors(s, rem, live).Ok?
    ensures Survivors(s, rem, live).value == Kept(s, rem, live)
    decreases |s|
  {
    if s != [] {
      SurvivorsAreKept(s[..|s| - 1], rem, live);
    }
  }

  /// An entry is kept exactly when it occurs and passes the test.
  lemma {:induction false} KeptMembership(s: seq<DelegateBreakout>, rem: Removal, live: set<ObjId>, e: DelegateBreakout)
    ensures e in Kept(s, rem, live) <==> e in s && Admitted(e, rem, live)
    decreases |s|
  {
    if s != [] {
      var p := s[..|s| - 1];
      KeptMembership(p, rem, live, e);
      assert s == p + [s[|s| - 1]];
    }
  }

  /// `Remove(other)` keeps an entry exactly when it is alive and every entry of
  /// `other` compares unequal to it without throwing.
  lemma AnyOfAdmitsExactlyUnmatched(xs: seq<DelegateBreakout>, e: DelegateBreakout, live: set<ObjId>)
    ensures Admitted(e, AnyOf(xs), live) <==>
      IsAlive(e, live) && forall j | 0 <= j < |xs| :: Equals(xs[j], e, live) == Ok(false)
  {
  }

  /// `Remove(Delegate)` on entries that are all constructed: the comparison
  /// `breakout != toRemove` throws `InvalidCastException` as soon as a bound
  /// entry is reached, so the removal succeeds exactly when no entry is bound.
  lemma RemoveDelegateThrowsOnBound(s: seq<DelegateBreakout>, d: Delegate, live: set<ObjId>)
    requires NoEmpty(s)
    ensures Survivors(s, OneEntry(Unbound(d)), live).Fail? <==> exists i | 0 <= i < |s| :: s[i].Bound?
  {
    SurvivorsFailsIff(s, OneEntry(Unbound(d)), live);
    forall i | 0 <= i < |s|
      ensures Admit(s[i], OneEntry(Unbound(d)), live).Fail? <==> s[i].Bound?
    {
      assert !s[i].Empty?;
    }
  }

  /// Removing a delegate that matches no unbound entry keeps exactly the live entries.
  lemma {:induction false} RemoveUnmatchedKeepsLive(s: seq<DelegateBreakout>, d: Delegate, live: set<ObjId>)
    requires forall i | 0 <= i < |s| :: s[i].Unbound? && !(d.obj in live && SameDelegate(s[i].del, d))
    ensures Survivors(s, OneEntry(Unbound(d)), live) == Ok(KeepAlive(s, live))
    decreases |s|
  {
    if s != [] {
      var p := s[..|s| - 1];
      assert forall i | 0 <= i < |p| :: p[i] == s[i];
      RemoveUnmatchedKeepsLive(p, d, live);
    }
  }

  /// With bound entries on both sides, `Array.IndexOf` either matches the
  /// first element of `xs` by method text or throws on it.
  lemma BoundIndexOfStopsAtHead(xs: seq<DelegateBreakout>, x: DelegateBreakout, live: set<ObjId>)
    requires |xs| > 0 && xs[0].Bound? && x.Bound?
    ensures IndexOf(xs, x, live) == if xs[0].methodInfo.text == x.methodInfo.text then Ok(0) else Fail(InvalidCast)
  {
  }

  // ---------------------------------------------------------------------------
  // Array copying (`Array.CopyTo` and `List<T>.CopyTo`)
  // ---------------------------------------------------------------------------

  /// Copies `src` into `dst` starting at index `at`.
  method CopyTo(src: seq<DelegateBreakout>, dst: array<DelegateBreakout>, at: nat)
    requires at + |src| <= dst.Length
    modifies dst
    ensures dst[..] == old(dst[..at]) + src + old(dst[at + |src|..])
  {
    for i := 0 to |src|
      invariant forall k | 0 <= k < dst.Length :: dst[k] == if at <= k < at + i then src[k - at] else old(dst[k])
    {
      dst[at + i] := src[i];
    }
    assert dst[..] == old(dst[..at]) + src + old(dst[at + |src|..]);
  }

  // ---------------------------------------------------------------------------
  // The surrogate
  // ---------------------------------------------------------------------------

  class WeakDelegateSuragate {
    /// Object identity, for the registry's weak reference to this surrogate.
    const id: ObjId
    const delegateType: string
    var delegates: array<DelegateBreakout>

    /// The current entries.
    function Entries(): seq<DelegateBreakout>
      reads this, delegates
    {
      delegates[..]
    }

    /// `new WeakDelegateSuragate(delegate)`: one entry, bound when the delegate has a target.
    constructor Single(rt: Runtime, d: Delegate)
      requires rt.Valid()
      modifies rt`live, rt`nextObj, rt`handles, rt`nextHandle
      ensures rt.Valid()
      ensures id == old(rt.nextObj) && id !in old(rt.live) && rt.live == old(rt.live) + {id}
      ensures delegateType == d.delegateType && fresh(delegates)
      ensures Entries() == [Breakout(d, true, old(rt.nextHandle))]
      ensures rt.nextHandle == HandleAfter(d, true, old(rt.nextHandle))
      ensures rt.handles == old(rt.handles) + Handles(Breakout(d, true, old(rt.nextHandle)))
    {
      var o := rt.NewObject();
      var e := NewBreakout(rt, d, true);
      id := o;
      delegateType := d.delegateType;
      delegates := new DelegateBreakout[1](_ => e);
    }

    /// `new WeakDelegateSuragate(a, b)`: two entries in argument order; the
    /// surrogate takes `a`'s delegate type.
    constructor Pair(rt: Runtime, a: Delegate, b: Delegate)
      requires rt.Valid()
      modifies rt`live, rt`nextObj, rt`handles, rt`nextHandle
      ensures rt.Valid()
      ensures id == old(rt.nextObj) && id !in old(rt.live) && rt.live == old(rt.live) + {id}
      ensures delegateType == a.delegateType && fresh(delegates)
      ensures Entries() == [Breakout(a, true, old(rt.nextHandle)), Breakout(b, true, HandleAfter(a, true, old(rt.nextHandle)))]
      ensures rt.nextHandle == HandleAfter(b, true, HandleAfter(a, true, old(rt.nextHandle)))
      ensures rt.handles == old(rt.handles) + Handles(Entries()[0]) + Handles(Entries()[1])
    {
      var o := rt.NewObject();
      var ea := NewBreakout(rt, a, true);
      var eb := NewBreakout(rt, b, true);
      id := o;
      delegateType := a.delegateType;
      delegates := new DelegateBreakout[2](i => if i == 0 then ea else eb);
    }

    /// The private sized constructor: `n` default entries.
    constructor Sized(rt: Runtime, delegateType: string, n: nat)
      requires rt.Valid()
      modifies rt`live, rt`nextObj
      ensures rt.Valid()
      ensures id == old(rt.nextObj) && id !in old(rt.live) && rt.live == old(rt.live) + {id}
      ensures this.delegateType == delegateType && fresh(delegates)
      ensures Entries() == seq(n, _ => Empty)
    {
      var o := rt.NewObject();
      id := o;
      this.delegateType := delegateType;
      delegates := new DelegateBreakout[n](_ => Empty);
    }

    /// `Add(Delegate)`, as written: the result has room for one more entry,
    /// but the new entry is stored in the receiver's last slot, and the
    /// result's last slot keeps the default entry. On an empty receiver the
    /// slot index is -1 and the write throws.
    method AddDelegate(rt: Runtime, d: Delegate) returns (r: Result<WeakDelegateSuragate>)
      requires rt.Valid()
      modifies delegates, rt`live, rt`nextObj, rt`handles, rt`nextHandle
      ensures rt.Valid()
      ensures rt.live == old(rt.live) + {old(rt.nextObj)}
      ensures rt.handles == old(rt.handles) + Handles(Breakout(d, true, old(rt.nextHandle)))
      ensures old(delegates.Length) == 0 ==> r == Fail(IndexOutOfRange) && Entries() == old(Entries())
      ensures old(delegates.Length) > 0 ==>
        && r.Ok? && fresh(r.value) && r.value.delegateType == delegateType
        && r.value.Entries() == old(Entries()) + [Empty]
        && Entries() == old(Entries())[..old(delegates.Length) - 1] + [Breakout(d, true, old(rt.nextHandle))]
    {
      var s := new WeakDelegateSuragate.Sized(rt, delegateType, delegates.Length + 1);
      CopyTo(delegates[..], s.delegates, 0);
      var e := NewBreakout(rt, d, true);
      if delegates.Length == 0 {
        return Fail(IndexOutOfRange);
      }
      delegates[delegates.Length - 1] := e;
      r := Ok(s);
    }

    /// `Clone`: a new surrogate with the same entries in the same order.
    method Clone(rt: Runtime) returns (c: WeakDelegateSuragate)
      requires rt.Valid()
      modifies rt`live, rt`nextObj
      ensures rt.Valid() && rt.live == old(rt.live) + {c.id} && c.id !in old(rt.live)
      ensures fresh(c) && fresh(c.delegates)
      ensures c.delegateType == delegateType && c.Entries() == Entries()
    {
      c := new WeakDelegateSuragate.Sized(rt, delegateType, delegates.Length);
      CopyTo(delegates[..], c.delegates, 0);
    }

    /// `Add(WeakDelegateSuragate)`: the receiver's entries followed by `other`'s.
    method AddSuragate(rt: Runtime, other: WeakDelegateSuragate) returns (c: WeakDelegateSuragate)
      requires rt.Valid()
      modifies rt`live, rt`nextObj
      ensures rt.Valid() && rt.live == old(rt.live) + {c.id} && c.id !in old(rt.live)
      ensures fresh(c) && fresh(c.delegates)
      ensures c.delegateType == delegateType && c.Entries() == Entries() + other.Entries()
    {
      c := new WeakDelegateSuragate.Sized(rt, delegateType, delegates.Length + other.delegates.Length);
      CopyTo(delegates[..], c.delegates, 0);
      CopyTo(other.delegates[..], c.delegates, delegates.Length);
    }

    /// `Clean`: keeps the live entries in order, disposes the dead ones, and
    /// swaps in a new array only when something died. Taken as one atomic step.
    /// A default entry makes `Alive` throw, which ends the sweep early.
    method Clean(rt: Runtime) returns (outcome: Outcome)
      modifies this`delegates, rt`handles
      ensures NoEmpty(old(Entries())) ==>
        && outcome == Done
        && Entries() == KeepAlive(old(Entries()), rt.live)
        && rt.handles == old(rt.handles) - DeadHandles(old(Entries()), rt.live)
        && (AllAlive(old(Entries()), rt.live) ==> delegates == old(delegates))
        && (!AllAlive(old(Entries()), rt.live) ==> fresh(delegates))
      ensures !NoEmpty(old(Entries())) ==>
        && outcome == Threw(NullReference)
        && delegates == old(delegates)
        && rt.handles == old(rt.handles) - DeadHandles(old(Entries())[..FirstEmpty(old(Entries()))], rt.live)
    {
      var current := delegates;
      ghost var before := current[..];
      var stillAlive: seq<DelegateBreakout> := [];
      for i := 0 to current.Length
        invariant delegates == current
        invariant NoEmpty(current[..i])
        invariant stillAlive == KeepAlive(current[..i], rt.live)
        invariant rt.handles == old(rt.handles) - DeadHandles(current[..i], rt.live)
      {
        var breakout := current[i];
        assert current[..i + 1][..i] == current[..i];
        var alive := Alive(breakout, rt.live);
        if alive.Fail? {
          assert before[..i] == current[..i];
          FirstEmptyIsFirst(before, i);
          return Threw(alive.error);
        }
        if alive.value {
          stillAlive := stillAlive + [breakout];
        } else {
          Dispose(rt, breakout);
        }
      }
      assert current[..current.Length] == before;
      KeepAliveFull(before, rt.live);
      if |stillAlive| != current.Length {
        delegates := new DelegateBreakout[|stillAlive|](k requires 0 <= k < |stillAlive| => stillAlive[k]);
      } else {
        KeepAliveOfAllAlive(before, rt.live);
      }
      outcome := Done;
    }

    /// `GetInvocationList`: combines the callables of the entries that still
    /// resolve, in array order; null when none does. Changes nothing.
    method GetInvocationList(rt: Runtime) returns (r: Result<Option<seq<Callable>>>)
      ensures NoEmpty(Entries()) ==> r == Ok(AsDelegate(Resolved(Entries(), delegateType, rt.live)))
      ensures !NoEmpty(Entries()) ==> r == Fail(NullReference)
    {
      var current := delegates;
      var result: Option<seq<Callable>> := None;
      for i := 0 to current.Length
        invariant NoEmpty(current[..i])
        invariant result == AsDelegate(Resolved(current[..i], delegateType, rt.live))
      {
        var breakout := current[i];
        assert current[..i + 1][..i] == current[..i];
        assert current[..i + 1][i] == breakout;
        var got := TryGetDelegate(breakout, delegateType, rt.live);
        if got.Fail? {
          return Fail(got.error);
        }
        assert NoEmpty(current[..i + 1]);
        if got.value.Some? {
          ghost var before := Resolved(current[..i], delegateType, rt.live);
          assert result == AsDelegate(before);
          if before == [] {
            assert result == None;
            assert before + [got.value.value] == [got.value.value];
          } else {
            assert result == Some(before);
          }
          result := DelegateCombine(result, Some([got.value.value]));
          assert result == AsDelegate(before + [got.value.value]);
          assert Resolved(current[..i + 1], delegateType, rt.live) == before + [got.value.value];
        } else {
          assert Resolved(current[..i + 1], delegateType, rt.live) == Resolved(current[..i], delegateType, rt.live);
        }
      }
      assert current[..current.Length] == current[..];
      r := Ok(result);
    }

    /// The loop shared by both `Remove` overloads: the entries that pass
    /// the removal test and are alive, in order.
    method Filter(rt: Runtime, rem: Removal) returns (r: Result<seq<DelegateBreakout>>)
      ensures r == Survivors(Entries(), rem, rt.live)
    {
      var current := delegates;
      var breakouts: seq<DelegateBreakout> := [];
      for i := 0 to current.Length
        invariant Survivors(current[..i], rem, rt.live) == Ok(breakouts)
      {
        var breakout := current[i];
        assert current[..i + 1][..i] == current[..i];
        var admit := Admit(breakout, rem, rt.live);
        if admit.Fail? {
          SurvivorsFailureStays(current[..], i + 1, rem, rt.live);
          return Fail(admit.error);
        }
        if admit.value {
          breakouts := breakouts + [breakout];
        }
      }
      assert current[..current.Length] == current[..];
      r := Ok(breakouts);
    }

    /// `Remove(Delegate)`: compares every entry against an unbound entry for
    /// `d` (built with no collection callback) and keeps those that differ
    /// and are alive. The receiver is unchanged.
    method RemoveDelegate(rt: Runtime, d: Delegate) returns (r: Result<WeakDelegateSuragate>)
      requires rt.Valid()
      modifies rt`live, rt`nextObj, rt`handles, rt`nextHandle
      ensures rt.Valid() && rt.handles == old(rt.handles)
      ensures r.Ok? ==> rt.live == old(rt.live) + {r.value.id}
      ensures r.Fail? ==> rt.live == old(rt.live)
      ensures Survivors(Entries(), OneEntry(Unbound(d)), old(rt.live)).Fail? ==>
        r == Fail(Survivors(Entries(), OneEntry(Unbound(d)), old(rt.live)).error)
      ensures Survivors(Entries(), OneEntry(Unbound(d)), old(rt.live)).Ok? ==>
        && r.Ok? && fresh(r.value) && r.value.delegateType == delegateType
        && r.value.Entries() == Survivors(Entries(), OneEntry(Unbound(d)), old(rt.live)).value
    {
      ghost var expected := Survivors(Entries(), OneEntry(Unbound(d)), rt.live);
      var toRemove := NewBreakout(rt, d, false);
      assert toRemove == Unbound(d);
      var kept := Filter(rt, OneEntry(toRemove));
      assert kept == expected;
      Dispose(rt, toRemove);
      if kept.Fail? {
        return Fail(kept.error);
      }
      var s := FromEntries(rt, delegateType, kept.value);
      r := Ok(s);
    }

    /// `Remove(WeakDelegateSuragate)`: keeps the entries that are alive and
    /// not found (by `Array.IndexOf`) among `other`'s entries. The receiver is unchanged.
    method RemoveSuragate(rt: Runtime, other: WeakDelegateSuragate) returns (r: Result<WeakDelegateSuragate>)
      requires rt.Valid()
      modifies rt`live, rt`nextObj
      ensures rt.Valid()
      ensures r.Ok? ==> rt.live == old(rt.live) + {r.value.id}
      ensures r.Fail? ==> rt.live == old(rt.live)
      ensures Survivors(Entries(), AnyOf(other.Entries()), old(rt.live)).Fail? ==>
        r == Fail(Survivors(Entries(), AnyOf(other.Entries()), old(rt.live)).error)
      ensures Survivors(Entries(), AnyOf(other.Entries()), old(rt.live)).Ok? ==>
        && r.Ok? && fresh(r.value) && r.value.delegateType == delegateType
        && r.value.Entries() == Survivors(Entries(), AnyOf(other.Entries()), old(rt.live)).value
    {
      var toRemove := other.delegates;
      var kept := Filter(rt, AnyOf(toRemove[..]));
      if kept.Fail? {
        return Fail(kept.error);
      }
      var s := FromEntries(rt, delegateType, kept.value);
      r := Ok(s);
    }
  }

  /// `new WeakDelegateSuragate(type, array)` over a freshly sized array that
  /// `CopyTo` fills with `entries`.
  method FromEntries(rt: Runtime, delegateType: string, entries: seq<DelegateBreakout>) returns (s: WeakDelegateSuragate)
    requires rt.Valid()
    modifies rt`live, rt`nextObj
    ensures rt.Valid() && rt.live == old(rt.live) + {s.id} && s.id !in old(rt.live)
    ensures fresh(s) && fresh(s.delegates)
    ensures s.delegateType == delegateType && s.Entries() == entries
  {
    s := new WeakDelegateSuragate.Sized(rt, delegateType, |entries|);
    CopyTo(entries, s.delegates, 0);
    assert s.delegates[..] == entries;
  }

  /// Running `Clean` twice with no collection in between: the first run
  /// leaves only live entries, and the second keeps the same array and
  /// frees nothing.
  method CleanTwice(rt: Runtime, s: WeakDelegateSuragate) returns (afterFirst: array<DelegateBreakout>, afterSecond: array<DelegateBreakout>)
    requires NoEmpty(s.Entries())
    modifies s`delegates, rt`handles
    ensures afterSecond == afterFirst == s.delegates
    ensures s.Entries() == KeepAlive(old(s.Entries()), rt.live)
    ensures AllAlive(s.Entries(), rt.live)
    ensures rt.handles == old(rt.handles) - DeadHandles(old(s.Entries()), rt.live)
  {
    var first := s.Clean(rt);
    afterFirst := s.delegates;
    ghost var handlesAfterFirst := rt.handles;
    ghost var entriesAfterFirst := s.Entries();
    KeepAliveIdempotent(old(s.Entries()), rt.live);
    var second := s.Clean(rt);
    afterSecond := s.delegates;
    KeepAliveOfAllAlive(entriesAfterFirst, rt.live);
    DeadHandlesOfAllAlive(entriesAfterFirst, rt.live);
  }
}
