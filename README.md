# Weak delegates: a Dafny model of the combination engine

This project models the core of `WeakDelegates`, a .NET library that combines
delegates without keeping their targets alive. `WeakDelegate.Combine(a, b)`
returns a freshly generated composite delegate. Behind it sits a
`WeakDelegateSuragate`: an ordered array of `DelegateBreakout` entries, and
array order is call order.

- A **bound** entry stores the method and a dependent handle on the target
  instance.
- An **unbound** entry stores a weak reference to the delegate itself.
- On every call the composite looks up its surrogate in a global table. It
  then calls the callables of the entries that still resolve.
- When a target dies, the surrogate compacts itself (`Clean`).
- A second table pins the result surrogate under the targets of `Combine`'s
  own two arguments. While such a target is alive, the surrogate stays
  reachable. The composite table holds surrogates only through weak
  references.

Garbage collection is abstracted as a set of live object identities, `live`,
on a `Runtime` object. The set grows only through allocation and shrinks only
through `Collect`. "The weak reference resolves" means "the object is in
`live`". Dependent handles are a set of allocated handle numbers.

C# exceptions become `Fail(error)` values of a `Result` datatype. Three
behaviours of the code matter here:

- The default (all-null) `DelegateBreakout` struct is modelled as `Empty`.
  `Alive`, `TryGetDelegate` and `Equals` on it throw `NullReferenceException`.
- `Equals` casts its field to a weak delegate reference whenever the
  method-text test fails. That cast throws `InvalidCastException` on a bound
  entry.
- Both `Remove` overloads compare every entry in this way. `Remove(Delegate)`
  therefore throws as soon as the surrogate holds a bound entry.

Files:

- `host.dfy` (module `Host`): object, handle and method identities, delegates,
  `Result`, and the `Runtime` (live set, handles, allocation, collection).
- `delegate_breakout.dfy` (module `DelegateBreakouts`): the entry as a
  datatype, its queries as functions, and its constructor and `Dispose` as
  methods on the runtime.
- `weak_delegate_suragate.dfy` (module `Suragates`): the surrogate as a class
  with a mutable `delegates` array. Its loops are proved against specification
  functions on sequences: `KeepAlive`, `Resolved`, `Survivors` and `Kept`. The
  properties are proved as lemmas about those functions.
- `weak_delegate.dfy` (module `WeakDelegates`): `CheckIsDelegate`, the
  surrogate-selection ladder as a function, and the two global tables as a
  `Registry` class. The class holds `Combine`, the composite's call,
  `Remove`, and the collection and compaction events.

## Behaviours of the code a caller may not expect

The model follows the code, including these behaviours, each shown by a lemma
or contract:

- `TryGetDelegate` is documented to return whether the delegate is still alive
  (`WeakDelegates/DelegateBreakout.cs:79`). On a default entry it throws a
  null reference instead (`DelegateBreakouts.TryGetDelegate`).
- `Add(Delegate)` copies the receiver into a surrogate one slot longer. It
  then writes the new entry into the receiver's own last slot, overwriting the
  entry there (`WeakDelegates.Standard/WeakDelegateSuragate.cs:36-38`). The
  returned surrogate ends with a default entry, and on an empty receiver the
  write throws (`Suragates.WeakDelegateSuragate.AddDelegate`). `Combine`'s
  ladder never reaches this overload (`WeakDelegates.LadderSkipsAddDelegate`).
- `Equals` is documented to say whether two entries are equal
  (`WeakDelegates/DelegateBreakout.cs:58-62`). It throws an invalid cast when
  the receiver is bound and the method texts differ or the other entry is not
  bound. It also throws an invalid cast when the receiver is a live unbound
  entry and the other is bound. A default receiver throws a null reference, and
  so does a default other entry when the receiver is a live unbound entry
  (`DelegateBreakout.cs:67-71`, `DelegateBreakouts.EqualsFailsExactly`). Two
  bound entries with the same method text are equal whatever their targets
  (`DelegateBreakouts.BoundEqualityIgnoresTarget`). Two unbound entries
  compare with the delegate `==` operator: type, method and target
  (`DelegateBreakouts.UnboundEquality`). An unbound entry whose delegate was
  collected is not equal to itself (`DelegateBreakouts.DeadUnboundNotReflexive`).
- `Remove(Delegate)` compares every entry against an unbound entry
  (`WeakDelegateSuragate.cs:106,113`). It therefore throws as soon as the
  surrogate holds a bound entry (`Suragates.RemoveDelegateThrowsOnBound`).
  Both overloads drop every matching entry, not only one.
- `WeakDelegate.Remove` returns null on every path that does not throw
  (`WeakDelegates/WeakDelegate.cs:362-381`, `WeakDelegates.Registry.Remove`).
- The pin table holds one surrogate per target. Pinning a target that is
  already a key, or the same target for both arguments, throws
  `ArgumentException`. Registration and any earlier pin stay in place
  (`WeakDelegate.cs:350-358`, `WeakDelegates.Registry.PinTargets`).
- Only the direct targets of `Combine`'s two arguments are pinned. A composite
  delegate has no target (`WeakDelegate.cs:306`). So a surrogate built from
  two composites (join or clone rung), or from static delegates, is pinned by
  nothing (`WeakDelegates.TargetlessArgumentsPinNothing`). It can be collected
  while the targets of its entries are alive. Its composite then finds no
  holder and calls nothing (`WeakDelegates.Registry.UnpinnedHolderCanVanish`,
  `WeakDelegates.Registry.Invoke`).
- The pair rung turns a composite argument into an unbound entry that holds
  it weakly (`DelegateBreakout.cs:42`). So `Combine(Combine(a, b), c)` built
  by that rung loses `a` and `b` once the caller drops the inner composite
  (`WeakDelegates.NestedCompositeIsWeak`).

## Model

| member | source | states |
|---|---|---|
| DelegateBreakouts.Breakout | WeakDelegates/DelegateBreakout.cs:32-45 | the entry is bound exactly when the delegate has a target and a collection callback is supplied; a bound entry keeps the method and the target, an unbound one the delegate; the text is the method's text |
| DelegateBreakouts.NewBreakout | WeakDelegates/DelegateBreakout.cs:32-45 | the constructor allocates a fresh dependent handle only for a bound entry |
| DelegateBreakouts.Dispose | WeakDelegates/DelegateBreakout.cs:50-56 | a bound entry's handle is freed; an unbound entry changes nothing |
| DelegateBreakouts.Alive | WeakDelegates/DelegateBreakout.cs:136-156 | throws a null reference exactly for the default entry; otherwise a bound entry is alive iff its target is, an unbound one iff its delegate is |
| DelegateBreakouts.TryGetDelegate | WeakDelegates/DelegateBreakout.cs:80-100 | throws exactly when `Alive` throws; a default entry throws a null reference; yields a callable exactly when `Alive` is true: for a bound entry the stored method re-bound to its target with the requested type, for an unbound entry the held delegate itself |
| DelegateBreakouts.Equals | WeakDelegates/DelegateBreakout.cs:63-72 | true exactly for bound entries with the same method text or two live unbound entries whose delegates compare `==`; false exactly for a dead unbound receiver or two unbound entries that do not match; it throws in every other case |
| DelegateBreakouts.ToString | WeakDelegates/DelegateBreakout.cs:130 | null only for the default entry; otherwise the captured method text, which `Breakout` shows is the constructing delegate's (line 34) |
| DelegateBreakouts.NotEquals | WeakDelegates/DelegateBreakout.cs:102-104 | `!=` throws exactly when `==` does and otherwise is its negation |
| DelegateBreakouts.BoundEqualityIgnoresTarget | WeakDelegates/DelegateBreakout.cs:63-70 | two bound entries with the same method text are equal whatever their targets and handles |
| DelegateBreakouts.UnboundEquality | WeakDelegates/DelegateBreakout.cs:71 | two unbound entries are equal iff both delegates are alive and compare `==`, and the comparison never throws |
| DelegateBreakouts.EqualsFailsExactly | WeakDelegates/DelegateBreakout.cs:63-72 | the comparison throws exactly for a default receiver, a bound receiver whose text does not match a bound argument, or a live unbound receiver against a non-unbound argument; it throws an invalid cast exactly in the bound cases, and a null reference exactly for a default receiver or a default argument of a live unbound receiver |
| DelegateBreakouts.EqualsIsAsymmetric | WeakDelegates/DelegateBreakout.cs:63-72 | bound against dead unbound throws, while dead unbound against bound answers false |
| DelegateBreakouts.DeadUnboundNotReflexive | WeakDelegates/DelegateBreakout.cs:71 | an unbound entry whose delegate died is not equal to itself |
| DelegateBreakouts.NoCallbackMeansUnbound | WeakDelegates/DelegateBreakout.cs:35-44 | with no collection callback the entry is unbound and owns no handle |
| Suragates.FirstEmpty | WeakDelegates.Standard/WeakDelegateSuragate.cs:69-72 | the index where a sweep over the entries first meets a default entry: that entry is default and none before it is |
| Suragates.FirstEmptyIsFirst | WeakDelegates.Standard/WeakDelegateSuragate.cs:69-72 | a default entry with none before it is the first one |
| Suragates.KeepAlive | WeakDelegates.Standard/WeakDelegateSuragate.cs:63-86 | the compacted entries are no more than the original ones and all alive |
| Suragates.KeepAliveAppend | WeakDelegates.Standard/WeakDelegateSuragate.cs:69-80 | compaction distributes over concatenation |
| Suragates.KeepAliveOfAllAlive | WeakDelegates.Standard/WeakDelegateSuragate.cs:81-84 | compacting entries that are all alive returns them unchanged |
| Suragates.KeepAliveIdempotent | WeakDelegates.Standard/WeakDelegateSuragate.cs:63-86 | compacting twice equals compacting once |
| Suragates.KeepAliveFull | WeakDelegates.Standard/WeakDelegateSuragate.cs:81 | the live count equals the length exactly when every entry is alive (the test that decides the array swap) |
| Suragates.KeepAliveLater | WeakDelegates.Standard/WeakDelegateSuragate.cs:63-86 | a compaction followed by later deaths leaves the same entries as compacting once against the later live set |
| Suragates.DeadHandlesOfAllAlive | WeakDelegates.Standard/WeakDelegateSuragate.cs:76-79 | when every entry is alive no handle is disposed |
| Suragates.NoEmptyAppend | WeakDelegates.Standard/WeakDelegateSuragate.cs:49-55 | joining two surrogates without default entries gives one without |
| Suragates.AllAliveNoEmpty | WeakDelegates/DelegateBreakout.cs:136-156 | a live entry is never the default one |
| Suragates.ResolvedAppend | WeakDelegates.Standard/WeakDelegateSuragate.cs:88-102 | the invocation list of a concatenation is the concatenation of the invocation lists |
| Suragates.ResolvedIsLiveEntries | WeakDelegates.Standard/WeakDelegateSuragate.cs:88-102 | the invocation list has one callable per live entry, in array order, each resolved from that entry |
| Suragates.DeadTargetNeverCalled | WeakDelegates.Standard/WeakDelegateSuragate.cs:92-99 | every callable in the invocation list has a live target or is a live delegate |
| Suragates.ResolvedAfterCompaction | WeakDelegates.Standard/WeakDelegateSuragate.cs:63-102 | compaction never changes what the surrogate calls, at the time of compaction or after later deaths |
| Suragates.IndexOf | WeakDelegates.Standard/WeakDelegateSuragate.cs:132 | `Array.IndexOf` returns -1 or an index whose element equals the value, no element before it (or none at all for -1) being equal; it throws exactly when some comparison throws after only unequal ones, so with no match and no throw it returns -1 |
| Suragates.Survivors | WeakDelegates.Standard/WeakDelegateSuragate.cs:104-140 | a completed removal loop keeps no more entries than it read, and every kept entry passed the removal test and is alive |
| Suragates.SurvivorsFailureStays | WeakDelegates.Standard/WeakDelegateSuragate.cs:110-117 | once the loop has thrown on a prefix, the whole removal throws the same exception |
| Suragates.SurvivorsFailsIff | WeakDelegates.Standard/WeakDelegateSuragate.cs:110-136 | the removal throws exactly when the test throws on some entry |
| Suragates.SurvivorsAreKept | WeakDelegates.Standard/WeakDelegateSuragate.cs:104-140 | a removal that completes returns exactly the reference filter of admitted entries, in order |
| Suragates.AnyOfAdmitsExactlyUnmatched | WeakDelegates.Standard/WeakDelegateSuragate.cs:132 | `Remove(other)` keeps an entry exactly when it is alive and every entry of `other` compares unequal to it without throwing |
| Suragates.KeptMembership | WeakDelegates.Standard/WeakDelegateSuragate.cs:104-140 | an entry is in the result exactly when it is in the receiver, is not matched, and is alive |
| Suragates.RemoveDelegateThrowsOnBound | WeakDelegates.Standard/WeakDelegateSuragate.cs:106-113 | on constructed entries, `Remove(Delegate)` throws exactly when some entry is bound, because the removal entry is unbound |
| Suragates.RemoveUnmatchedKeepsLive | WeakDelegates.Standard/WeakDelegateSuragate.cs:104-122 | removing a delegate that matches no (all unbound) entry returns exactly the live entries |
| Suragates.BoundIndexOfStopsAtHead | WeakDelegates.Standard/WeakDelegateSuragate.cs:132 | looking up a bound entry among bound entries matches the first one by text or throws on it |
| Suragates.CopyTo | WeakDelegates.Standard/WeakDelegateSuragate.cs:52-53 | `CopyTo` writes the source into the destination at the offset and leaves the rest as it was |
| Suragates.WeakDelegateSuragate.Single | WeakDelegates.Standard/WeakDelegateSuragate.cs:12-18 | one entry built with a collection callback, and the delegate's type |
| Suragates.WeakDelegateSuragate.Pair | WeakDelegates.Standard/WeakDelegateSuragate.cs:20-26 | two entries in argument order, each built with a collection callback, and the first delegate's type; the new handles are exactly those of the two entries |
| Suragates.WeakDelegateSuragate.Sized | WeakDelegates.Standard/WeakDelegateSuragate.cs:57-61 | a fresh array of default entries of the given length |
| Suragates.WeakDelegateSuragate.AddDelegate | WeakDelegates.Standard/WeakDelegateSuragate.cs:34-40 | the result is the receiver's old entries plus one default entry; the receiver's last slot is replaced by the new entry; an empty receiver throws an index error; either way one surrogate object and the new entry's handle are allocated |
| Suragates.WeakDelegateSuragate.Clone | WeakDelegates.Standard/WeakDelegateSuragate.cs:42-47 | a fresh surrogate with the same entries and type; the receiver is unchanged |
| Suragates.WeakDelegateSuragate.AddSuragate | WeakDelegates.Standard/WeakDelegateSuragate.cs:49-55 | a fresh surrogate whose entries are the receiver's followed by the other's; neither changes |
| Suragates.WeakDelegateSuragate.Clean | WeakDelegates.Standard/WeakDelegateSuragate.cs:63-86 | the entries become the live ones in order, exactly the dead entries' handles are freed, and the array is replaced iff some entry died; a default entry throws after the dead entries before it were disposed |
| Suragates.WeakDelegateSuragate.GetInvocationList | WeakDelegates.Standard/WeakDelegateSuragate.cs:88-102 | without changing anything, returns the resolved callables of the live entries in order, null when there are none, and throws on a default entry |
| Suragates.WeakDelegateSuragate.Filter | WeakDelegates.Standard/WeakDelegateSuragate.cs:108-136 | the removal loop returns exactly the specification's survivors, or the exception it meets |
| Suragates.WeakDelegateSuragate.RemoveDelegate | WeakDelegates.Standard/WeakDelegateSuragate.cs:104-122 | a fresh surrogate holding the survivors against an unbound entry for the delegate, or the loop's exception; the handle set is unchanged, and only the new surrogate joins the live set |
| Suragates.WeakDelegateSuragate.RemoveSuragate | WeakDelegates.Standard/WeakDelegateSuragate.cs:124-140 | a fresh surrogate holding the live entries not found in the other's array, or the loop's exception; only the new surrogate joins the live set |
| Suragates.FromEntries | WeakDelegates.Standard/WeakDelegateSuragate.cs:137-138 | sizing a new surrogate and copying the list into it gives exactly the list |
| Suragates.CleanTwice | WeakDelegates.Standard/WeakDelegateSuragate.cs:81-84 | a second `Clean` with no new deaths keeps the same array and frees nothing more |
| WeakDelegates.CheckIsDelegate | WeakDelegates/WeakDelegate.cs:383-389 | passes exactly for a type strictly derived from `Delegate`, otherwise throws an invalid operation |
| WeakDelegates.SelectBuild | WeakDelegates/WeakDelegate.cs:317-349 | the join rung fires exactly when both surrogates exist, the pair rung exactly when both delegates do and not both surrogates; a clone or add rung uses only a surrogate that exists, and a single rung fires only when neither does |
| WeakDelegates.LadderSkipsAddDelegate | WeakDelegates/WeakDelegate.cs:307-349 | when a surrogate exists only for a non-null argument, the two `Add(Delegate)` rungs never fire and the ladder picks join, pair, clone or single as intended |
| WeakDelegates.CombinedEntries | WeakDelegates/WeakDelegate.cs:317-349 | with at least one argument and surrogates only for present arguments, the ladder builds a surrogate |
| WeakDelegates.CombineJoins | WeakDelegates/WeakDelegate.cs:318-321 | both arguments registered: a's entries followed by b's |
| WeakDelegates.CombinePairs | WeakDelegates/WeakDelegate.cs:322-325 | both arguments present but not both registered: the pair `[a, b]` |
| WeakDelegates.CombineOne | WeakDelegates/WeakDelegate.cs:334-349 | one argument: its surrogate's entries if it has one, else a single entry for it |
| WeakDelegates.CombinedEntriesNoEmpty | WeakDelegates/WeakDelegate.cs:317-349 | the ladder never produces a default entry from surrogates without one |
| WeakDelegates.Pinned | WeakDelegates/WeakDelegate.cs:351-358 | pinning keeps every existing pin and adds only `a`'s or `b`'s target, mapped to the new surrogate; the new keys are exactly `a`'s target unless it is already a key, and `b`'s target unless pinning `a` or `b` clashes (pinning stops at the first clash) |
| WeakDelegates.TargetlessArgumentsPinNothing | WeakDelegates/WeakDelegate.cs:351-358 | arguments without a target (composites, static delegates) add no pin and never clash |
| WeakDelegates.NestedCompositeIsWeak | WeakDelegates/DelegateBreakout.cs:35-44 | a composite argument becomes an unbound entry, which resolves to nothing once the composite is collected |
| WeakDelegates.Registry.constructor | WeakDelegates/WeakDelegate.cs:16-17 | both tables start empty, and the registry invariant holds |
| WeakDelegates.Registry.GetCombinedHolder | WeakDelegates/WeakDelegate.cs:257-266 | the registered surrogate when the method is registered and the surrogate is still alive, otherwise null |
| WeakDelegates.Registry.PinnedHolderResolves | WeakDelegates/WeakDelegate.cs:257-266 | a surrogate pinned by a target is always found by the lookup |
| WeakDelegates.Registry.Combine | WeakDelegates/WeakDelegate.cs:268-360 | both null throws an argument error and a non-delegate type an invalid operation, with nothing changed; otherwise a fresh composite method is registered to a fresh surrogate built by the ladder, the targets are pinned, and a target already pinned throws an argument error; exactly the composite and the surrogate join the live set and no handle is freed; the registry invariant is kept |
| WeakDelegates.Registry.BuildSuragate | WeakDelegates/WeakDelegate.cs:307-349 | the surrogate built from the looked-up holders has the ladder's entries and no default entry; it is the only new live object and no handle is freed |
| WeakDelegates.Registry.Register | WeakDelegates/WeakDelegate.cs:350 | the fresh composite method is mapped to the surrogate, keeping the invariant |
| WeakDelegates.Registry.PinTargets | WeakDelegates/WeakDelegate.cs:351-359 | the pin table becomes `Pinned`; a clash on `a`'s or `b`'s target throws an argument error, otherwise the composite is returned |
| WeakDelegates.Registry.Invoke | WeakDelegates/WeakDelegate.cs:282-305 | calling a composite never throws under the invariant: nothing is called when no holder resolves, otherwise the holder's live invocation list is called |
| WeakDelegates.Registry.Alert | WeakDelegates/GarbageAlerter.cs:1-19 | the collection callback compacts a registered surrogate to its live entries, frees exactly the dead entries' handles, and keeps the invariant |
| WeakDelegates.Registry.UnpinnedHolderCanVanish | WeakDelegates/WeakDelegate.cs:257-266 | a registered surrogate held by no pin may be collected, after which the lookup for its composite finds nothing |
| WeakDelegates.Registry.Collect | WeakDelegates/WeakDelegate.cs:16-17 | a collection that spares pinned surrogates of live keys keeps the invariant and drops exactly the pins whose key died |
| WeakDelegates.Registry.Remove | WeakDelegates/WeakDelegate.cs:362-381 | a non-delegate type throws an invalid operation; a null value throws a null reference exactly when the source has a holder; every other path returns null |

## Left out

- The IL trampoline that `Combine` generates (`DynamicMethod`, `ILGenerator`). The composite is a fresh delegate whose method is a fresh `MethodInfo`. Its body is modelled by `Registry.Invoke`, and the method's text is a parameter of `Combine`. The argument forwarding and return values of the call are not modelled. The model assumes the emission succeeds. As written, it looks up `GetInvocationList` with non-public binding flags (`WeakDelegates/WeakDelegate.cs:287`), although the method is public (`WeakDelegates.Standard/WeakDelegateSuragate.cs:88`), so the lookup returns null. `il.Emit(OpCodes.Call, null)` then throws `ArgumentNullException`, so as written every `Combine` that passes the argument checks throws before it registers anything. `Registry.Combine` models the evidently intended behaviour, in which the emitted call succeeds.
- `DependentHandle` and its foreign calls. A handle is a number in `Runtime.handles`, and its primary resolves iff the target is in `live`. Reading a handle after it was freed is not modelled. `Dispose` frees a copy of the nullable struct (`WeakDelegates/DelegateBreakout.cs:54`), so the stored handle is never cleared. Joined and cloned surrogates share the creator's handles, which the creator's `Clean` frees. The model frees a handle number from a set, and the entries of other surrogates that share it are not affected.
- `GarbageAlerter`, its finalizer and `Task.Run`. `Registry.Alert` models the callback as a `Clean` of a registered surrogate at any time. The model does not record which surrogate an entry's callback belongs to, so entries copied into a joined surrogate still compacting their original one is not modelled.
- The `lock` and `Interlocked.Exchange` in `Clean`: each operation is one atomic step, and concurrent interleavings are not modelled. This assumption is what keeps default entries out of registered surrogates. `Clone` and `Add(WeakDelegateSuragate)` read `delegates` more than once (`WeakDelegates.Standard/WeakDelegateSuragate.cs:44-45,51-53`). A `Clean` running in between would leave default entries in the result. `Registry.Valid`'s no-default-entry clause and `Registry.Invoke`'s never-throws promise do not cover that case.
- `MethodInfo.CreateDelegate` and `Delegate.Combine`: a resolved entry becomes a `Callable` value, and combining is concatenation of callable lists. Multicast delegates as inputs to `Combine` are not modelled (every argument is single-cast), and neither is `Delegate.Combine`'s type check.
- The weakness of the composite-method table's keys: registered methods are never dropped. The model records that the table holds its surrogates only weakly; in the model, pins alone keep them alive.
- Registry.Combine: requires that the arguments' delegates and targets are alive (`Held`). The caller holds them during the call, so this is a fact about the runtime, not a check the code makes.
- The second path that keeps a surrogate alive: each bound entry's dependent handle holds a `GarbageAlerter` whose callback is the creating surrogate's `Clean` (`WeakDelegates/DelegateBreakout.cs:38`, `WeakDelegates.Standard/WeakDelegateSuragate.cs:16,24`), so that surrogate lives while the entry's target does. `Registry.CollectAllowed` does not model this path. Every single or pair surrogate built from delegates with targets is also pinned under those same targets, so the pins already cover it.
- The comparison order inside `Array.IndexOf`: the model has the default equality comparer call `Equals` on the array element, with the searched value as the argument. This is a fact about the .NET runtime, not about the cited lines, and the order matters because `Equals` throws for some orders and not others (`DelegateBreakouts.EqualsIsAsymmetric`).
- Registry.Collect: requires that a pinned surrogate with a live key is not collected. This is the reachability guarantee of `ConditionalWeakTable`, which the model assumes as the collector's behaviour.
- A non-delegate `T` argument of `Combine` and `Remove`: only whether it is null is modelled, because every later step needs a delegate.
- The older nested copies of the entry and surrogate inside `WeakDelegates/WeakDelegate.cs` (lines 95-253). `Combine` is modelled over the stand-alone classes.
- `GetHashCode` and `Equals(object)`: they hash and test runtime identity and type, which the model does not represent.
- `WeakTest/Program.cs`, the console sample.
