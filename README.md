# BreezeEventEmitter in Dafny

A model of `BreezeEventEmitter`, an in-process publish/subscribe registry
written in TypeScript. The emitter keeps two pieces of mutable state:

- `eventsCallbacks`, a map from an event id to the ordered list of callbacks
  registered for it with `on`;
- `anyEventCallbacks`, the ordered list of wildcard callbacks registered with
  `onAny`, which observe every event.

`on` appends a callback and returns a disposer, `off` empties the list of one
event, `onAny` appends a wildcard callback, `offAny` empties the wildcard list,
and `emit` calls the callbacks of the event in order and then every wildcard
callback in order.

The project has two modules.

- `EventRegistry` (`registry.dfy`) describes the state as values: a
  `Registry` (`map<EventId, seq<Callback>>`), the wildcard list
  (`seq<AnyCallback>`), and what each operation does to them. It also gives
  the ECMAScript meaning of the two array primitives the disposer uses,
  `findIndex` and `splice`. An emit is described by its trace, the sequence of
  `Call`s it performs: `EventCall(cb, args)` for a per-event callback and
  `AnyCall(w, eventId, args)` for a wildcard one. The lemmas state what the
  operations promise: call order, how often each callback is called, what
  `on`, `off` and the disposer do to later emits, and the exact behaviour of
  the disposer.
- `Emitter` (`emitter.dfy`) is the class `BreezeEventEmitter`. Its two fields
  are reassigned by its methods, each with a `modifies` frame. The methods
  that read or change the event map are proved against the functions of
  `EventRegistry` (`Lookup`, `Register`, `Unregister`, `Dispose`, `Trace`);
  `OnAny` and `OffAny` state the new wildcard list directly. `Emit` walks the
  two lists with two loops, like the source, and is proved to produce
  `EventRegistry.Trace`. It has no `modifies` clause, so it changes nothing.
  The client methods at the end are usage scenarios. They are proved from the
  class contracts and the `EventRegistry` lemmas, never from the method
  bodies. `DisposeTwice` among them shows that the disposer is not
  idempotent.

Callbacks are identities compared with `===` in the source. Here they are
`nat` tokens compared with `==`. Payloads are an opaque `seq<A>`. The closure
that `on` returns is a `Disposer(event, cb)` value, and `Dispose` is the call
of that closure.

### The disposer is not idempotent

The disposer looks up the current list of its event. It finds the first
element identical to its callback and calls `splice(index, 1)`. When the
callback is no longer in the list, `findIndex` returns -1. `splice(-1, 1)`
then removes the last element of the list. One might expect a second call of
a disposer to do nothing. The code instead removes another callback whenever
the list is not empty. The model follows the code.
`EventRegistry.DisposeTwiceIff` states exactly when a second call changes
nothing. `EventRegistry.DisposeTwiceDropsLast` and `Emitter.DisposeTwice` show
the case with c1, c2, c3 registered: disposing c2 twice leaves only c1.

## Model

| member | source | states |
|---|---|---|
| `Emitter.BreezeEventEmitter.constructor` | src/index.ts:3-11 | a new emitter has an empty event map and an empty wildcard list |
| `EventRegistry.Lookup` | src/index.ts:14-22 | the list stored for the event when it has an entry (an empty stored list included), the empty list otherwise |
| `Emitter.BreezeEventEmitter.GetEventCallbacks` | src/index.ts:14-22 | returns `Lookup` of the current event map: the stored list, or the empty list when the event has no entry |
| `EventRegistry.Register` | src/index.ts:25-36 | the event gains an entry holding its old list (empty if absent) with the callback appended; no other key is added and every other event keeps its list |
| `Emitter.BreezeEventEmitter.AddEventCallback` | src/index.ts:25-36 | the event's list becomes its old list (empty if absent) with the callback appended; every other event and the wildcard list are unchanged |
| `Emitter.BreezeEventEmitter.Emit` | src/index.ts:43-52 | the invocations equal `Trace` of the current state: the event's callbacks with the payload in order, then the wildcard callbacks with the event id and payload in order; no `modifies` clause, so the state is unchanged |
| `Emitter.BreezeEventEmitter.On` | src/index.ts:60-64 | registers like `addEventCallback`, leaves the wildcard list alone, and returns the disposer for this event and callback |
| `Emitter.BreezeEventEmitter.Dispose` | src/index.ts:65-70 | the event map becomes `EventRegistry.Dispose` of the old one (findIndex, then splice at that index); the wildcard list is unchanged |
| `EventRegistry.Unregister` | src/index.ts:77-79 | the event gets an entry holding the empty list, even without an earlier entry; no other key is added and every other event keeps its list |
| `Emitter.BreezeEventEmitter.Off` | src/index.ts:77-79 | the event's list becomes empty, even without an earlier entry; other events and the wildcard list are unchanged |
| `Emitter.BreezeEventEmitter.OnAny` | src/index.ts:85-89 | the wildcard list gets the callback appended; the event map is unchanged |
| `Emitter.BreezeEventEmitter.OffAny` | src/index.ts:95-97 | the wildcard list becomes empty; the event map is unchanged |
| `EventRegistry.FindIndex` | src/index.ts:68 | the result is -1 exactly when the callback is absent; otherwise it is an index holding the callback with no earlier occurrence |
| `EventRegistry.Splice` | src/index.ts:69 | `splice(i, 1)` with 0 <= i < length removes element i; `splice(-1, 1)` on a non-empty list removes the last element; an empty list stays empty; any start in [-length, length) shortens the list by one |
| `EventRegistry.RemoveFirst` | src/index.ts:65-69 | reference for "remove the first occurrence": one element shorter when the callback is present, unchanged otherwise |
| `EventRegistry.RemoveFirstMultiset` | src/index.ts:65-69 | removing the first occurrence takes exactly one copy of the callback out of the list |
| `EventRegistry.SpliceAtFindIndex` | src/index.ts:68-69 | when the callback is present, splicing at the index `findIndex` returns removes its first occurrence and keeps the rest in order |
| `EventRegistry.Dispose` | src/index.ts:65-70 | the disposer adds or removes no key; the event's list loses one element when it is non-empty and stays empty otherwise; every other event keeps its list |
| `EventRegistry.DisposeCases` | src/index.ts:65-70 | no entry: nothing changes; callback present: its first occurrence goes and the list shrinks by one; callback absent from a non-empty list: the last element goes; empty list: nothing changes; other events are never touched |
| `EventRegistry.DisposeTwiceIff` | src/index.ts:65-70 | a second call of the same disposer changes nothing if and only if the first call left no entry or an empty list |
| `EventRegistry.DisposeMiddle` | src/index.ts:65-70 | with c1, c2, c3 registered, disposing c2 leaves c1, c3, for any three callbacks, equal or not |
| `EventRegistry.DisposeTwiceDropsLast` | src/index.ts:65-70 | with c1, c2, c3 registered and c1 distinct from c2, disposing c2 twice leaves only c1 |
| `EventRegistry.DisposeSilencesOneRegistration` | src/index.ts:65-70 | while the registration is present, its disposer takes exactly one invocation of that callback out of later emits and no invocation of any other callback |
| `EventRegistry.EventCalls` | src/index.ts:44-47 | one call per registered callback, in registration order, each with the payload |
| `EventRegistry.AnyCalls` | src/index.ts:49-51 | one call per wildcard callback, in registration order, each with the event id and the payload |
| `EventRegistry.Trace` | src/index.ts:43-52 | an emit has one call per callback of the event, then one per wildcard callback; position i holds the i-th callback of the event, and position n + j the j-th wildcard callback |
| `EventRegistry.TraceOrder` | src/index.ts:43-52 | no per-event call comes after a wildcard call |
| `EventRegistry.TraceCounts` | src/index.ts:43-52 | a callback registered k times for the event is called k times with the payload; a wildcard callback registered k times is called k times with the event id and the payload |
| `EventRegistry.EmitNothingRegistered` | src/index.ts:14-22 | with no list or an empty list for the event and no wildcard callback, emit calls nothing |
| `EventRegistry.RegisterThenTrace` | src/index.ts:25-36 | after `on(e, c)`, emitting `e` calls what it called before and then `c`, ahead of the wildcard callbacks; other events' emits are unchanged |
| `EventRegistry.UnregisterThenTrace` | src/index.ts:77-79 | after `off(e)`, emitting `e` calls only the wildcard callbacks; other events' emits are unchanged |
| `Emitter.SubscribedThreeTimes` | test/BreezeEventsEmitter.test.ts:85-95 | a callback registered three times is called three times |
| `Emitter.DisposeParticularSubscription` | test/BreezeEventsEmitter.test.ts:127-140 | with c1, c2, c3 registered, after disposing c2 an emit calls c1 then c3, whether or not the callbacks are distinct |
| `Emitter.DisposeTwice` | src/index.ts:65-70 | with c1, c2, c3 registered and c1 distinct from c2, calling the disposer of c2 twice leaves only c1 to be called |
| `Emitter.OffKeepsOthers` | src/index.ts:77-79 | after `off(e)` the callback of `e` is silent (the case test/BreezeEventsEmitter.test.ts:109-116 checks), while the wildcard callback still fires on `e` and the callbacks of another event still fire, because `off` only replaces the entry of `e` |
| `Emitter.OffAnyKeepsEventCallbacks` | src/index.ts:95-97 | after `offAny` the wildcard callback is silent (the case test/BreezeEventsEmitter.test.ts:118-125 checks), while the event's own callback still fires, because `offAny` only empties the wildcard list |

## Left out

- Callbacks are not run. `Emit` returns the trace of the calls it would make. Side effects of callbacks are outside the model, and so are exceptions they throw, which in the source abort the rest of the dispatch.
- Emitter.BreezeEventEmitter.Emit: assumes that callbacks do not touch the emitter. The source iterates the live arrays, so a callback that registers or disposes during an emit changes what that emit visits. That re-entrant behaviour is not modelled.
- The lists are `seq` values held in the map, not shared JavaScript arrays. In the source, `getEventCallbacks` returns the live array, so a caller holding it sees later in-place changes. Without re-entrant callbacks nothing in the library observes this aliasing.
- Emitter.BreezeEventEmitter.OnAny, Emitter.BreezeEventEmitter.OffAny: the source changes the one wildcard array in place (`push` at src/index.ts:88, `length = 0` at src/index.ts:96), while the model assigns a new `seq` to `anyEventCallbacks`. Only a callback that re-enters the emitter during an emit, or a holder of the old array, could observe the difference; neither is modelled.
- The closure returned by `on` is replaced by a `Disposer(event, cb)` value. The value holds what the closure captures, so `Dispose` behaves like a call of the closure.
- The type-level mapping from event id to payload types is left out. It has no effect at run time, so payloads are an opaque `seq<A>` and event ids are strings.
- `splice` is modelled for integer arguments only. `findIndex` always passes an integer in the range [-1, length).
