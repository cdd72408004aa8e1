/**
  The BreezeEventEmitter class: a registry of per-event callbacks and a list
  of wildcard callbacks, both updated in place, with `emit` walking the two
  lists in order. The methods that read or change the event map are proved
  against the functions of EventRegistry; the wildcard list is a plain
  sequence whose new value each method states directly.
 */
module Emitter {
  import opened EventRegistry

  /** The handle `on` returns. Calling it (see `Dispose`) unregisters one
      registration of `cb` under `event`. */
  datatype Disposer = Disposer(event: EventId, cb: Callback)

  class BreezeEventEmitter {
    /** Event id to the callbacks registered for it, in registration order. */
    var eventsCallbacks: Registry
    /** Callbacks that observe every event, in registration order. */
    var anyEventCallbacks: seq<AnyCallback>

    /** A new emitter has no callbacks at all. */
    constructor ()
      ensures eventsCallbacks == map[] && anyEventCallbacks == []
    {
      eventsCallbacks := map[];
      anyEventCallbacks := [];
    }

    /** The callbacks registered for `e`, or none when `e` has no entry. */
    method GetEventCallbacks(e: EventId) returns (cbs: seq<Callback>)
      ensures cbs == Lookup(eventsCallbacks, e)
    {
      if e in eventsCallbacks {
        cbs := eventsCallbacks[e];
      } else {
        cbs := [];
      }
    }

    /** Appends `c` to the callbacks of `e`, creating the list first when `e`
        has no entry. */
    method AddEventCallback(e: EventId, c: Callback)
      modifies this
      ensures eventsCallbacks == Register(old(eventsCallbacks), e, c)
      ensures e in eventsCallbacks && eventsCallbacks[e] == Lookup(old(eventsCallbacks), e) + [c]
      ensures forall e' :: e' != e ==> Lookup(eventsCallbacks, e') == Lookup(old(eventsCallbacks), e')
      ensures anyEventCallbacks == old(anyEventCallbacks)
    {
      if e !in eventsCallbacks {
        eventsCallbacks := eventsCallbacks[e := []];
      }
      var cbs := eventsCallbacks[e];
      eventsCallbacks := eventsCallbacks[e := cbs + [c]];
    }

    /** Invokes the callbacks of `e` with `args` in registration order, then
        every wildcard callback with `e` and `args` in registration order, and
        returns the invocations made. It changes nothing: there is no
        `modifies` clause. */
    method Emit<A>(e: EventId, args: seq<A>) returns (trace: seq<Call<A>>)
      ensures trace == Trace(eventsCallbacks, anyEventCallbacks, e, args)
    {
      var cbs := GetEventCallbacks(e);
      trace := [];
      for i := 0 to |cbs|
        invariant |trace| == i
        invariant forall k :: 0 <= k < i ==> trace[k] == EventCall(cbs[k], args)
      {
        trace := trace + [EventCall(cbs[i], args)];
      }
      for j := 0 to |anyEventCallbacks|
        invariant |trace| == |cbs| + j
        invariant forall k :: 0 <= k < |cbs| ==> trace[k] == EventCall(cbs[k], args)
        invariant forall k :: 0 <= k < j ==> trace[|cbs| + k] == AnyCall(anyEventCallbacks[k], e, args)
      {
        trace := trace + [AnyCall(anyEventCallbacks[j], e, args)];
      }
      var expected := Trace(eventsCallbacks, anyEventCallbacks, e, args);
      forall k | 0 <= k < |trace| ensures trace[k] == expected[k] {
        if k >= |cbs| {
          assert trace[|cbs| + (k - |cbs|)] == expected[|cbs| + (k - |cbs|)];
        }
      }
    }

    /** Registers `c` for `e` and returns the handle that unregisters it. */
    method On(e: EventId, c: Callback) returns (d: Disposer)
      modifies this
      ensures d == Disposer(e, c)
      ensures eventsCallbacks == Register(old(eventsCallbacks), e, c)
      ensures anyEventCallbacks == old(anyEventCallbacks)
    {
      AddEventCallback(e, c);
      d := Disposer(e, c);
    }

    /** The disposer returned by `On`: finds `d.cb` in the CURRENT list of
        `d.event` and splices at that index. When `d.cb` is no longer there the
        index is -1 and the last callback of the list is removed instead. */
    method Dispose(d: Disposer)
      modifies this
      ensures eventsCallbacks == EventRegistry.Dispose(old(eventsCallbacks), d.event, d.cb)
      ensures anyEventCallbacks == old(anyEventCallbacks)
    {
      if d.event !in eventsCallbacks {
        return;
      }
      var callbacks := eventsCallbacks[d.event];
      var cbIndex := FindIndex(callbacks, d.cb);
      eventsCallbacks := eventsCallbacks[d.event := Splice(callbacks, cbIndex, 1)];
    }

    /** Replaces the callbacks of `e` by an empty list, whether or not `e` had
        an entry. */
    method Off(e: EventId)
      modifies this
      ensures eventsCallbacks == Unregister(old(eventsCallbacks), e)
      ensures e in eventsCallbacks && eventsCallbacks[e] == []
      ensures forall e' :: e' != e ==> Lookup(eventsCallbacks, e') == Lookup(old(eventsCallbacks), e')
      ensures anyEventCallbacks == old(anyEventCallbacks)
    {
      eventsCallbacks := eventsCallbacks[e := []];
    }

    /** Appends `w` to the wildcard callbacks. */
    method OnAny(w: AnyCallback)
      modifies this
      ensures anyEventCallbacks == old(anyEventCallbacks) + [w]
      ensures eventsCallbacks == old(eventsCallbacks)
    {
      anyEventCallbacks := anyEventCallbacks + [w];
    }

    /** Empties the wildcard callbacks. */
    method OffAny()
      modifies this
      ensures anyEventCallbacks == []
      ensures eventsCallbacks == old(eventsCallbacks)
    {
      anyEventCallbacks := [];
    }
  }

  // ---------------------------------------------------------------------------
  // Clients: usage scenarios proved from the class contracts and the
  // EventRegistry lemmas, never from the method bodies. DisposeTwice shows
  // that the disposer is not idempotent.
  // ---------------------------------------------------------------------------

  /** A callback registered three times is invoked three times. */
  method SubscribedThreeTimes<A>(e: EventId, c: Callback, args: seq<A>) returns (trace: seq<Call<A>>)
    ensures trace == [EventCall(c, args), EventCall(c, args), EventCall(c, args)]
  {
    var emitter := new BreezeEventEmitter();
    var _ := emitter.On(e, c);
    var _ := emitter.On(e, c);
    var _ := emitter.On(e, c);
    trace := emitter.Emit(e, args);
  }

  /** With c1, c2, c3 registered, disposing c2 leaves c1 and c3 invoked, in
      that order, whether or not the callbacks are distinct. */
  method DisposeParticularSubscription<A>(e: EventId, c1: Callback, c2: Callback, c3: Callback, args: seq<A>)
    returns (trace: seq<Call<A>>)
    ensures trace == [EventCall(c1, args), EventCall(c3, args)]
  {
    var emitter := new BreezeEventEmitter();
    var _ := emitter.On(e, c1);
    var disposer := emitter.On(e, c2);
    var _ := emitter.On(e, c3);
    DisposeMiddle(emitter.eventsCallbacks, e, c1, c2, c3);
    emitter.Dispose(disposer);
    ghost var registry := emitter.eventsCallbacks;
    assert Lookup(registry, e) == [c1, c3] && emitter.anyEventCallbacks == [];
    trace := emitter.Emit(e, args);
    assert trace == Trace(registry, [], e, args);
    assert trace == EventCalls([c1, c3], args);
  }

  /** Calling that disposer a second time does not leave the list alone: c2 is
      no longer there, so the last callback, c3, is removed (or c3 is itself
      another registration of c2 and goes as such). Only c1 must differ from
      c2. */
  method DisposeTwice<A>(e: EventId, c1: Callback, c2: Callback, c3: Callback, args: seq<A>)
    returns (trace: seq<Call<A>>)
    requires c1 != c2
    ensures trace == [EventCall(c1, args)]
  {
    var emitter := new BreezeEventEmitter();
    var _ := emitter.On(e, c1);
    var disposer := emitter.On(e, c2);
    var _ := emitter.On(e, c3);
    DisposeTwiceDropsLast(emitter.eventsCallbacks, e, c1, c2, c3);
    emitter.Dispose(disposer);
    emitter.Dispose(disposer);
    ghost var registry := emitter.eventsCallbacks;
    assert Lookup(registry, e) == [c1] && emitter.anyEventCallbacks == [];
    trace := emitter.Emit(e, args);
    assert trace == Trace(registry, [], e, args);
    assert trace == EventCalls([c1], args);
  }

  /** `off` silences the callbacks of its event only: the wildcard callback
      still fires, and so do the callbacks of other events. */
  method OffKeepsOthers<A>(e: EventId, other: EventId, c: Callback, w: AnyCallback, args: seq<A>)
    returns (traceE: seq<Call<A>>, traceOther: seq<Call<A>>)
    requires e != other
    ensures traceE == [AnyCall(w, e, args)]
    ensures traceOther == [EventCall(c, args), AnyCall(w, other, args)]
  {
    var emitter := new BreezeEventEmitter();
    var _ := emitter.On(e, c);
    var _ := emitter.On(other, c);
    emitter.OnAny(w);
    emitter.Off(e);
    traceE := emitter.Emit(e, args);
    traceOther := emitter.Emit(other, args);
  }

  /** `offAny` silences the wildcard callbacks only. */
  method OffAnyKeepsEventCallbacks<A>(e: EventId, c: Callback, w: AnyCallback, args: seq<A>)
    returns (trace: seq<Call<A>>)
    ensures trace == [EventCall(c, args)]
  {
    var emitter := new BreezeEventEmitter();
    var _ := emitter.On(e, c);
    emitter.OnAny(w);
    emitter.OffAny();
    trace := emitter.Emit(e, args);
  }
}
