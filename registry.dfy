/**
  The state of a BreezeEventEmitter as values, and what its operations do to it.

  An emitter holds a registry, mapping an event id to the ordered list of the
  callbacks registered for it, and an ordered list of wildcard callbacks that
  observe every event. Callbacks are opaque identities compared by reference in
  the library; here they are `nat` tokens compared with `==`. An emit is
  described by the trace of invocations it performs.
 */
module EventRegistry {

  type EventId = string

  /** Identity of a callback registered with `on`. */
  type Callback = nat

  /** Identity of a wildcard callback registered with `onAny`. */
  type AnyCallback = nat

  /** Event id to the callbacks registered for it, in registration order. */
  type Registry = map<EventId, seq<Callback>>

  /** One invocation performed by an emit: a per-event callback called with the
      payload, or a wildcard callback called with the event id and the payload. */
  datatype Call<A> =
    | EventCall(cb: Callback, args: seq<A>)
    | AnyCall(anyCb: AnyCallback, event: EventId, args: seq<A>)

  /** The callbacks of `e`; an event without an entry has none. */
  function Lookup(m: Registry, e: EventId): (r: seq<Callback>)
    ensures e in m ==> r == m[e]
    ensures e !in m ==> r == []
  {
    if e in m then m[e] else []
  }

  /** The registry after `on(e, c)`: `c` is appended to the list of `e`,
      which is created first when absent. */
  function Register(m: Registry, e: EventId, c: Callback): (r: Registry)
    ensures r.Keys == m.Keys + {e}
    ensures r[e] == Lookup(m, e) + [c]
    ensures forall e' :: e' != e ==> Lookup(r, e') == Lookup(m, e')
  {
    m[e := Lookup(m, e) + [c]]
  }

  /** The registry after `off(e)`: the list of `e` is replaced by an empty one. */
  function Unregister(m: Registry, e: EventId): (r: Registry)
    ensures r.Keys == m.Keys + {e}
    ensures r[e] == []
    ensures forall e' :: e' != e ==> Lookup(r, e') == Lookup(m, e')
  {
    m[e := []]
  }

  // ---------------------------------------------------------------------------
  // The two array primitives the disposer uses, with their ECMAScript meaning.
  // ---------------------------------------------------------------------------

  /** `Array.prototype.findIndex` with an identity test: the index of the first
      element equal to `c`, or -1 when there is none. */
  function FindIndex(s: seq<Callback>, c: Callback): (r: int)
    ensures -1 <= r < |s|
    ensures r == -1 <==> c !in s
    ensures 0 <= r ==> s[r] == c && c !in s[..r]
  {
    if |s| == 0 then -1
    else if s[0] == c then 0
    else
      var k := FindIndex(s[1..], c);
      if k == -1 then -1 else k + 1
  }

  /** Where `splice` starts: a negative start counts back from the end and is
      clamped at 0, a non-negative one is clamped at the length. */
  function ActualStart(len: nat, start: int): nat
  {
    if start < 0 then (if len + start < 0 then 0 else len + start)
    else if start < len then start else len
  }

  /** The array left behind by `Array.prototype.splice(start, deleteCount)`. */
  function Splice<T>(s: seq<T>, start: int, deleteCount: int): (r: seq<T>)
    ensures 0 <= start < |s| && deleteCount == 1 ==> r == s[..start] + s[start + 1..]
    ensures start == -1 && deleteCount == 1 && |s| > 0 ==> r == s[..|s| - 1]
    ensures |s| == 0 ==> r == []
    ensures -|s| <= start < |s| && deleteCount == 1 ==> |r| == |s| - 1
  {
    var a := ActualStart(|s|, start);
    var d := if deleteCount < 0 then 0 else if deleteCount < |s| - a then deleteCount else |s| - a;
    s[..a] + s[a + d..]
  }

  /** Reference definition of "remove the first occurrence of `c`", with no
      index arithmetic. */
  function RemoveFirst(s: seq<Callback>, c: Callback): (r: seq<Callback>)
    ensures c in s ==> |r| == |s| - 1
    ensures c !in s ==> r == s
  {
    if |s| == 0 then []
    else if s[0] == c then s[1..]
    else
      assert c in s ==> c in s[1..];
      [s[0]] + RemoveFirst(s[1..], c)
  }

  /** Removing the first occurrence takes one copy of `c` out of the list and
      leaves every other callback's multiplicity alone. */
  lemma {:induction false} RemoveFirstMultiset(s: seq<Callback>, c: Callback)
    requires c in s
    ensures multiset(RemoveFirst(s, c)) == multiset(s) - multiset{c}
  {
    MultisetOfCons(s);
    if s[0] != c {
      RemoveFirstMultiset(s[1..], c);
      var r := RemoveFirst(s, c);
      assert r == [s[0]] + RemoveFirst(s[1..], c);
      MultisetOfCons(r);
    }
  }

  /** The registry after calling the disposer that `on(e, c)` returned:
      nothing happens without an entry for `e`; otherwise the list of `e` is
      spliced at the index `findIndex` reports, even when that index is -1. */
  function Dispose(m: Registry, e: EventId, c: Callback): (r: Registry)
    ensures r.Keys == m.Keys
    ensures e in m ==> |r[e]| == if m[e] == [] then 0 else |m[e]| - 1
    ensures forall e' :: e' != e ==> Lookup(r, e') == Lookup(m, e')
  {
    if e !in m then m
    else m[e := Splice(m[e], FindIndex(m[e], c), 1)]
  }

  /** Splicing out the index `findIndex` reports is removing the first
      occurrence, when there is one. */
  lemma {:induction false} SpliceAtFindIndex(s: seq<Callback>, c: Callback)
    requires c in s
    ensures Splice(s, FindIndex(s, c), 1) == RemoveFirst(s, c)
  {
    if s[0] == c {
      assert Splice(s, 0, 1) == s[1..];
    } else {
      var t := s[1..];
      assert c in t by { assert s == [s[0]] + t; }
      SpliceAtFindIndex(t, c);
      var k := FindIndex(t, c);
      assert FindIndex(s, c) == k + 1;
      assert RemoveFirst(s, c) == [s[0]] + RemoveFirst(t, c);
      assert Splice(t, k, 1) == t[..k] + t[k + 1..];
      assert Splice(s, k + 1, 1) == s[..k + 1] + s[k + 2..];
      DropAfterHead(s, k);
    }
  }

  lemma DropAfterHead(s: seq<Callback>, k: nat)
    requires k + 1 < |s|
    ensures s[..k + 1] + s[k + 2..] == [s[0]] + (s[1..][..k] + s[1..][k + 1..])
  {
    assert s[..k + 1] == [s[0]] + s[1..][..k];
  }

  /** Every case of the disposer. With `c` in the list, exactly its first
      occurrence goes and the rest keep their order; with `c` absent from a
      non-empty list, the LAST element goes, because `splice(-1, 1)` counts from
      the end; without an entry or with an empty list nothing changes. Other
      events are never touched. */
  lemma DisposeCases(m: Registry, e: EventId, c: Callback)
    ensures e !in m ==> Dispose(m, e, c) == m
    ensures e in m && c in m[e] ==>
      Dispose(m, e, c) == m[e := RemoveFirst(m[e], c)] && |Dispose(m, e, c)[e]| == |m[e]| - 1
    ensures e in m && c !in m[e] && m[e] != [] ==>
      Dispose(m, e, c) == m[e := m[e][..|m[e]| - 1]]
    ensures e in m && m[e] == [] ==> Dispose(m, e, c) == m
    ensures forall e' :: e' != e ==> Lookup(Dispose(m, e, c), e') == Lookup(m, e')
  {
    if e in m {
      var s := m[e];
      if c in s {
        SpliceAtFindIndex(s, c);
      } else if s != [] {
        assert FindIndex(s, c) == -1;
      }
    }
  }

  /** Calling the same disposer a second time changes nothing exactly when the
      first call left the event without an entry or with an empty list. */
  lemma DisposeTwiceIff(m: Registry, e: EventId, c: Callback)
    ensures Dispose(Dispose(m, e, c), e, c) == Dispose(m, e, c)
        <==> e !in m || Dispose(m, e, c)[e] == []
  {
    var m1 := Dispose(m, e, c);
    if e in m {
      var s := m1[e];
      var k := FindIndex(s, c);
      if s == [] {
        assert Splice(s, k, 1) == [];
        assert Dispose(m1, e, c) == m1[e := []];
      } else {
        assert |Splice(s, k, 1)| == |s| - 1;
        assert Dispose(m1, e, c)[e] != s;
      }
    }
  }

  /** With c1, c2, c3 registered, disposing c2 leaves c1, c3, whether or not
      the callbacks coincide: when c1 is c2 the first position goes instead of
      the second, with the same result. */
  lemma DisposeMiddle(m: Registry, e: EventId, c1: Callback, c2: Callback, c3: Callback)
    requires e in m && m[e] == [c1, c2, c3]
    ensures Dispose(m, e, c2)[e] == [c1, c3]
  {
    if c1 == c2 {
      assert FindIndex(m[e], c2) == 0;
    } else {
      assert FindIndex(m[e], c2) == 1;
    }
  }

  /** With c1, c2, c3 registered and c1 distinct from c2, a second dispose of
      c2 drops c3 as well: either c3 is another registration of c2, or c2 is
      gone and `splice(-1, 1)` removes the last element. */
  lemma DisposeTwiceDropsLast(m: Registry, e: EventId, c1: Callback, c2: Callback, c3: Callback)
    requires c1 != c2
    requires e in m && m[e] == [c1, c2, c3]
    ensures Dispose(Dispose(m, e, c2), e, c2)[e] == [c1]
  {
    DisposeMiddle(m, e, c1, c2, c3);
    var m1 := Dispose(m, e, c2);
    if c3 == c2 {
      assert FindIndex(m1[e], c2) == 1;
    } else {
      assert c2 !in m1[e];
    }
  }

  // ---------------------------------------------------------------------------
  // Emit
  // ---------------------------------------------------------------------------

  /** The per-event part of an emit: every callback called with the payload. */
  function EventCalls<A>(cbs: seq<Callback>, args: seq<A>): (r: seq<Call<A>>)
    ensures |r| == |cbs|
    ensures forall i {:trigger r[i]} :: 0 <= i < |cbs| ==> r[i] == EventCall(cbs[i], args)
  {
    if |cbs| == 0 then [] else [EventCall(cbs[0], args)] + EventCalls(cbs[1..], args)
  }

  /** The wildcard part of an emit: every wildcard callback called with the
      event id and the payload. */
  function AnyCalls<A>(anys: seq<AnyCallback>, e: EventId, args: seq<A>): (r: seq<Call<A>>)
    ensures |r| == |anys|
    ensures forall i {:trigger r[i]} :: 0 <= i < |anys| ==> r[i] == AnyCall(anys[i], e, args)
  {
    if |anys| == 0 then [] else [AnyCall(anys[0], e, args)] + AnyCalls(anys[1..], e, args)
  }

  /** The invocations of `emit(e, ...args)`: the callbacks of `e` in
      registration order, then every wildcard callback in registration order. */
  function Trace<A>(m: Registry, anys: seq<AnyCallback>, e: EventId, args: seq<A>): (r: seq<Call<A>>)
    ensures |r| == |Lookup(m, e)| + |anys|
    ensures forall i {:trigger r[i]} :: 0 <= i < |Lookup(m, e)| ==> r[i] == EventCall(Lookup(m, e)[i], args)
    ensures forall i {:trigger r[i]} :: |Lookup(m, e)| <= i < |r| ==> r[i] == AnyCall(anys[i - |Lookup(m, e)|], e, args)
  {
    EventCalls(Lookup(m, e), args) + AnyCalls(anys, e, args)
  }

  /** Per-event calls come first: no per-event call follows a wildcard call. */
  ghost predicate EventCallsFirst<A>(r: seq<Call<A>>)
  {
    forall i, j :: 0 <= i < j < |r| && r[i].AnyCall? ==> r[j].AnyCall?
  }

  lemma TraceOrder<A>(m: Registry, anys: seq<AnyCallback>, e: EventId, args: seq<A>)
    ensures EventCallsFirst(Trace(m, anys, e, args))
  {
    var r := Trace(m, anys, e, args);
    var n := |Lookup(m, e)|;
    forall i, j | 0 <= i < j < |r| && r[i].AnyCall? ensures r[j].AnyCall? {
      assert n <= i;
    }
  }

  /** Nothing registered for `e` and no wildcard callback: emit invokes nothing. */
  lemma EmitNothingRegistered<A>(m: Registry, e: EventId, args: seq<A>)
    requires e !in m || m[e] == []
    ensures Trace(m, [], e, args) == []
  {
  }

  lemma MultisetOfCons<T>(s: seq<T>)
    requires |s| > 0
    ensures multiset(s) == multiset{s[0]} + multiset(s[1..])
  {
    assert s == [s[0]] + s[1..];
  }

  lemma {:induction false} EventCallsCount<A>(cbs: seq<Callback>, c: Callback, w: AnyCallback, e: EventId, args: seq<A>)
    ensures multiset(EventCalls(cbs, args))[EventCall(c, args)] == multiset(cbs)[c]
    ensures multiset(EventCalls(cbs, args))[AnyCall(w, e, args)] == 0
  {
    if |cbs| > 0 {
      EventCallsCount(cbs[1..], c, w, e, args);
      MultisetOfCons(cbs);
      var r := EventCalls(cbs, args);
      assert r == [r[0]] + EventCalls(cbs[1..], args);
      MultisetOfCons(r);
    }
  }

  lemma {:induction false} AnyCallsCount<A>(anys: seq<AnyCallback>, e: EventId, w: AnyCallback, c: Callback, args: seq<A>)
    ensures multiset(AnyCalls(anys, e, args))[AnyCall(w, e, args)] == multiset(anys)[w]
    ensures multiset(AnyCalls(anys, e, args))[EventCall(c, args)] == 0
  {
    if |anys| > 0 {
      AnyCallsCount(anys[1..], e, w, c, args);
      MultisetOfCons(anys);
      var r := AnyCalls(anys, e, args);
      assert r == [r[0]] + AnyCalls(anys[1..], e, args);
      MultisetOfCons(r);
    }
  }

  /** A callback registered k times is invoked k times, each with the payload;
      a wildcard callback registered k times is invoked k times, each with the
      event id and the payload. */
  lemma TraceCounts<A>(m: Registry, anys: seq<AnyCallback>, e: EventId, c: Callback, w: AnyCallback, args: seq<A>)
    ensures multiset(Trace(m, anys, e, args))[EventCall(c, args)] == multiset(Lookup(m, e))[c]
    ensures multiset(Trace(m, anys, e, args))[AnyCall(w, e, args)] == multiset(anys)[w]
  {
    var ev := EventCalls(Lookup(m, e), args);
    var an := AnyCalls(anys, e, args);
    EventCallsCount(Lookup(m, e), c, w, e, args);
    AnyCallsCount(anys, e, w, c, args);
    assert multiset(ev + an) == multiset(ev) + multiset(an);
  }

  /** Calling the disposer of a registration that is still there takes away
      exactly one invocation of its callback from later emits, and no
      invocation of any other callback. */
  lemma DisposeSilencesOneRegistration<A>(m: Registry, anys: seq<AnyCallback>, e: EventId, c: Callback, other: Callback, args: seq<A>)
    requires e in m && c in m[e]
    ensures multiset(Trace(Dispose(m, e, c), anys, e, args))[EventCall(c, args)] + 1
         == multiset(Trace(m, anys, e, args))[EventCall(c, args)]
    ensures other != c ==>
      multiset(Trace(Dispose(m, e, c), anys, e, args))[EventCall(other, args)]
      == multiset(Trace(m, anys, e, args))[EventCall(other, args)]
  {
    var m' := Dispose(m, e, c);
    SpliceAtFindIndex(m[e], c);
    RemoveFirstMultiset(m[e], c);
    assert Lookup(m', e) == RemoveFirst(m[e], c);
    var before, after := multiset(Lookup(m, e)), multiset(Lookup(m', e));
    assert after[c] + 1 == before[c];
    assert other != c ==> after[other] == before[other];
    TraceCounts(m, anys, e, c, 0, args);
    TraceCounts(m', anys, e, c, 0, args);
    TraceCounts(m, anys, e, other, 0, args);
    TraceCounts(m', anys, e, other, 0, args);
  }

  lemma {:induction false} EventCallsAppend<A>(cbs: seq<Callback>, c: Callback, args: seq<A>)
    ensures EventCalls(cbs + [c], args) == EventCalls(cbs, args) + [EventCall(c, args)]
  {
    if |cbs| > 0 {
      EventCallsAppend(cbs[1..], c, args);
      assert (cbs + [c])[1..] == cbs[1..] + [c];
    }
  }

  /** After `on(e, c)`, emitting `e` invokes what it invoked before and then
      `c` once more, ahead of the wildcard callbacks; emitting any other event
      invokes the same as before. */
  lemma RegisterThenTrace<A>(m: Registry, anys: seq<AnyCallback>, e: EventId, c: Callback, args: seq<A>)
    ensures Trace(Register(m, e, c), anys, e, args)
         == EventCalls(Lookup(m, e), args) + [EventCall(c, args)] + AnyCalls(anys, e, args)
    ensures forall e' :: e' != e ==> Trace(Register(m, e, c), anys, e', args) == Trace(m, anys, e', args)
  {
    EventCallsAppend(Lookup(m, e), c, args);
    assert Lookup(Register(m, e, c), e) == Lookup(m, e) + [c];
  }

  /** After `off(e)`, emitting `e` invokes only the wildcard callbacks, and
      emitting any other event invokes the same as before. */
  lemma UnregisterThenTrace<A>(m: Registry, anys: seq<AnyCallback>, e: EventId, args: seq<A>)
    ensures Trace(Unregister(m, e), anys, e, args) == AnyCalls(anys, e, args)
    ensures forall e' :: e' != e ==> Trace(Unregister(m, e), anys, e', args) == Trace(m, anys, e', args)
  {
    assert Lookup(Unregister(m, e), e) == [];
    assert EventCalls([], args) == [];
  }
}
