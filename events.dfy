/** OOP/EventManager: per event id, a list of handlers, each a receiver
    object with the callback to invoke on it. A receiver has at most one
    handler per event; removal moves the last handler into the freed slot
    (Vector::quick_remove). Pointers are modelled as integer addresses, with
    NULL the null pointer; an event is passed by its address. */
module Events {
  const NULL := 0

  datatype Handler = Handler(receiver: int, own: bool, onEvent: int)

  /** One invocation (*on_event)(event, receiver). */
  datatype Call = Call(onEvent: int, event: int, receiver: int)

  /** No receiver has two handlers in the list. */
  predicate Distinct(v: seq<Handler>)
  {
    forall i, j :: 0 <= i < j < |v| ==> v[i].receiver != v[j].receiver
  }

  /** The position of r's first handler, or |v| when r has none. */
  function FirstOf(v: seq<Handler>, r: int): (i: int)
    ensures 0 <= i <= |v|
    ensures forall j :: 0 <= j < i ==> v[j].receiver != r
    ensures i < |v| ==> v[i].receiver == r
  {
    if v == [] then 0
    else if v[0].receiver == r then 0
    else 1 + FirstOf(v[1..], r)
  }

  /** The list register_handler leaves: h replaces the receiver's handler,
      or is appended when the receiver has none. */
  function Registered(v: seq<Handler>, h: Handler): seq<Handler>
  {
    var i := FirstOf(v, h.receiver);
    if i < |v| then v[i := h] else v + [h]
  }

  /** Vector::quick_remove(i): the last element takes slot i, and the list
      loses its last slot. */
  function QuickRemove(v: seq<Handler>, i: int): (w: seq<Handler>)
    requires 0 <= i < |v|
    ensures |w| == |v| - 1
    ensures multiset(w) == multiset(v) - multiset{v[i]}
  {
    var last := |v| - 1;
    var u := v[i := v[last]];
    assert multiset(u) == multiset(v) - multiset{v[i]} + multiset{v[last]};
    assert u == u[..last] + [v[last]];
    assert multiset(u) == multiset(u[..last]) + multiset{v[last]};
    assert multiset(u[..last]) == multiset(v) - multiset{v[i]} by {
      forall x ensures multiset(u[..last])[x] == (multiset(v) - multiset{v[i]})[x] {
        assert multiset(u[..last])[x] == multiset(u)[x] - multiset{v[last]}[x];
      }
    }
    u[..last]
  }

  /** The list unregister_handler leaves: empty for a null receiver,
      otherwise without the receiver's first handler. */
  function Unregistered(v: seq<Handler>, r: int): seq<Handler>
  {
    if r == NULL then []
    else
      var i := FirstOf(v, r);
      if i < |v| then QuickRemove(v, i) else v
  }

  /** The calls fire makes, in list order: every handler when the receiver
      is null, otherwise the receiver's handlers. */
  function Fired(v: seq<Handler>, event: int, r: int): (calls: seq<Call>)
    ensures |calls| <= |v|
  {
    if v == [] then []
    else
      var h := v[|v| - 1];
      Fired(v[..|v| - 1], event, r) +
        (if r == NULL || h.receiver == r then [Call(h.onEvent, event, h.receiver)] else [])
  }

  // ---------------------------------------------------------------------
  // What the list operations keep.

  /** Registering keeps receivers distinct, and afterwards h is the
      receiver's one handler, every other handler is kept, and nothing else
      is added: the list grows only when the receiver had no handler. */
  lemma RegisteredSpec(v: seq<Handler>, h: Handler)
    requires Distinct(v)
    ensures var w := Registered(v, h);
      Distinct(w) && h in w &&
      (forall g :: g in w && g.receiver == h.receiver ==> g == h) &&
      (forall g :: g in v && g.receiver != h.receiver ==> g in w) &&
      (forall g :: g in w ==> g == h || g in v) &&
      |w| == |v| + (if exists g :: g in v && g.receiver == h.receiver then 0 else 1)
  {
    var w := Registered(v, h);
    var i := FirstOf(v, h.receiver);
    if i < |v| {
      forall g | g in v && g.receiver != h.receiver ensures g in w {
        var k :| 0 <= k < |v| && v[k] == g;
        assert w[k] == g;
      }
      forall g | g in w ensures g == h || g in v {
        var k :| 0 <= k < |w| && w[k] == g;
        if k != i {
          assert v[k] == g;
        }
      }
      assert w[i] == h;
    } else {
      assert w[|v|] == h;
      forall g | g in v && g.receiver != h.receiver ensures g in w {
        var k :| 0 <= k < |v| && v[k] == g;
        assert w[k] == g;
      }
      forall g | g in w ensures g == h || g in v {
        var k :| 0 <= k < |w| && w[k] == g;
        if k < |v| {
          assert v[k] == g;
        }
      }
      forall g | g in v ensures g.receiver != h.receiver {
        var k :| 0 <= k < |v| && v[k] == g;
      }
    }
  }

  /** quick_remove keeps the receivers distinct. */
  lemma QuickRemoveDistinct(v: seq<Handler>, i: int)
    requires Distinct(v) && 0 <= i < |v|
    ensures Distinct(QuickRemove(v, i))
  {
    var w := QuickRemove(v, i);
    var last := |v| - 1;
    forall a, b | 0 <= a < b < |w| ensures w[a].receiver != w[b].receiver {
      var pa := if a == i then last else a;
      var pb := if b == i then last else b;
      assert w[a] == v[pa] && w[b] == v[pb] && pa != pb;
    }
  }

  /** A null receiver empties the list; any other loses its first handler
      and nothing else, so with distinct receivers it has none left. */
  lemma UnregisteredSpec(v: seq<Handler>, r: int)
    requires Distinct(v)
    ensures Distinct(Unregistered(v, r))
    ensures r == NULL ==> Unregistered(v, r) == []
    ensures r != NULL ==>
      forall g: Handler :: multiset(Unregistered(v, r))[g] == (if g.receiver == r then 0 else multiset(v)[g])
  {
    if r != NULL {
      var i := FirstOf(v, r);
      if i < |v| {
        QuickRemoveDistinct(v, i);
        forall g: Handler | g.receiver == r ensures multiset(v)[g] <= 1 && (multiset(v)[g] == 1 ==> g == v[i]) {
          NoOtherHandler(v, r, i, g);
        }
      } else {
        forall g: Handler | g.receiver == r ensures multiset(v)[g] == 0 {
          assert g !in v;
        }
      }
    }
  }

  /** With distinct receivers, r's handler at i is the only element of v
      for r. */
  lemma NoOtherHandler(v: seq<Handler>, r: int, i: int, g: Handler)
    requires Distinct(v) && 0 <= i < |v| && v[i].receiver == r && g.receiver == r
    ensures multiset(v)[g] <= 1 && (multiset(v)[g] == 1 ==> g == v[i])
  {
    var rest := v[..i] + v[i + 1..];
    assert v == v[..i] + [v[i]] + v[i + 1..];
    forall k | 0 <= k < |rest| ensures rest[k] != g {
      var p := if k < i then k else k + 1;
      assert rest[k] == v[p] && p != i;
    }
    assert multiset(v) == multiset(rest) + multiset{v[i]};
  }

  /** A null receiver fires every handler; any other fires only its own,
      which with distinct receivers is at most one. */
  lemma {:induction false} FiredSpec(v: seq<Handler>, event: int, r: int)
    ensures r == NULL ==> |Fired(v, event, r)| == |v|
    ensures forall c :: c in Fired(v, event, r) ==> c.event == event && (r == NULL || c.receiver == r)
    ensures Distinct(v) && r != NULL ==> |Fired(v, event, r)| <= 1
    ensures (Fired(v, event, r) == []) <==> (r != NULL && forall g :: g in v ==> g.receiver != r) || v == []
  {
    if v != [] {
      var init := v[..|v| - 1];
      var h := v[|v| - 1];
      FiredSpec(init, event, r);
      if Distinct(v) && r != NULL && h.receiver == r {
        assert Distinct(init);
        forall g | g in init ensures g.receiver != r {
          var k :| 0 <= k < |init| && init[k] == g;
          assert v[k] == g;
        }
      }
      if Distinct(v) {
        assert Distinct(init);
      }
      forall g | g in init ensures g in v {
        var k :| 0 <= k < |init| && init[k] == g;
        assert v[k] == g;
      }
      assert h in v;
      if r != NULL && forall g :: g in v ==> g.receiver != r {
        assert forall g :: g in init ==> g.receiver != r;
      }
      if Fired(v, event, r) == [] && r != NULL {
        forall g | g in v ensures g.receiver != r {
          var k :| 0 <= k < |v| && v[k] == g;
          if k < |v| - 1 {
            assert init[k] == g;
          }
        }
      }
    }
  }

  /** With distinct receivers, after r's handlers are gone firing for r
      calls nothing. */
  lemma NothingFiredAfterRemoval(v: seq<Handler>, w: seq<Handler>, event: int, r: int)
    requires r != NULL
    requires forall g: Handler :: multiset(w)[g] == (if g.receiver == r then 0 else multiset(v)[g])
    ensures Fired(w, event, r) == []
  {
    forall g | g in w ensures g.receiver != r {
      assert multiset(w)[g] > 0;
    }
    FiredSpec(w, event, r);
  }

  // ---------------------------------------------------------------------
  // The manager.

  class EventManager {
    var handlers: seq<seq<Handler>>

    ghost predicate Valid()
      reads this
    {
      forall e :: 0 <= e < |handlers| ==> Distinct(handlers[e])
    }

    constructor ()
      ensures Valid() && handlers == []
    {
      handlers := [];
    }

    /** register_handler: grow the table to hold event_id, then replace the
        receiver's handler for the event or append a new one. */
    method RegisterHandler(eventId: nat, onEvent: int, receiver: int, own: bool)
      requires Valid()
      modifies this
      ensures Valid()
      ensures |handlers| == if old(|handlers|) <= eventId then eventId + 1 else old(|handlers|)
      ensures forall e :: 0 <= e < |handlers| && e != eventId ==>
        handlers[e] == if e < old(|handlers|) then old(handlers[e]) else []
      ensures handlers[eventId] == Registered(
        if eventId < old(|handlers|) then old(handlers[eventId]) else [],
        Handler(receiver, own, onEvent))
    {
      var eh := Handler(receiver, own, onEvent);
      var hs := handlers;
      if |hs| <= eventId {
        hs := hs + seq(eventId + 1 - |hs|, _ => []);
      }
      assert forall e :: 0 <= e < |hs| ==> Distinct(hs[e]);
      var v := hs[eventId];
      RegisteredSpec(v, eh);
      var i := 0;
      while i < |v|
        invariant 0 <= i <= |v|
        invariant forall j :: 0 <= j < i ==> v[j].receiver != receiver
      {
        if v[i].receiver == receiver {
          handlers := hs[eventId := v[i := eh]];
          return;
        }
        i := i + 1;
      }
      handlers := hs[eventId := v + [eh]];
    }

    /** unregister_handler: event_id must be registered already. A null
        receiver clears the event; otherwise the first handler of the
        receiver is quick-removed. */
    method UnregisterHandler(eventId: nat, receiver: int)
      requires Valid() && eventId < |handlers|
      modifies this
      ensures Valid()
      ensures handlers == old(handlers)[eventId := Unregistered(old(handlers[eventId]), receiver)]
    {
      UnregisteredSpec(handlers[eventId], receiver);
      if receiver == NULL {
        handlers := handlers[eventId := []];
      } else {
        var v := RemoveFirst(handlers[eventId], receiver);
        handlers := handlers[eventId := v];
      }
    }

    /** unregister_handlers: quick-remove every handler of the receiver
        from every event. */
    method UnregisterHandlers(receiver: int)
      requires Valid()
      modifies this
      ensures Valid() && |handlers| == old(|handlers|)
      ensures forall e, g: Handler :: 0 <= e < |handlers| ==>
        multiset(handlers[e])[g] == (if g.receiver == receiver then 0 else multiset(old(handlers[e]))[g])
    {
      var e := 0;
      while e < |handlers|
        invariant 0 <= e <= |handlers| == |old(handlers)|
        invariant forall k :: e <= k < |handlers| ==> handlers[k] == old(handlers[k])
        invariant Valid()
        invariant forall k, g: Handler :: 0 <= k < e ==>
          multiset(handlers[k])[g] == (if g.receiver == receiver then 0 else multiset(old(handlers[k]))[g])
      {
        var w := RemoveAll(handlers[e], receiver);
        handlers := handlers[e := w];
        e := e + 1;
      }
    }

    /** fire: the calls made on the event's handlers that pass the receiver
        filter, in list order. event_id must be registered already. */
    method Fire(eventId: nat, event: int, receiver: int) returns (calls: seq<Call>)
      requires eventId < |handlers|
      ensures calls == Fired(handlers[eventId], event, receiver)
    {
      var v := handlers[eventId];
      calls := [];
      for i := 0 to |v|
        invariant calls == Fired(v[..i], event, receiver)
      {
        assert v[..i + 1][..i] == v[..i];
        var h := v[i];
        if receiver == NULL || h.receiver == receiver {
          calls := calls + [Call(h.onEvent, event, h.receiver)];
        }
      }
      assert v[..|v|] == v;
    }
  }

  /** The loop of unregister_handler: quick-remove the first handler of r,
      if any. */
  method RemoveFirst(v0: seq<Handler>, r: int) returns (v: seq<Handler>)
    requires r != NULL
    ensures v == Unregistered(v0, r)
  {
    v := v0;
    var i, n := 0, |v|;
    while i < n
      invariant 0 <= i <= n == |v0| && v == v0
      invariant forall j :: 0 <= j < i ==> v[j].receiver != r
    {
      if v[i].receiver == r {
        v := QuickRemove(v, i);
        return;
      }
      i := i + 1;
    }
  }

  /** The inner loop of unregister_handlers: a handler of r is replaced by
      the last one and the same slot is examined again; any other is passed. */
  method RemoveAll(v0: seq<Handler>, r: int) returns (v: seq<Handler>)
    requires Distinct(v0)
    ensures Distinct(v)
    ensures forall g: Handler :: multiset(v)[g] == (if g.receiver == r then 0 else multiset(v0)[g])
  {
    v := v0;
    var i := 0;
    while i < |v|
      invariant 0 <= i <= |v| && Distinct(v)
      invariant forall j :: 0 <= j < i ==> v[j].receiver != r
      invariant forall g: Handler :: g.receiver != r ==> multiset(v)[g] == multiset(v0)[g]
      invariant forall g: Handler :: g.receiver == r ==> multiset(v)[g] <= multiset(v0)[g]
      decreases |v| - i
    {
      if v[i].receiver == r {
        QuickRemoveDistinct(v, i);
        v := QuickRemove(v, i);
        continue;
      }
      i := i + 1;
    }
    forall g: Handler | g.receiver == r ensures multiset(v)[g] == 0 {
      assert g !in v;
    }
  }
}
