/**
  Handles of subjects and observers, the callbacks observers hold, and what
  calling a subject delivers.

  A callback's body is not modelled: it is an opaque identity, and a call is
  recorded as a notification naming the observer, its callback at the time
  and the arguments passed. Callbacks are assumed to return normally and
  not to touch the registrations while a subject is being called; the only
  abort modelled is the call of an empty function.
 */
module Broadcasting {
  import opened Links

  /** The identity (address) of a subject. */
  newtype SubjectId = i: int | 0 <= i

  /** The identity (address) of an observer. */
  newtype ObserverId = i: int | 0 <= i

  /** An observer's stored function: empty, or some target identified by a number. */
  datatype Callback = Empty | Callable(target: nat)

  /** One call of an observer's callback with the subject's arguments. */
  datatype Notification<A> = Notification(observer: ObserverId, target: nat, args: A)

  /**
    What calling a subject does: every registered entry is notified, or the
    walk stops at the first entry whose callback is empty, where calling the
    empty function raises `std::bad_function_call` to the subject's caller.
   */
  datatype Delivery<A> =
    | Delivered(calls: seq<Notification<A>>)
    | BadFunctionCall(calls: seq<Notification<A>>, failed: ObserverId)

  /** The observers notified, in order. */
  function Recipients<A>(calls: seq<Notification<A>>): seq<ObserverId>
  {
    seq(|calls|, i requires 0 <= i < |calls| => calls[i].observer)
  }

  /**
    `d` is the outcome of walking `entries` in order: each entry before the
    stopping point is notified once, with its own callback and the same
    `args`; the walk stops early exactly at the first entry whose callback
    is empty.
   */
  ghost predicate Broadcasts<A>(entries: seq<ObserverId>, callbacks: map<ObserverId, Callback>, args: A, d: Delivery<A>)
    requires forall o :: o in entries ==> o in callbacks
  {
    && |d.calls| <= |entries|
    && (forall i :: 0 <= i < |d.calls| ==>
          callbacks[entries[i]].Callable? &&
          d.calls[i] == Notification(entries[i], callbacks[entries[i]].target, args))
    && (d.Delivered? ==> |d.calls| == |entries|)
    && (d.BadFunctionCall? ==>
          |d.calls| < |entries| && d.failed == entries[|d.calls|] && callbacks[d.failed].Empty?)
  }

  /** The walk has a single outcome. */
  lemma BroadcastIsDeterministic<A>(entries: seq<ObserverId>, callbacks: map<ObserverId, Callback>, args: A, d: Delivery<A>, e: Delivery<A>)
    requires forall o :: o in entries ==> o in callbacks
    requires Broadcasts(entries, callbacks, args, d) && Broadcasts(entries, callbacks, args, e)
    ensures d == e
  {
    assert d.calls == e.calls;
  }

  /**
    When every registered observer has a callback, each entry is notified,
    in registration order and once per entry, so an observer registered
    twice is notified twice.
   */
  lemma BroadcastFansOut<A>(entries: seq<ObserverId>, callbacks: map<ObserverId, Callback>, args: A, d: Delivery<A>)
    requires forall o :: o in entries ==> o in callbacks && callbacks[o].Callable?
    requires Broadcasts(entries, callbacks, args, d)
    ensures d.Delivered? && Recipients(d.calls) == entries
    ensures forall o :: Count(Recipients(d.calls), o) == Count(entries, o)
  {
  }

  /** An observer that is not registered is never notified. */
  lemma BroadcastSkipsUnregistered<A>(entries: seq<ObserverId>, callbacks: map<ObserverId, Callback>, args: A, d: Delivery<A>, o: ObserverId)
    requires forall o :: o in entries ==> o in callbacks
    requires Broadcasts(entries, callbacks, args, d)
    requires o !in entries
    ensures o !in Recipients(d.calls)
    ensures d.BadFunctionCall? ==> d.failed != o
  {
  }

  /** A subject with no entries notifies nobody. */
  lemma BroadcastToNobody<A>(callbacks: map<ObserverId, Callback>, args: A, d: Delivery<A>)
    requires Broadcasts([], callbacks, args, d)
    ensures d == Delivered([])
  {
  }
}
