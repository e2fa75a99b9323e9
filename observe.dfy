/**
  The `Observe` namespace of include/cpp_observe.hpp: `Observer<Args...>` and
  `Subject<Args...>`, with their copy and move members.

  Subjects and observers are objects the caller owns; they live in one
  registry and are named by their identities. A subject's `observers_`
  vector is `observers[s]`, an observer's `subjects_` vector is
  `subjects[o]` and its `function_` is `callbacks[o]`. Constructing an object
  gives the registry a new identity (the storage the caller chose);
  destroying it removes the identity.
 */
module Observe {
  import opened Links
  import opened Broadcasting

  class Registry {
    var observers: map<SubjectId, seq<ObserverId>>
    var subjects: map<ObserverId, seq<SubjectId>>
    var callbacks: map<ObserverId, Callback>

    /** Every registration is recorded on both sides, once per call of add_observer. */
    ghost predicate Valid()
      reads this
    {
      Consistent(observers, subjects) && subjects.Keys == callbacks.Keys
    }

    constructor ()
      ensures Valid()
      ensures observers == map[] && subjects == map[] && callbacks == map[]
    {
      observers, subjects, callbacks := map[], map[], map[];
    }

    // ---------------------------------------------------------------- Observer

    /** `Observer()` and `Observer(function)`: a new observer attached to nothing. */
    method NewObserver(o: ObserverId, callback: Callback)
      requires Valid() && o !in subjects
      modifies this
      ensures Valid()
      ensures subjects == old(subjects)[o := []] && callbacks == old(callbacks)[o := callback]
      ensures observers == old(observers)
      ensures forall s :: s in observers ==> o !in observers[s]
    {
      AddKeyKeepsConsistent(subjects, observers, o);
      subjects := subjects[o := []];
      callbacks := callbacks[o := callback];
    }

    /** The copy constructor copies the callback only: the copy starts detached. */
    method CopyObserver(other: ObserverId, o: ObserverId)
      requires Valid() && other in subjects && o !in subjects
      modifies this
      ensures Valid()
      ensures subjects == old(subjects)[o := []] && callbacks == old(callbacks)[o := old(callbacks)[other]]
      ensures observers == old(observers)
      ensures forall s :: s in observers ==> o !in observers[s]
    {
      NewObserver(o, callbacks[other]);
    }

    /** Copy assignment detaches `o` from every subject, then copies the callback. */
    method CopyAssignObserver(o: ObserverId, other: ObserverId)
      requires Valid() && o in subjects && other in subjects
      modifies this
      ensures Valid()
      ensures subjects == old(subjects)[o := []] && callbacks == old(callbacks)[o := old(callbacks)[other]]
      ensures observers == EraseAll(old(observers), o)
      ensures forall s :: s in observers ==> o !in observers[s]
    {
      ClearObserver(o);
      callbacks := callbacks[o := callbacks[other]];
    }

    /**
      The move constructor: `o` takes the callback and is registered with
      each of `other`'s subjects as often as `other` was, at the end of each
      subject's list; `other` ends detached, its callback moved out.
     */
    method MoveObserver(other: ObserverId, o: ObserverId)
      requires Valid() && other in subjects && o !in subjects
      modifies this
      ensures Valid()
      ensures subjects == old(subjects)[other := []][o := old(subjects)[other]]
      ensures callbacks == old(callbacks)[other := Empty][o := old(callbacks)[other]]
      ensures observers.Keys == old(observers).Keys
      ensures forall s :: s in observers ==>
        observers[s] == Erase(old(observers)[s], other) + Repeat(o, Count(old(observers)[s], other))
    {
      NewObserver(o, callbacks[other]);
      callbacks := callbacks[other := Empty];
      TakeRegistrations(o, other);
      TakeOverLists(old(observers), old(subjects), other, o);
      assert [] + old(subjects)[other] == old(subjects)[other];
      UpdateTwice(old(subjects), o, [], old(subjects)[other]);
      UpdateSwap(old(subjects), o, other, old(subjects)[other], []);
      UpdateSwap(old(callbacks), o, other, old(callbacks)[other], Empty);
    }

    /**
      Move assignment: `o` takes the callback, is detached from its own
      subjects, then takes over `other`'s registrations as the move
      constructor does.
     */
    method MoveAssignObserver(o: ObserverId, other: ObserverId)
      requires Valid() && o in subjects && other in subjects && o != other
      modifies this
      ensures Valid()
      ensures subjects == old(subjects)[other := []][o := old(subjects)[other]]
      ensures callbacks == old(callbacks)[other := Empty][o := old(callbacks)[other]]
      ensures observers.Keys == old(observers).Keys
      ensures forall s :: s in observers ==>
        observers[s] == Erase(Erase(old(observers)[s], o), other) + Repeat(o, Count(old(observers)[s], other))
    {
      callbacks := callbacks[o := callbacks[other]][other := Empty];
      ClearObserver(o);
      TakeRegistrations(o, other);
      TakeOverDetached(old(observers), old(subjects), o, other);
      assert [] + old(subjects)[other] == old(subjects)[other];
      UpdateTwice(old(subjects), o, [], old(subjects)[other]);
      UpdateSwap(old(subjects), o, other, old(subjects)[other], []);
      UpdateSwap(old(callbacks), o, other, old(callbacks)[other], Empty);
    }

    /**
      The loop shared by the move constructor and move assignment,
      `subject->add_observer(*this)` for each subject of `other`, followed
      by `other.clear()`.
     */
    method TakeRegistrations(o: ObserverId, other: ObserverId)
      requires Valid() && o in subjects && other in subjects && o != other
      modifies this
      ensures Valid()
      ensures subjects == old(subjects)[o := old(subjects)[o] + old(subjects)[other]][other := []]
      ensures observers == EraseAll(AppendEach(old(observers), old(subjects)[other], o), other)
      ensures callbacks == old(callbacks)
    {
      JoinEach(o, subjects[other]);
      ClearObserver(other);
    }

    /** Replaces the callback; the registrations stay as they are. */
    method SetFunction(o: ObserverId, callback: Callback)
      requires Valid() && o in subjects
      modifies this
      ensures Valid()
      ensures callbacks == old(callbacks)[o := callback]
      ensures observers == old(observers) && subjects == old(subjects)
    {
      callbacks := callbacks[o := callback];
    }

    /**
      `Observer::clear`: asks the first subject in `subjects_` to remove this
      observer until the list is empty. Each round erases that subject
      entirely from the list, so the list shrinks and the loop ends.
     */
    method ClearObserver(o: ObserverId)
      requires Valid() && o in subjects
      modifies this
      ensures Valid()
      ensures subjects == old(subjects)[o := []] && callbacks == old(callbacks)
      ensures observers == EraseAll(old(observers), o)
      ensures forall s :: s in observers ==> o !in observers[s]
    {
      while |subjects[o]| > 0
        invariant Valid() && o in subjects
        invariant subjects == old(subjects)[o := subjects[o]] && callbacks == old(callbacks)
        invariant EraseAll(observers, o) == EraseAll(old(observers), o)
        decreases |subjects[o]|
      {
        var first := subjects[o][0];
        EraseAllAbsorbs(observers, first, o);
        RemoveObserver(first, o);
      }
      ConsistentSymmetric(observers, subjects);
      EraseAllUnlisted(subjects, observers, o);
    }

    /** `~Observer` clears the observer, so no subject holds it afterwards. */
    method DestroyObserver(o: ObserverId)
      requires Valid() && o in subjects
      modifies this
      ensures Valid()
      ensures subjects == old(subjects) - {o} && callbacks == old(callbacks) - {o}
      ensures observers == EraseAll(old(observers), o)
      ensures forall s :: s in observers ==> o !in observers[s]
    {
      ClearObserver(o);
      ConsistentSymmetric(observers, subjects);
      DropKeepsConsistent(subjects, observers, o);
      subjects := subjects - {o};
      callbacks := callbacks - {o};
    }

    /**
      The loop of the move members: `subject->add_observer(*this)` for each
      entry of a subject list, in order.
     */
    method JoinEach(o: ObserverId, list: seq<SubjectId>)
      requires Valid() && o in subjects
      requires forall s :: s in list ==> s in observers
      modifies this
      ensures Valid()
      ensures subjects == old(subjects)[o := old(subjects)[o] + list] && callbacks == old(callbacks)
      ensures observers == AppendEach(old(observers), list, o)
    {
      assert old(subjects)[o] + list[..0] == old(subjects)[o];
      for i := 0 to |list|
        invariant Valid() && o in subjects
        invariant subjects == old(subjects)[o := old(subjects)[o] + list[..i]] && callbacks == old(callbacks)
        invariant observers == AppendEach(old(observers), list[..i], o)
      {
        AppendEachNext(old(observers), list, i, o);
        PrefixNext(old(subjects)[o], list, i);
        AddObserver(list[i], o);
      }
      assert list[..|list|] == list;
    }

    // ----------------------------------------------------------------- Subject

    /** `Subject() = default`: a new subject with no observers. */
    method NewSubject(s: SubjectId)
      requires Valid() && s !in observers
      modifies this
      ensures Valid()
      ensures observers == old(observers)[s := []]
      ensures subjects == old(subjects) && callbacks == old(callbacks)
      ensures forall o :: o in subjects ==> s !in subjects[o]
    {
      AddKeyKeepsConsistent(observers, subjects, s);
      observers := observers[s := []];
    }

    /**
      `add_observer`: appends the observer to the subject's list and the
      subject to the observer's list, one entry each, and nothing else.
     */
    method AddObserver(s: SubjectId, o: ObserverId)
      requires Valid() && s in observers && o in subjects
      modifies this
      ensures Valid()
      ensures observers == old(observers)[s := old(observers)[s] + [o]]
      ensures subjects == old(subjects)[o := old(subjects)[o] + [s]]
      ensures callbacks == old(callbacks)
    {
      LinkKeepsConsistent(observers, subjects, s, o);
      observers := observers[s := observers[s] + [o]];
      subjects := subjects[o := subjects[o] + [s]];
    }

    /**
      `remove_observer`: erases every occurrence of the observer from the
      subject's list and of the subject from the observer's list; nothing
      changes when the observer was not registered.
     */
    method RemoveObserver(s: SubjectId, o: ObserverId)
      requires Valid() && s in observers && o in subjects
      modifies this
      ensures Valid()
      ensures observers == old(observers)[s := Erase(old(observers)[s], o)]
      ensures subjects == old(subjects)[o := Erase(old(subjects)[o], s)]
      ensures callbacks == old(callbacks)
      ensures o !in old(observers)[s] ==> observers == old(observers) && subjects == old(subjects)
    {
      if o !in observers[s] {
        UnlinkUnlinkedIsNoop(observers, subjects, s, o);
      }
      UnlinkKeepsConsistent(observers, subjects, s, o);
      observers := observers[s := Erase(observers[s], o)];
      subjects := subjects[o := Erase(subjects[o], s)];
    }

    /**
      The loop shared by `clear` and `~Subject`: erase `s` from the
      `subjects_` of every observer in its list. The subject's own list is
      left to the caller, so the registry is consistent again only once that
      list is emptied or dropped.
     */
    method EraseBackReferences(s: SubjectId)
      requires Valid() && s in observers
      modifies this
      ensures subjects == EraseAll(old(subjects), s)
      ensures observers == old(observers) && callbacks == old(callbacks)
    {
      var list := observers[s];
      for i := 0 to |list|
        invariant observers == old(observers) && callbacks == old(callbacks)
        invariant subjects.Keys == old(subjects).Keys
        invariant EraseAll(subjects, s) == EraseAll(old(subjects), s)
        invariant forall o :: o in list[..i] ==> s !in subjects[o]
        invariant forall o :: o in subjects && s in subjects[o] ==> s in old(subjects)[o]
      {
        var o := list[i];
        EraseAllAbsorbs(subjects, o, s);
        subjects := subjects[o := Erase(subjects[o], s)];
      }
      forall o | o in subjects
        ensures s !in subjects[o]
      {
        assert list[..|list|] == list;
        assert Count(old(subjects)[o], s) == Count(list, o);
      }
      EraseAllAbsent(subjects, s);
    }

    /**
      `clear`: afterwards the subject's list is empty and no observer's list
      mentions the subject.
     */
    method ClearSubject(s: SubjectId)
      requires Valid() && s in observers
      modifies this
      ensures Valid()
      ensures observers == old(observers)[s := []]
      ensures subjects == EraseAll(old(subjects), s) && callbacks == old(callbacks)
      ensures forall o :: o in subjects ==> s !in subjects[o]
    {
      DetachKeepsConsistent(observers, subjects, s);
      EraseBackReferences(s);
      observers := observers[s := []];
    }

    /** `~Subject` erases the subject from the list of every observer it holds. */
    method DestroySubject(s: SubjectId)
      requires Valid() && s in observers
      modifies this
      ensures Valid()
      ensures observers == old(observers) - {s}
      ensures subjects == EraseAll(old(subjects), s) && callbacks == old(callbacks)
      ensures forall o :: o in subjects ==> s !in subjects[o]
    {
      DetachKeepsConsistent(observers, subjects, s);
      DropKeepsConsistent(observers[s := []], EraseAll(subjects, s), s);
      EraseBackReferences(s);
      assert observers[s := []] - {s} == observers - {s};
      observers := observers - {s};
    }

    /**
      The loop of the copy and move members: `add_observer(*observer)` for
      each entry of an observer list, in order.
     */
    method AddEach(s: SubjectId, list: seq<ObserverId>)
      requires Valid() && s in observers
      requires forall o :: o in list ==> o in subjects
      modifies this
      ensures Valid()
      ensures observers == old(observers)[s := old(observers)[s] + list] && callbacks == old(callbacks)
      ensures subjects == AppendEach(old(subjects), list, s)
    {
      assert old(observers)[s] + list[..0] == old(observers)[s];
      for i := 0 to |list|
        invariant Valid() && s in observers
        invariant observers == old(observers)[s := old(observers)[s] + list[..i]] && callbacks == old(callbacks)
        invariant subjects == AppendEach(old(subjects), list[..i], s)
      {
        AppendEachNext(old(subjects), list, i, s);
        PrefixNext(old(observers)[s], list, i);
        AddObserver(s, list[i]);
      }
      assert list[..|list|] == list;
    }

    /**
      The copy constructor registers the new subject with every observer of
      `other`, in order: each observer gains one back-reference per entry.
     */
    method CopySubject(other: SubjectId, s: SubjectId)
      requires Valid() && other in observers && s !in observers
      modifies this
      ensures Valid()
      ensures observers == old(observers)[s := old(observers)[other]]
      ensures subjects.Keys == old(subjects).Keys && callbacks == old(callbacks)
      ensures forall o :: o in subjects ==> subjects[o] == old(subjects)[o] + Repeat(s, Count(old(observers)[other], o))
    {
      NewSubject(s);
      AddEach(s, observers[other]);
      AppendEachCounts(old(subjects), old(observers)[other], s);
      assert [] + old(observers)[other] == old(observers)[other];
      UpdateTwice(old(observers), s, [], old(observers)[other]);
    }

    /**
      Copy assignment clears `s`, then registers it as the copy constructor
      does. There is no self-assignment check: `s = s` leaves `s` empty.
     */
    method CopyAssignSubject(s: SubjectId, other: SubjectId)
      requires Valid() && s in observers && other in observers
      modifies this
      ensures Valid()
      ensures subjects.Keys == old(subjects).Keys && callbacks == old(callbacks)
      ensures var copied := if s == other then [] else old(observers)[other];
        observers == old(observers)[s := copied] &&
        forall o :: o in subjects ==> subjects[o] == Erase(old(subjects)[o], s) + Repeat(s, Count(copied, o))
    {
      ClearSubject(s);
      ghost var copied := observers[other];
      AddEach(s, observers[other]);
      AppendAfterErase(old(subjects), copied, s);
      assert [] + copied == copied;
      UpdateTwice(old(observers), s, [], copied);
    }

    /**
      The move constructor copies `other`'s registrations to `s` and then
      clears `other`, which ends empty and referenced by no observer.
     */
    method MoveSubject(other: SubjectId, s: SubjectId)
      requires Valid() && other in observers && s !in observers
      modifies this
      ensures Valid()
      ensures observers == old(observers)[other := []][s := old(observers)[other]]
      ensures subjects.Keys == old(subjects).Keys && callbacks == old(callbacks)
      ensures forall o :: o in subjects ==>
        subjects[o] == Erase(old(subjects)[o], other) + Repeat(s, Count(old(subjects)[o], other))
    {
      NewSubject(s);
      TakeObservers(s, other);
      ConsistentSymmetric(old(observers), old(subjects));
      TakeOverLists(old(subjects), old(observers), other, s);
      assert [] + old(observers)[other] == old(observers)[other];
      UpdateTwice(old(observers), s, [], old(observers)[other]);
      UpdateSwap(old(observers), s, other, old(observers)[other], []);
    }

    /**
      Move assignment clears `s`, then does what the move constructor does;
      `s = std::move(s)` leaves `s` empty.
     */
    method MoveAssignSubject(s: SubjectId, other: SubjectId)
      requires Valid() && s in observers && other in observers
      modifies this
      ensures Valid()
      ensures subjects.Keys == old(subjects).Keys && callbacks == old(callbacks)
      ensures s == other ==> observers == old(observers)[s := []] && subjects == EraseAll(old(subjects), s)
      ensures s != other ==> observers == old(observers)[other := []][s := old(observers)[other]]
      ensures s != other ==> forall o :: o in subjects ==>
        subjects[o] == Erase(Erase(old(subjects)[o], s), other) + Repeat(s, Count(old(subjects)[o], other))
    {
      ClearSubject(s);
      TakeObservers(s, other);
      if s == other {
        assert old(observers)[s := []][s] + old(observers)[s := []][other] == [];
        UpdateTwice(old(observers), s, [], []);
        UpdateTwice(old(observers)[s := []], s, [], []);
        EraseAllTwice(old(subjects), s);
      } else {
        ConsistentSymmetric(old(observers), old(subjects));
        TakeOverDetached(old(subjects), old(observers), s, other);
        assert [] + old(observers)[other] == old(observers)[other];
        UpdateTwice(old(observers), s, [], old(observers)[other]);
        UpdateSwap(old(observers), s, other, old(observers)[other], []);
      }
    }

    /**
      The loop shared by the move constructor and move assignment,
      `add_observer(*observer)` for each observer of `other`, followed by
      `other.clear()`. When `s` and `other` are one subject, its list has
      already been cleared.
     */
    method TakeObservers(s: SubjectId, other: SubjectId)
      requires Valid() && s in observers && other in observers
      requires s == other ==> observers[s] == []
      modifies this
      ensures Valid()
      ensures observers == old(observers)[s := old(observers)[s] + old(observers)[other]][other := []]
      ensures subjects == EraseAll(AppendEach(old(subjects), old(observers)[other], s), other)
      ensures callbacks == old(callbacks)
    {
      AddEach(s, observers[other]);
      ClearSubject(other);
    }

    /**
      `operator()`: walks the subject's list in order and calls each
      observer's callback with the same arguments (`on_notify`); an empty
      callback raises `std::bad_function_call`, which ends the walk.
     */
    method Invoke<A>(s: SubjectId, args: A) returns (d: Delivery<A>)
      requires s in observers
      requires forall o :: o in observers[s] ==> o in callbacks
      ensures Broadcasts(observers[s], callbacks, args, d)
    {
      var list := observers[s];
      var calls := [];
      for i := 0 to |list|
        invariant |calls| == i
        invariant forall j :: 0 <= j < i ==>
          callbacks[list[j]].Callable? && calls[j] == Notification(list[j], callbacks[list[j]].target, args)
      {
        var o := list[i];
        if callbacks[o].Empty? {
          return BadFunctionCall(calls, o);
        }
        calls := calls + [Notification(o, callbacks[o].target, args)];
      }
      return Delivered(calls);
    }

  }
}
