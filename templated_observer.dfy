/**
  The `T_observer` namespace of src/Templated_observer.h, the earlier
  version of the design: an `Observer` built from a function, a `Subject`
  with `add_observer`, `remove_observer`, `clear` and `operator()`, and the
  two destructors. It has no copy or move members of its own.

  The registry encoding is the one of module `Observe`: `observers[s]` is a
  subject's `observers_`, `subjects[o]` an observer's `subjects_` and
  `callbacks[o]` its `function_`.
 */
module TemplatedObserver {
  import opened Links
  import opened Broadcasting

  class Registry {
    var observers: map<SubjectId, seq<ObserverId>>
    var subjects: map<ObserverId, seq<SubjectId>>
    var callbacks: map<ObserverId, Callback>

    /** Every registration is recorded on both sides, once per call of add_observer. */
    ghost predicate Valid()
      reads this
    {
      Consistent(observers, subjects) && subjects.Keys == callbacks.Keys
    }

    constructor ()
      ensures Valid()
      ensures observers == map[] && subjects == map[] && callbacks == map[]
    {
      observers, subjects, callbacks := map[], map[], map[];
    }

    /** `explicit Observer(function)`: a new observer attached to nothing. */
    method NewObserver(o: ObserverId, callback: Callback)
      requires Valid() && o !in subjects
      modifies this
      ensures Valid()
      ensures subjects == old(subjects)[o := []] && callbacks == old(callbacks)[o := callback]
      ensures observers == old(observers)
      ensures forall s :: s in observers ==> o !in observers[s]
    {
      AddKeyKeepsConsistent(subjects, observers, o);
      subjects := subjects[o := []];
      callbacks := callbacks[o := callback];
    }

    /**
      `~Observer`: asks the first subject in `subjects_` to remove the
      observer until the list is empty. Each round erases that subject
      entirely from the list, so the list shrinks and the loop ends; then
      the observer is gone and no subject holds it.
     */
    method DestroyObserver(o: ObserverId)
      requires Valid() && o in subjects
      modifies this
      ensures Valid()
      ensures subjects == old(subjects) - {o} && callbacks == old(callbacks) - {o}
      ensures observers == EraseAll(old(observers), o)
      ensures forall s :: s in observers ==> o !in observers[s]
    {
      while |subjects[o]| > 0
        invariant Valid() && o in subjects
        invariant subjects == old(subjects)[o := subjects[o]] && callbacks == old(callbacks)
        invariant EraseAll(observers, o) == EraseAll(old(observers), o)
        decreases |subjects[o]|
      {
        var first := subjects[o][0];
        EraseAllAbsorbs(observers, first, o);
        RemoveObserver(first, o);
      }
      ConsistentSymmetric(observers, subjects);
      EraseAllUnlisted(subjects, observers, o);
      DropKeepsConsistent(subjects, observers, o);
      assert subjects - {o} == old(subjects) - {o};
      subjects := subjects - {o};
      callbacks := callbacks - {o};
    }

    /** The implicit default constructor of `Subject`: a subject with no observers. */
    method NewSubject(s: SubjectId)
      requires Valid() && s !in observers
      modifies this
      ensures Valid()
      ensures observers == old(observers)[s := []]
      ensures subjects == old(subjects) && callbacks == old(callbacks)
      ensures forall o :: o in subjects ==> s !in subjects[o]
    {
      AddKeyKeepsConsistent(observers, subjects, s);
      observers := observers[s := []];
    }

    /**
      The loop shared by `clear` and `~Subject`: erase `s` from the
      `subjects_` of every observer in its list. The subject's own list is
      left to the caller, so the registry is consistent again only once that
      list is emptied or dropped.
     */
    method EraseBackReferences(s: SubjectId)
      requires Valid() && s in observers
      modifies this
      ensures subjects == EraseAll(old(subjects), s)
      ensures observers == old(observers) && callbacks == old(callbacks)
    {
      var list := observers[s];
      for i := 0 to |list|
        invariant observers == old(observers) && callbacks == old(callbacks)
        invariant subjects.Keys == old(subjects).Keys
        invariant EraseAll(subjects, s) == EraseAll(old(subjects), s)
        invariant forall o :: o in list[..i] ==> s !in subjects[o]
        invariant forall o :: o in subjects && s in subjects[o] ==> s in old(subjects)[o]
      {
        var o := list[i];
        EraseAllAbsorbs(subjects, o, s);
        subjects := subjects[o := Erase(subjects[o], s)];
      }
      forall o | o in subjects
        ensures s !in subjects[o]
      {
        assert list[..|list|] == list;
        assert Count(old(subjects)[o], s) == Count(list, o);
      }
      EraseAllAbsent(subjects, s);
    }

    /**
      `~Subject`: erases the subject from the `subjects_` of every observer
      in its list; then the subject is gone.
     */
    method DestroySubject(s: SubjectId)
      requires Valid() && s in observers
      modifies this
      ensures Valid()
      ensures observers == old(observers) - {s}
      ensures subjects == EraseAll(old(subjects), s) && callbacks == old(callbacks)
      ensures forall o :: o in subjects ==> s !in subjects[o]
    {
      DetachKeepsConsistent(observers, subjects, s);
      DropKeepsConsistent(observers[s := []], EraseAll(subjects, s), s);
      EraseBackReferences(s);
      assert observers[s := []] - {s} == observers - {s};
      observers := observers - {s};
    }

    /**
      `add_observer`: appends the observer to the subject's list and the
      subject to the observer's list, one entry each, and nothing else.
     */
    method AddObserver(s: SubjectId, o: ObserverId)
      requires Valid() && s in observers && o in subjects
      modifies this
      ensures Valid()
      ensures observers == old(observers)[s := old(observers)[s] + [o]]
      ensures subjects == old(subjects)[o := old(subjects)[o] + [s]]
      ensures callbacks == old(callbacks)
    {
      LinkKeepsConsistent(observers, subjects, s, o);
      observers := observers[s := observers[s] + [o]];
      subjects := subjects[o := subjects[o] + [s]];
    }

    /**
      `remove_observer`: erases every occurrence of the observer from the
      subject's list and of the subject from the observer's list; nothing
      changes when the observer was not registered.
     */
    method RemoveObserver(s: SubjectId, o: ObserverId)
      requires Valid() && s in observers && o in subjects
      modifies this
      ensures Valid()
      ensures observers == old(observers)[s := Erase(old(observers)[s], o)]
      ensures subjects == old(subjects)[o := Erase(old(subjects)[o], s)]
      ensures callbacks == old(callbacks)
      ensures o !in old(observers)[s] ==> observers == old(observers) && subjects == old(subjects)
    {
      if o !in observers[s] {
        UnlinkUnlinkedIsNoop(observers, subjects, s, o);
      }
      UnlinkKeepsConsistent(observers, subjects, s, o);
      observers := observers[s := Erase(observers[s], o)];
      subjects := subjects[o := Erase(subjects[o], s)];
    }

    /**
      `clear`: erases the subject from the `subjects_` of every observer in
      its list, then empties the list.
     */
    method Clear(s: SubjectId)
      requires Valid() && s in observers
      modifies this
      ensures Valid()
      ensures observers == old(observers)[s := []]
      ensures subjects == EraseAll(old(subjects), s) && callbacks == old(callbacks)
      ensures forall o :: o in subjects ==> s !in subjects[o]
    {
      DetachKeepsConsistent(observers, subjects, s);
      EraseBackReferences(s);
      observers := observers[s := []];
    }

    /**
      `operator()`: walks the subject's list in order and calls each
      observer's function with the same arguments (`on_notify`); an empty
      function raises `std::bad_function_call`, which ends the walk.
     */
    method Invoke<A>(s: SubjectId, args: A) returns (d: Delivery<A>)
      requires s in observers
      requires forall o :: o in observers[s] ==> o in callbacks
      ensures Broadcasts(observers[s], callbacks, args, d)
    {
      var list := observers[s];
      var calls := [];
      for i := 0 to |list|
        invariant |calls| == i
        invariant forall j :: 0 <= j < i ==>
          callbacks[list[j]].Callable? && calls[j] == Notification(list[j], callbacks[list[j]].target, args)
      {
        var o := list[i];
        if callbacks[o].Empty? {
          return BadFunctionCall(calls, o);
        }
        calls := calls + [Notification(o, callbacks[o].target, args)];
      }
      return Delivered(calls);
    }
  }
}
