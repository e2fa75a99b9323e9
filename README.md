# cpp-observe registration graph, modelled in Dafny

cpp-observe is a header-only C++ observer library. A `Subject<Args...>` keeps
an ordered vector of the observers it notifies. An `Observer<Args...>` keeps
an ordered vector of the subjects it is registered with, plus a
`std::function` callback. Every structural operation edits both vectors:
add, remove, the two `clear`s, the destructors, and the copy and move
members. Calling a subject walks its vector in order and calls each
observer's callback.

The project models two headers:
- `include/cpp_observe.hpp` (namespace `Observe`), as module `Observe`;
- the earlier `src/Templated_observer.h` (namespace `T_observer`), as module
  `TemplatedObserver`.

Each header becomes one imperative class, `Registry`. It holds the objects
of one program run in three maps:
- `observers[s]` is subject `s`'s `observers_`;
- `subjects[o]` is observer `o`'s `subjects_`;
- `callbacks[o]` is observer `o`'s `function_`.

Objects are named by their identities (`SubjectId`, `ObserverId`), which
stand for their addresses. A constructor receives the new object's identity,
and a destructor removes it.

Every operation of the library keeps the class invariant `Valid()`. The
only exception is the internal helper `EraseBackReferences` (the loop
shared by `clear` and `~Subject`), which leaves the subject's own list to
its caller. The invariant is the library's bidirectional bookkeeping: no
vector names a dead object, and observer `o` occurs in `observers[s]`
exactly as often as `s` occurs in `subjects[o]`.

Each method states its whole new state. The loops are the source's loops:
`Observer::clear` and `~Observer` are `while` loops, and `clear`, `~Subject`,
`operator()` and the copy and move members are `for` loops.

Module `Links` holds the generic list algebra, stated once for both sides:
- `Count`;
- `Erase`, the erase-remove idiom;
- `EraseAll`;
- `AppendEach`, the effect of a loop of `add_observer` calls;
- the invariant `Consistent` and the lemmas showing each edit preserves it.

Module `Broadcasting` holds what a call of a subject delivers. The
predicate `Broadcasts` defines it:
- every entry is notified in order, once per entry, with the same arguments;
- the walk stops at the first observer whose function is empty, where C++
  raises `std::bad_function_call`.

Callback bodies are not executed. A callback is an opaque `Callable(target)`
or `Empty`, and a call is recorded as a `Notification`.

The model follows the code as written:
- `remove_observer` erases *every* occurrence of the pair on both sides,
  not only the first. A subject holding observer A twice and B once, with A
  then removed, notifies only B.
- Moving an observer appends the destination at the *end* of each subject's
  list and then erases the source. The destination does not take the
  source's place in the order.
- The subject copy and move members pass `observer` (a pointer) to
  `add_observer(Observer&)`. That would not compile once instantiated. The
  model uses the evident `add_observer(*observer)`.
- Subject copy and move assignment have no self-check. `s = s` and
  `s = std::move(s)` clear `s` first and then copy its now empty list, so
  `s` ends with no observers. `CopyAssignSubject` and `MoveAssignSubject`
  state this.

## Model

| member | source | states |
|---|---|---|
| Links.Count | include/cpp_observe.hpp:42 | the number of occurrences of a handle in a registration vector: never more than the length, and positive exactly when the handle is present |
| Links.CountAppend | include/cpp_observe.hpp:220-221 | `push_back` onto a vector raises the count of the appended handle by one and leaves every other count unchanged (counts add over concatenation) |
| Links.CountRepeat | include/cpp_observe.hpp:109-112 | `n` appended copies of a handle count `n` for that handle and 0 for any other |
| Links.Erase | include/cpp_observe.hpp:228-231 | erase-remove keeps exactly the entries different from the erased handle, with every other handle's count unchanged and the length shrunk by the erased handle's count; erasing an absent handle changes nothing |
| Links.EraseAppend | include/cpp_observe.hpp:228-231 | erase-remove is stable: erasing from a concatenation erases from each part and keeps their order |
| Links.EraseUndoesAppend | include/cpp_observe.hpp:217-232 | removing a pair that was just added to a list without it restores the list |
| Links.EraseBeforeRepeat | include/cpp_observe.hpp:109-113 | erasing the moved-from observer does not touch the destination's entries appended after it |
| Links.EraseAllAbsorbs | include/cpp_observe.hpp:150-153 | one round of the `Observer::clear` loop does not change what erasing the observer everywhere gives |
| Links.EraseAllTwice | include/cpp_observe.hpp:203-211 | clearing a subject a second time changes nothing on the observer side |
| Links.EraseAllAbsent | include/cpp_observe.hpp:238-243 | erasing a subject that no observer lists changes no observer's list |
| Links.AppendEach | include/cpp_observe.hpp:109-112 | a loop of `add_observer` calls keeps the set of live objects |
| Links.AppendEachNext | include/cpp_observe.hpp:109-112 | one more iteration of an `add_observer` loop appends one entry to the list of that iteration's object only |
| Links.AppendEachCount | include/cpp_observe.hpp:109-112 | after an `add_observer` loop, each object's list is its old list followed by one new entry per occurrence of that object in the looped-over list |
| Links.AppendEachCounts | include/cpp_observe.hpp:172-175 | `AppendEachCount` for every object at once |
| Links.AppendAfterErase | include/cpp_observe.hpp:182-186 | after `clear` then the copy loop, each observer's list is its old list with the subject erased, followed by one back-reference per entry of the copied list |
| Links.ConsistentSymmetric | include/cpp_observe.hpp:42 | the bidirectional invariant reads the same from the subject side and from the observer side |
| Links.AddKeyKeepsConsistent | include/cpp_observe.hpp:53 | a newly constructed object, with an empty list, keeps the invariant and is named by nobody |
| Links.DropKeepsConsistent | include/cpp_observe.hpp:81-86 | destroying an object whose list is empty keeps the invariant, because no other list names it |
| Links.LinkKeepsConsistent | include/cpp_observe.hpp:217-222 | `add_observer` raises both counts of the pair by one, so the invariant is kept |
| Links.UnlinkKeepsConsistent | include/cpp_observe.hpp:225-232 | `remove_observer` zeroes both counts of the pair together, so the invariant is kept |
| Links.UnlinkUnlinkedIsNoop | include/cpp_observe.hpp:225-232 | removing an observer that was never added changes neither side |
| Links.DetachKeepsConsistent | include/cpp_observe.hpp:235-245 | emptying a subject's list while erasing it from every observer's list keeps the invariant |
| Links.EraseAllUnlisted | include/cpp_observe.hpp:147-154 | once an observer's `subjects_` is empty, no subject's list names it |
| Links.TakeOverLists | include/cpp_observe.hpp:105-114 | after a move, each list has the source's entries removed and one destination entry at the end per source entry it held |
| Links.TakeOverDetached | include/cpp_observe.hpp:117-130 | the same for move assignment, where the destination's own earlier entries are erased first |
| Broadcasting.BroadcastIsDeterministic | include/cpp_observe.hpp:248-255 | calling a subject has exactly one outcome: which observers are notified and where an empty function stops the walk |
| Broadcasting.BroadcastFansOut | include/cpp_observe.hpp:248-255 | with every function set, each entry is notified in order, once per entry, so an observer added twice is notified twice |
| Broadcasting.BroadcastSkipsUnregistered | include/cpp_observe.hpp:248-255 | an observer not in the subject's list is never notified, so a removed or destroyed observer is not called again |
| Broadcasting.BroadcastToNobody | include/cpp_observe.hpp:235-245 | a cleared subject notifies nobody |
| Observe.Registry.NewObserver | include/cpp_observe.hpp:72-78 | a new observer holds the given function and is attached to nothing; the invariant holds |
| Observe.Registry.DestroyObserver | include/cpp_observe.hpp:81-86 | after `~Observer` the observer is gone, and every subject's list has lost all of its entries for it |
| Observe.Registry.CopyObserver | include/cpp_observe.hpp:89-91 | the copy holds the source's function and starts detached; nothing else changes |
| Observe.Registry.CopyAssignObserver | include/cpp_observe.hpp:94-102 | the destination is detached from every subject, then holds the source's function |
| Observe.Registry.MoveObserver | include/cpp_observe.hpp:105-114 | the destination takes the source's subjects and function; every subject lists the destination at its end once per former source entry; the source is detached, named by no subject, and holds an empty function |
| Observe.Registry.MoveAssignObserver | include/cpp_observe.hpp:117-130 | as `MoveObserver`, but the destination's own registrations are erased first |
| Observe.Registry.TakeRegistrations | include/cpp_observe.hpp:109-113 | the loop shared by both observer moves followed by `other.clear()`: the destination's list grows by the source's list, and the source ends detached |
| Observe.Registry.SetFunction | include/cpp_observe.hpp:133-137 | `set_function` changes the function and no registration |
| Observe.Registry.ClearObserver | include/cpp_observe.hpp:147-154 | the `while` loop terminates because each `remove_observer` strictly shrinks `subjects_`; afterwards `subjects_` is empty and no subject lists the observer |
| Observe.Registry.JoinEach | include/cpp_observe.hpp:109-112 | `subject->add_observer(*this)` for each subject in order: the observer's list grows by that list, and each subject gains one entry per occurrence |
| Observe.Registry.NewSubject | include/cpp_observe.hpp:53 | a new subject has no observers and no observer names it |
| Observe.Registry.AddObserver | include/cpp_observe.hpp:217-222 | one entry is appended at the end of each side, and nothing else changes |
| Observe.Registry.RemoveObserver | include/cpp_observe.hpp:225-232 | every occurrence is erased on both sides, survivors keep their order, and nothing changes when the pair was absent |
| Observe.Registry.EraseBackReferences | include/cpp_observe.hpp:160-165 | the loop shared by `~Subject` and `clear` erases the subject from the list of every observer it holds |
| Observe.Registry.ClearSubject | include/cpp_observe.hpp:235-245 | afterwards the subject's list is empty and no observer names the subject |
| Observe.Registry.DestroySubject | include/cpp_observe.hpp:157-166 | after `~Subject` the subject is gone and no observer names it |
| Observe.Registry.AddEach | include/cpp_observe.hpp:172-175 | `add_observer(*observer)` for each entry in order: the subject's list grows by exactly that list, and each observer gains one back-reference per entry |
| Observe.Registry.CopySubject | include/cpp_observe.hpp:169-176 | the copy's list equals the source's list, and each observer gains one back-reference to the copy per entry |
| Observe.Registry.CopyAssignSubject | include/cpp_observe.hpp:179-189 | the destination is cleared, then its list equals the source's list, with back-references to match; self-assignment leaves it empty |
| Observe.Registry.MoveSubject | include/cpp_observe.hpp:192-200 | the destination's list equals the source's; the source ends empty and named by no observer; each observer's back-references to the source become references to the destination, at the end |
| Observe.Registry.MoveAssignSubject | include/cpp_observe.hpp:203-214 | as `MoveSubject`, with the destination's own back-references erased first; self-move-assignment leaves the subject empty |
| Observe.Registry.TakeObservers | include/cpp_observe.hpp:195-199 | the loop shared by both subject moves followed by `other.clear()`: the destination's list grows by the source's list, and the source ends empty |
| Observe.Registry.Invoke | include/cpp_observe.hpp:248-255 | `operator()` with `on_notify` notifies the subject's entries in order with the same arguments, stopping at the first empty function |
| TemplatedObserver.Registry.NewObserver | src/Templated_observer.h:54-56 | a new observer holds the given function and is attached to nothing |
| TemplatedObserver.Registry.DestroyObserver | src/Templated_observer.h:60-67 | the `while` loop terminates; afterwards the observer is gone and no subject lists it |
| TemplatedObserver.Registry.NewSubject | src/Templated_observer.h:38-51 | the implicit default constructor: a subject with no observers that no observer names |
| TemplatedObserver.Registry.DestroySubject | src/Templated_observer.h:77-86 | after `~Subject` the subject is gone and no observer's `subjects_` mentions it |
| TemplatedObserver.Registry.EraseBackReferences | src/Templated_observer.h:78-83 | the loop shared by `~Subject` and `clear` erases the subject from the `subjects_` of every observer it holds, and changes nothing else |
| TemplatedObserver.Registry.AddObserver | src/Templated_observer.h:89-94 | one entry is appended at the end of each side, and nothing else changes |
| TemplatedObserver.Registry.RemoveObserver | src/Templated_observer.h:97-104 | every occurrence is erased on both sides, and nothing changes when the pair was absent |
| TemplatedObserver.Registry.Clear | src/Templated_observer.h:107-117 | afterwards the subject's list is empty and no formerly attached observer names the subject |
| TemplatedObserver.Registry.Invoke | src/Templated_observer.h:120-127 | the registered observers are notified in registration order, once per entry, with the same arguments, stopping at the first empty function |

## Left out

- Callback bodies and argument packs are not executed. A callback is an identity, and a call is recorded as a `Notification`.
- Callbacks are assumed to return normally. In C++ a callback that throws ends the walk of `operator()` and the exception reaches the caller, as an empty function does; the model records only the empty-function abort, so `Broadcasting.BroadcastFansOut` holds under this assumption.
- Re-entrant callbacks that add or remove observers while a subject is being called are not modelled. In C++ that invalidates the iterator, which is undefined behaviour.
- A moved-from `std::function` is modelled as empty. The C++ standard leaves it valid but unspecified; common implementations empty it.
- Observe.Registry.MoveAssignObserver: requires two distinct observers. Self-move-assignment leaves the `std::function` in an unspecified state.
- The compiler-generated copy constructor and copy assignment of `src/Templated_observer.h`'s classes are not modelled. They copy the vectors verbatim without updating the other side, which breaks the bidirectional invariant.
- The `+=`/`-=` operators and the lowercase `observe::subject`/`observe::observer` API used by the tests are not modelled. No header defines them.
- `src/main.cpp` (console I/O), `src/observer_tests.cpp`, the Catch test harness and the conan packaging are not part of this model.
- Objects are created and destroyed only through the registry. Object lifetime, storage and the non-owning pointers themselves are not modelled.
