# A verified model of `optional<Type>`

This project models the C++ class template `optional_detail::optional<Type>` and the helper
`make_optional` from `optional.hpp`. An optional holds either one value of `Type` or nothing.
It has two fields:
- a presence flag `_present`;
- raw aligned storage `_data`, into which a value is placed with placement-new and which is
  emptied with an explicit destructor call.

A few combinators sit on top: `get`, `or_else`, `filter`, `map` and `if_present`.

The model has five modules:

- `Wrappers` (wrappers.dfy): the `Option` and `Result` datatypes.
- `OptionalCore` (optional_core.dfy): the state of one optional as a value, `Cell(present, slot,
  abandoned)`, with one function per operation.
  - The storage is a `Slot`: `Vacant`, or `Live(v)` for a constructed value that has not been
    destroyed. It is kept separate from the flag.
  - `abandoned` is a ledger that is not in the C++ object. It counts the values whose lifetime
    ended without their destructor being run.
  - Two invariants are defined. `Readable` means that when the flag is set, the storage is live;
    the code always keeps it. `LiveIffPresent` means the storage is live if and only if the flag
    is set. The code relies on it: `reset()` and the destructor destroy the value only when the
    flag is set (optional.hpp:117-128), and `get()` reads it only when the flag is set
    (optional.hpp:154-169). Live storage behind a cleared flag is never destroyed.
- `OptionalLifecycle` (optional_lifecycle.dfy): after construction, the flag of an optional and
  the liveness of its storage change in only three ways: `reset`, `emplace`, and being the source
  of a move. (The held value can also be overwritten through the references that `get`,
  `or_else(Type&)`, `operator->` and `if_present` hand out; that touches neither.) This module
  models sequences of those changes and proves what holds across all of them, both for the code
  as written and for the intended `emplace`.
- `OptionalObject` (optional_object.dfy): the class `Optional<T>`, with the same fields.
  - Every constructor and method is proved against the `OptionalCore` function through
    `State()`.
  - The move constructor writes the source object's flag (`modifies other`).
- `OptionalClient` (optional_client.dfy): caller code proved from the class contracts alone.
  It covers the emplace scenario of main.cpp, copy independence, and moving out.

The model follows the code. main.cpp:38-41 calls `emplace(61)` and then `get()`, expecting a
value. The code of `emplace` never sets the flag, and the model keeps that (see Findings).
main.cpp also calls `or_else_get`, `if_present_or_else` and `std::hash<optional>`.
`optional.hpp` defines none of them, so they are not modelled.

The model finds two gaps in the invariant "live iff present":
- `emplace` constructs a value but leaves the flag cleared. `OptionalCore.Emplace`,
  `OptionalLifecycle.StrandedStaysStranded`.
- The move constructor clears the source's flag but does not destroy the moved-from value still
  in the source's storage. `OptionalCore.MoveFrom`, `OptionalCore.MovedFromValueIsAbandoned`.

In both cases the destructor later finds the flag cleared and never destroys that value.

There are two overloads of `filter`. The non-const one (optional.hpp:194-202) copies `*this`, a
non-const lvalue. That copy, like copying any non-const `optional` lvalue, is made by the
unconstrained forwarding constructor `optional(Ty&&)` (optional.hpp:92-97), not by the copy
constructor. The forwarding constructor builds `Type` from the optional itself, through
`operator bool`. `OptionalCore.ForwardingCopyOf` and `OptionalCore.FilterNonConst` model this
(see Findings).

A consequence proved in `OptionalLifecycle.NothingMakesPresent`: as written, no operation can
make an existing optional present. Only its constructors can.

## Model

| member | source | states |
|---|---|---|
| `OptionalCore.Get` | optional.hpp:154-169 | succeeds exactly when the flag is set, with the value live in storage; otherwise fails with `no_such_element_error`, whose message is "no element present in optional" (optional.hpp:78) |
| `OptionalCore.IsPresent` | optional.hpp:150-153 | under the kept invariant, true exactly when `get()` would succeed |
| `OptionalCore.OrElse` | optional.hpp:170-193 | the value `get()` would return when present, the fallback when empty |
| `OptionalCore.IfPresent` | optional.hpp:129-142 | the consumer is invoked exactly when `get()` succeeds, and is passed the value `get()` returns |
| `OptionalCore.Empty` | optional.hpp:88-91 | a consistent optional on which `get()` fails |
| `OptionalCore.Of` | optional.hpp:92-97 | a consistent optional on which `get()` returns the given value |
| `OptionalCore.CopyOf` | optional.hpp:98-105 | the copy is always consistent, has the source's presence, and `get()` gives the same outcome on both |
| `OptionalCore.ForwardingCopyOf` | optional.hpp:92-97 | the forwarding constructor applied to an optional gives a present, consistent optional holding `Type` built from the source's `is_present()` |
| `OptionalCore.MoveFrom` | optional.hpp:106-116 | the destination gets the source's `get()` outcome. The source's flag ends cleared and its storage untouched, so a present source ends inconsistent. An empty source is unchanged |
| `OptionalCore.Reset` | optional.hpp:121-128 | afterwards not present. A held value is destroyed. On an empty optional nothing changes. Consistency is preserved |
| `OptionalCore.Emplace` | optional.hpp:143-149 | as written: afterwards not present, the storage holds the new value, `get()` fails; a live value stranded before is overwritten undestroyed |
| `OptionalCore.EmplaceIntended` | optional.hpp:143-149 | corrected: afterwards consistent and `get()` returns the new value; nothing is lost from a consistent optional |
| `OptionalCore.Destruct` | optional.hpp:117-120 | the destructor only resets: a value is lost exactly when the storage is live behind a cleared flag; none is lost from a consistent optional |
| `OptionalCore.Filter` | optional.hpp:203-211 | const overload: a consistent optional, present iff the receiver is present and the predicate holds of its value, then with the same value |
| `OptionalCore.FilterNonConst` | optional.hpp:194-202 | non-const overload: present iff the receiver is present and the predicate holds, then holding `Type(true)` |
| `OptionalCore.Map` | optional.hpp:212-229 | a consistent optional with the receiver's presence, holding the mapper's result on the value when present |
| `OptionalCore.ResetIdempotent` | optional.hpp:121-128 | resetting twice equals resetting once |
| `OptionalCore.MapComposes` | optional.hpp:212-229 | `map(f)` then `map(g)` equals `map` of the composition |
| `OptionalCore.FilterConjoins` | optional.hpp:203-211 | with the const overload, `filter(p)` then `filter(q)` equals `filter` of the conjunction |
| `OptionalCore.NonConstFilterReplacesValue` | optional.hpp:194-211 | on an `optional<int>` holding 5 with an always-true predicate, the non-const overload gives 1 and the const overload gives 5 |
| `OptionalCore.NonConstFilterChainTestsConverted` | optional.hpp:194-202 | with the non-const overload, a second `filter` tests its predicate on `Type(true)`, not on the value |
| `OptionalCore.NonConstCopyOfEmptyIsPresent` | optional.hpp:92-105 | copying an empty non-const `optional<int>` gives a present optional holding 0; the copy constructor gives an empty one |
| `OptionalCore.MovedFromValueIsAbandoned` | optional.hpp:106-120 | after moving out of a present optional, the source's destructor leaves the moved-from value undestroyed |
| `OptionalCore.EmplacedValueIsAbandoned` | optional.hpp:117-149 | a value emplaced into an empty optional is never destroyed by its destructor |
| `OptionalLifecycle.Step` | optional.hpp:106-149 | every change to an existing optional (reset, emplace, move out) leaves it not present and never decreases the ledger |
| `OptionalLifecycle.Run` | optional.hpp:106-149 | any sequence of changes keeps the flag set only over live storage |
| `OptionalLifecycle.StepIntended` | optional.hpp:106-149 | the same changes with the corrected emplace keep the flag set only over live storage |
| `OptionalLifecycle.RunIntended` | optional.hpp:106-149 | the same for sequences with the corrected emplace |
| `OptionalLifecycle.NothingMakesPresent` | optional.hpp:106-149 | as written, after any non-empty sequence of changes the optional is not present |
| `OptionalLifecycle.StrandedStaysStranded` | optional.hpp:121-149 | as written, once a live value sits behind a cleared flag, it stays so. Every later emplace loses one more value |
| `OptionalLifecycle.EmplaceStrandsForever` | optional.hpp:117-149 | as written, after `emplace(v)` no sequence of changes makes `get()` succeed. The destructor loses the last value |
| `OptionalLifecycle.RunAppend` | optional.hpp:106-149 | a sequence followed by one change is the longer sequence |
| `OptionalLifecycle.RunIntendedAppend` | optional.hpp:106-149 | the same for the corrected emplace |
| `OptionalLifecycle.LastEmplaceDecidesGet` | optional.hpp:143-169 | after any history ending with `emplace(v)`, the storage holds `v`. `get()` fails as written and returns `v` with the correction |
| `OptionalLifecycle.IntendedKeepsInvariant` | optional.hpp:121-149 | with the corrected emplace, resets and emplaces keep "live iff present", and no value is ever lost up to and including destruction |
| `OptionalObject.Optional.constructor` | optional.hpp:88-91 | the new object is the empty optional |
| `OptionalObject.Optional.Of` | optional.hpp:92-97 | the new object holds the value |
| `OptionalObject.Optional.Copy` | optional.hpp:98-105 | the new object is the copy of the source; the source is unchanged |
| `OptionalObject.Optional.Forward` | optional.hpp:92-97 | the new object is `ForwardingCopyOf` of the source; the source is unchanged |
| `OptionalObject.Optional.Move` | optional.hpp:106-116 | the new object and the source end as `MoveFrom` says |
| `OptionalObject.Optional.Reset` | optional.hpp:121-128 | the object's new state is the reset of its old state |
| `OptionalObject.Optional.Destruct` | optional.hpp:117-120 | the object's new state is its destruction per `Destruct` |
| `OptionalObject.Optional.Emplace` | optional.hpp:143-149 | the object's new state is the as-written emplace of its old state |
| `OptionalObject.Optional.IsPresent` | optional.hpp:150-153 | returns the flag, as `IsPresent` |
| `OptionalObject.Optional.AsBool` | optional.hpp:230-233 | `operator bool` answers as `is_present()` |
| `OptionalObject.Optional.Get` | optional.hpp:154-169 | returns `Get` of the state and changes nothing |
| `OptionalObject.Optional.Arrow` | optional.hpp:234-241 | `operator->` succeeds and fails exactly as `get()` |
| `OptionalObject.Optional.OrElse` | optional.hpp:170-193 | returns `OrElse` of the state |
| `OptionalObject.Optional.IfPresent` | optional.hpp:129-142 | the consumer call is `IfPresent` of the state |
| `OptionalObject.Optional.Filter` | optional.hpp:203-211 | a fresh object whose state is `Filter` of the receiver's |
| `OptionalObject.Optional.FilterNonConst` | optional.hpp:194-202 | a fresh object whose state is `FilterNonConst` of the receiver's |
| `OptionalObject.Optional.Map` | optional.hpp:212-229 | a fresh object whose state is `Map` of the receiver's |
| `OptionalObject.MakeOptional` | optional.hpp:255-259 | a fresh object holding the value |
| `OptionalClient.EmplaceThenMap` | main.cpp:27-41 | `or_else(55)` on an empty optional gives 55. After `emplace(61)` the optional still reports empty, and `map(...).get()` throws instead of yielding a value |
| `OptionalClient.CopyThenEmplace` | optional.hpp:98-149 | emplacing into a copy made by the copy constructor does not change the original's `get()`; the copy then reports empty |
| `OptionalClient.MoveOut` | optional.hpp:106-116 | after moving a present optional, the source's `get()` fails, the target's returns the value, and the source's storage is still live |

## Findings

| source | as written | input that shows it | evidently intended | confidence | as-written member | corrected member |
|---|---|---|---|---|---|---|
| optional.hpp:143-149 | `emplace` resets and constructs the new value, but never sets `_present` | `optional<int> l; l.emplace(61); l.get()` throws `no_such_element_error`, and the destructor never destroys the 61 (main.cpp:38-41 expects a value) | set `_present = true` after the construction | high; not executed | `OptionalCore.Emplace`, shown by `OptionalClient.EmplaceThenMap` and `OptionalLifecycle.EmplaceStrandsForever` | `OptionalCore.EmplaceIntended`, with `OptionalLifecycle.IntendedKeepsInvariant` and `OptionalLifecycle.LastEmplaceDecidesGet` |
| optional.hpp:194-202 | the non-const `filter` returns `*this` through the unconstrained forwarding constructor, which builds `Type` from the optional via `operator bool` | `optional<int> a(5); a.filter([](int){ return true; })` holds 1, not 5 | return a copy of the receiver's value, as the const overload does (optional.hpp:203-211) | high (per C++ overload resolution); not executed | `OptionalCore.FilterNonConst`, shown by `OptionalCore.NonConstFilterReplacesValue` | `OptionalCore.Filter`, with `OptionalCore.FilterConjoins` |
| optional.hpp:92-105 | copying a non-const `optional` lvalue selects `optional(Ty&&)` over `optional(const optional&)` | `optional<int> a; optional<int> b(a);` makes `b` present, holding 0 | copy through the copy constructor: constrain `Ty` so that it is not an `optional` | high (per C++ overload resolution); not executed | `OptionalCore.ForwardingCopyOf`, shown by `OptionalCore.NonConstCopyOfEmptyIsPresent` | `OptionalCore.CopyOf` |

The class `OptionalObject.Optional` keeps the as-written `emplace`, because the model follows the
code. The corrected behaviour is stated and proved in `OptionalCore` and `OptionalLifecycle`. The
class has both overloads of `filter` and both ways of copying. The const `Filter` and the copy
constructor `Copy` are the corrected behaviour; `FilterNonConst` and `Forward` are the code as
written for non-const sources.

## Left out

- `make_void`, `void_t`, `function_result` and `function_result_t` (optional.hpp:34-72). These
  deduce a callable's return type at compile time; `Map<U>(f: T -> U)` states that type directly.
- Reference versus value results. The const and non-const overload pairs, and the three `or_else`
  overloads, are each one value-returning operation. So is `operator->`: a pointer to the held
  value is modelled as the value.
- Optional.Get: writing through the `Type&` it returns is not modelled; the model returns a copy.
  The same holds for the `Type&` returned by `or_else(Type&)`, the `Type*` returned by
  `operator->`, and the reference that `if_present` passes to its consumer. Such writes change the
  held value, but not the flag or the liveness of the storage.
- Optional.Emplace: its argument is already evaluated when the method is called. In C++,
  `l.emplace(l.get())` on a present `l` reads its argument after `reset()` has destroyed it, a use
  after destruction. The model cannot show this.
- OptionalCore.Filter: predicates are total `bool` functions. The code compares the predicate's
  result with `true` (optional.hpp:197), so a predicate returning the `int` 2 is rejected (2 is not
  1). Non-`bool` predicate results are not modelled.
- OptionalCore.ForwardingCopyOf: the model covers only a `Type` constructible from `bool`. For other
  types, such as `std::string`, the non-const `filter` and a copy of a non-const optional do not
  compile.
- FilterConjoins: stated for the const overload only. For the non-const overload the law fails; see
  `OptionalCore.NonConstFilterChainTestsConverted`.
- `std::aligned_storage`, placement-new and `reinterpret_cast`: the storage is the abstract `Slot`.
- Moved-from values keep their contents in the model, because Dafny values have no moved-from
  state. Only the liveness of the source's storage matters to the properties.
- Exceptions thrown by `Type`'s constructors, and exception safety in general.
- Side effects and invocation counts of user callables. Predicates and mappers are total Dafny
  functions; `if_present` records only whether the consumer ran and what it returned.
- `emplace`'s constructor arguments are given as the single value they construct.
- Copy and move assignment: declaring the move constructor deletes them, so they do not exist.
- main.cpp as a program (output through iostream). It also calls members that `optional.hpp` does
  not define: `or_else_get`, `if_present_or_else`, `std::hash<optional>` and a two-argument `map`.
- Floating point. `std::stod`, `quiet_NaN` and `x * 1.1` are left out; `OptionalClient.EmplaceThenMap`
  takes any integer mapper instead.
- Concurrency: the class has none; it is single-threaded.
