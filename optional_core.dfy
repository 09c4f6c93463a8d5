/**
 * The state of one `optional<Type>` as a value, and one function per operation of the class
 * (optional.hpp:82-246).
 *
 * The C++ class keeps two fields: a presence flag `_present` and raw storage `_data`, into which
 * a value is constructed with placement-new and out of which it is destroyed with an explicit
 * destructor call. The model keeps them apart as well: `present` is the flag and `slot` says
 * whether the storage currently holds a live (constructed, not yet destroyed) value.
 * The code relies on the flag to say whether the storage is live: `reset()` and the
 * destructor destroy the stored value only when the flag is set (optional.hpp:117-128), and
 * `get()` reads it only when the flag is set (optional.hpp:154-169). Storage that is live while
 * the flag is cleared is therefore never destroyed, so the flag is meant to hold exactly when the
 * storage is live (`LiveIffPresent`). The code keeps only one half of that (`Readable`); the
 * functions below follow the code, so the other half can be seen to fail.
 */
module OptionalCore {
  import opened Wrappers

  /** The raw storage `_data`: no live value, or a live value. */
  datatype Slot<T> = Vacant | Live(value: T)

  /** `no_such_element_error`, thrown by `get()` on an empty optional (optional.hpp:75-79). */
  datatype NoSuchElementError = NoSuchElementError {
    /** The text the exception carries. */
    function Message(): string {
      "no element present in optional"
    }
  }

  /**
   * One optional. `abandoned` is a ledger that is not in the C++ object: it counts the values
   * whose lifetime ended without their destructor being run, because a new value was constructed
   * over them or because the storage went away while they were still live.
   */
  datatype Cell<T> = Cell(present: bool, slot: Slot<T>, abandoned: nat)

  /** The half of the invariant the code keeps: when the flag is set, the storage is live. */
  predicate Readable<T>(c: Cell<T>) {
    c.present ==> c.slot.Live?
  }

  /**
   * The storage holds a live value if and only if the flag is set: what `reset()`, the
   * destructor and `get()` assume when they consult only the flag.
   */
  predicate LiveIffPresent<T>(c: Cell<T>) {
    c.present <==> c.slot.Live?
  }

  /** 1 when the storage still holds a live value, which is then lost without destruction. */
  function Abandons<T>(s: Slot<T>): nat {
    if s.Live? then 1 else 0
  }

  // ---------------------------------------------------------------- queries

  /** `get()` (optional.hpp:154-169): the held value, or `no_such_element_error` when empty. */
  function Get<T>(c: Cell<T>): (r: Result<T, NoSuchElementError>)
    requires Readable(c)
    ensures r.Success? <==> c.present
    ensures r.Success? ==> c.slot == Live(r.value)
    ensures r.Failure? ==> r.error == NoSuchElementError
    ensures r.Failure? ==> r.error.Message() == "no element present in optional"
  {
    if !c.present then Failure(NoSuchElementError) else Success(c.slot.value)
  }

  /**
   * `is_present()` and `operator bool` (optional.hpp:150-153, 230-233). The flag alone decides,
   * so a value emplaced into storage without setting the flag is not reported.
   */
  function IsPresent<T>(c: Cell<T>): (b: bool)
    ensures Readable(c) ==> (b <==> Get(c).Success?)
  {
    c.present
  }

  /**
   * The three `or_else` overloads (optional.hpp:170-193), which differ only in whether a
   * reference or a copy is returned: the held value when there is one, else the fallback.
   */
  function OrElse<T>(c: Cell<T>, fallback: T): (r: T)
    requires Readable(c)
    ensures Get(c).Success? ==> r == Get(c).value
    ensures Get(c).Failure? ==> r == fallback
  {
    if c.present then c.slot.value else fallback
  }

  /**
   * `if_present(consumer)` (optional.hpp:129-142): the consumer is called with the held value
   * exactly when there is one. The result records that call: `Some` of what the consumer
   * returned when it was invoked, `None` when it was not.
   */
  function IfPresent<T, R>(c: Cell<T>, consumer: T -> R): (call: Option<R>)
    requires Readable(c)
    ensures call.Some? <==> Get(c).Success?
    ensures Get(c).Success? ==> call.value == consumer(Get(c).value)
  {
    if c.present then Some(consumer(c.slot.value)) else None
  }

  // ---------------------------------------------------------------- construction

  /** `optional()` (optional.hpp:88-91): only the flag is written, the storage stays unused. */
  function Empty<T>(): (r: Cell<T>)
    ensures LiveIffPresent(r) && r.abandoned == 0
    ensures Get(r) == Failure(NoSuchElementError)
  {
    Cell(false, Vacant, 0)
  }

  /**
   * `optional(Ty&& value)` (optional.hpp:92-97) and `make_optional` (optional.hpp:255-259): the
   * value is constructed into the storage, then the flag is set.
   */
  function Of<T>(v: T): (r: Cell<T>)
    ensures LiveIffPresent(r) && r.abandoned == 0
    ensures Get(r) == Success(v)
  {
    Cell(true, Live(v), 0)
  }

  /**
   * `optional(const optional&)` (optional.hpp:98-105): a value is copy-constructed only when the
   * source's flag is set, and the flag is copied. A live value in the source's storage that its
   * flag does not report is not copied, so the copy is always consistent.
   */
  function CopyOf<T>(src: Cell<T>): (r: Cell<T>)
    requires Readable(src)
    ensures LiveIffPresent(r) && r.abandoned == 0
    ensures r.present == src.present
    ensures Get(r) == Get(src)
  {
    Cell(src.present, if src.present then Live(src.slot.value) else Vacant, 0)
  }

  /**
   * `optional(optional&&)` (optional.hpp:106-116), as the pair (new optional, source afterwards).
   * A present source: its value is move-constructed into the new storage and the source's flag
   * is cleared, but the moved-from value in the source's storage is not destroyed (its contents
   * are kept here; value semantics have no moved-from state). An empty source is untouched.
   */
  function MoveFrom<T>(src: Cell<T>): (r: (Cell<T>, Cell<T>))
    requires Readable(src)
    ensures LiveIffPresent(r.0) && r.0.abandoned == 0
    ensures Get(r.0) == Get(src)
    ensures !r.1.present && r.1.slot == src.slot && r.1.abandoned == src.abandoned
    ensures !src.present ==> r.1 == src
    ensures src.present ==> !LiveIffPresent(r.1)
  {
    if src.present then (Cell(true, Live(src.slot.value), 0), src.(present := false))
    else (Cell(false, Vacant, 0), src)
  }

  /**
   * The forwarding constructor `optional(Ty&&)` (optional.hpp:92-97) given a non-const lvalue
   * `optional&`. Nothing constrains `Ty`, so for such an argument it binds more closely than
   * `optional(const optional&)` and overload resolution picks it: it constructs `Type` from the
   * optional object itself and sets the flag. For a `Type` constructible from `bool` the
   * conversion goes through `operator bool` (optional.hpp:230-233), that is, through
   * `is_present()`; `fromBool` is `Type`'s conversion from `bool`.
   */
  function ForwardingCopyOf<T>(src: Cell<T>, fromBool: bool -> T): (r: Cell<T>)
    ensures LiveIffPresent(r) && r.abandoned == 0
    ensures Get(r) == Success(fromBool(IsPresent(src)))
  {
    Of(fromBool(IsPresent(src)))
  }

  /** `int`'s conversion from `bool`: `true` is 1, `false` is 0. */
  function IntFromBool(b: bool): int {
    if b then 1 else 0
  }

  // ---------------------------------------------------------------- state changes

  /**
   * `reset()` (optional.hpp:121-128): when the flag is set it is cleared and the value destroyed;
   * otherwise nothing happens, whatever the storage holds.
   */
  function Reset<T>(c: Cell<T>): (r: Cell<T>)
    ensures !r.present && r.abandoned == c.abandoned
    ensures c.present ==> r.slot == Vacant
    ensures !c.present ==> r == c
    ensures LiveIffPresent(c) ==> LiveIffPresent(r)
  {
    if c.present then Cell(false, Vacant, c.abandoned) else c
  }

  /**
   * `emplace(args...)` as written (optional.hpp:143-149): `reset()`, then a new value is
   * constructed into the storage, and the flag is never set. A live value still in the storage
   * after the reset (one the flag did not report) is overwritten without being destroyed.
   */
  function Emplace<T>(c: Cell<T>, v: T): (r: Cell<T>)
    ensures !r.present && r.slot == Live(v) && !LiveIffPresent(r)
    ensures Get(r) == Failure(NoSuchElementError)
    ensures r.abandoned == c.abandoned + (if !c.present && c.slot.Live? then 1 else 0)
  {
    var d := Reset(c);
    Cell(d.present, Live(v), d.abandoned + Abandons(d.slot))
  }

  /**
   * `emplace` as its use in main.cpp:38-41 and the invariant expect it: the same reset and
   * construction, then the flag is set.
   */
  function EmplaceIntended<T>(c: Cell<T>, v: T): (r: Cell<T>)
    ensures LiveIffPresent(r)
    ensures Get(r) == Success(v)
    ensures LiveIffPresent(c) ==> r.abandoned == c.abandoned
  {
    var d := Reset(c);
    Cell(true, Live(v), d.abandoned + Abandons(d.slot))
  }

  /**
   * `~optional()` (optional.hpp:117-120): `reset()`, after which the storage itself goes away.
   * A value still live at that point is never destroyed.
   */
  function Destruct<T>(c: Cell<T>): (r: Cell<T>)
    ensures !r.present && r.slot == Vacant
    ensures r.abandoned == c.abandoned + (if !c.present && c.slot.Live? then 1 else 0)
    ensures LiveIffPresent(c) ==> r.abandoned == c.abandoned
  {
    var d := Reset(c);
    Cell(false, Vacant, d.abandoned + Abandons(d.slot))
  }

  // ---------------------------------------------------------------- combinators

  /**
   * The const overload of `filter(predicate)` (optional.hpp:203-211): a copy of the receiver,
   * made by the copy constructor, when it is present and the predicate holds of its value; an
   * empty optional otherwise.
   */
  function Filter<T>(c: Cell<T>, p: T -> bool): (r: Cell<T>)
    requires Readable(c)
    ensures LiveIffPresent(r) && r.abandoned == 0
    ensures r.present <==> c.present && p(c.slot.value)
    ensures r.present ==> Get(r) == Get(c)
  {
    if c.present && p(c.slot.value) then CopyOf(c) else Empty()
  }

  /**
   * The non-const overload of `filter(predicate)` (optional.hpp:194-202), as written. Its
   * `return *this;` copies a non-const lvalue, which selects the forwarding constructor
   * (`ForwardingCopyOf`): when the predicate holds, the result holds `Type(true)`, not the
   * receiver's value.
   */
  function FilterNonConst<T>(c: Cell<T>, p: T -> bool, fromBool: bool -> T): (r: Cell<T>)
    requires Readable(c)
    ensures LiveIffPresent(r) && r.abandoned == 0
    ensures r.present <==> c.present && p(c.slot.value)
    ensures r.present ==> Get(r) == Success(fromBool(true))
  {
    if c.present && p(c.slot.value) then ForwardingCopyOf(c, fromBool) else Empty()
  }

  /**
   * `map(mapper)` (optional.hpp:212-229): a new optional holding the mapper's result when the
   * receiver is present, an empty optional of the result type otherwise.
   */
  function Map<T, U>(c: Cell<T>, f: T -> U): (r: Cell<U>)
    requires Readable(c)
    ensures LiveIffPresent(r) && r.abandoned == 0
    ensures r.present == c.present
    ensures c.present ==> Get(r) == Success(f(c.slot.value))
  {
    if c.present then Of(f(c.slot.value)) else Empty()
  }

  // ---------------------------------------------------------------- laws

  /** Resetting twice is resetting once. */
  lemma ResetIdempotent<T>(c: Cell<T>)
    ensures Reset(Reset(c)) == Reset(c)
  {
  }

  /** Mapping twice is mapping once with the composition. */
  lemma MapComposes<T, U, V>(c: Cell<T>, f: T -> U, g: U -> V)
    requires Readable(c)
    ensures Map(Map(c, f), g) == Map(c, x => g(f(x)))
  {
  }

  /** With the const overload, filtering twice is filtering once with the conjunction. */
  lemma FilterConjoins<T>(c: Cell<T>, p: T -> bool, q: T -> bool)
    requires Readable(c)
    ensures Filter(Filter(c, p), q) == Filter(c, x => p(x) && q(x))
  {
  }

  /**
   * With the non-const overload, filtering an `optional<int>` holding 5 by an always-true
   * predicate gives an optional holding 1; the const overload gives 5.
   */
  lemma NonConstFilterReplacesValue()
    ensures Get(FilterNonConst(Of(5), (x: int) => true, IntFromBool)) == Success(1)
    ensures Get(Filter(Of(5), (x: int) => true)) == Success(5)
  {
  }

  /**
   * With the non-const overload, a second `filter` tests its predicate on `Type(true)` instead
   * of on the receiver's value, so the conjunction law of the const overload fails.
   */
  lemma NonConstFilterChainTestsConverted<T>(c: Cell<T>, p: T -> bool, q: T -> bool, fromBool: bool -> T)
    requires Readable(c) && c.present && p(c.slot.value)
    ensures FilterNonConst(FilterNonConst(c, p, fromBool), q, fromBool).present == q(fromBool(true))
  {
  }

  /**
   * Copy-constructing from a non-const empty `optional<int>` gives a present optional holding
   * 0, where the copy constructor gives an empty one.
   */
  lemma NonConstCopyOfEmptyIsPresent()
    ensures Get(ForwardingCopyOf(Empty<int>(), IntFromBool)) == Success(0)
    ensures Get(CopyOf(Empty<int>())) == Failure(NoSuchElementError)
  {
  }

  /**
   * Moving from a present optional leaves a live value behind that the source's destructor
   * will not destroy.
   */
  lemma MovedFromValueIsAbandoned<T>(v: T)
    ensures Destruct(MoveFrom(Of(v)).1).abandoned == 1
  {
  }

  /** A value emplaced as written is never destroyed: the destructor finds the flag cleared. */
  lemma EmplacedValueIsAbandoned<T>(v: T)
    ensures Destruct(Emplace(Empty(), v)).abandoned == 1
  {
  }
}
