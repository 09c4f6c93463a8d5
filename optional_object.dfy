/**
 * The class `optional_detail::optional<Type>` (optional.hpp:82-246) and `make_optional`
 * (optional.hpp:255-259). The fields are the C++ fields: the flag `_present` and the storage
 * `_data`, modelled as a `Slot`. Each constructor and method is proved against the function of
 * `OptionalCore` for the same operation, through `State()`.
 */
module OptionalObject {
  import opened Wrappers
  import Core = OptionalCore

  class Optional<T> {
    /** `_present`. */
    var present: bool
    /** `_data`: whether the aligned storage holds a live value, and which. */
    var slot: Core.Slot<T>
    /** Values whose lifetime ended in this object without their destructor being run. */
    ghost var abandoned: nat

    /** The abstract state of this optional. */
    ghost function State(): Core.Cell<T>
      reads this
    {
      Core.Cell(present, slot, abandoned)
    }

    /** The object invariant the code keeps: the flag is set only over live storage. */
    ghost predicate Valid()
      reads this
    {
      Core.Readable(State())
    }

    /** `optional()` (optional.hpp:88-91). */
    constructor ()
      ensures Valid() && State() == Core.Empty()
    {
      present := false;
      slot := Core.Vacant;
      abandoned := 0;
    }

    /** `optional(Ty&& value)` (optional.hpp:92-97). */
    constructor Of(v: T)
      ensures Valid() && State() == Core.Of(v)
    {
      slot := Core.Live(v);
      present := true;
      abandoned := 0;
    }

    /**
     * `optional(const optional&)` (optional.hpp:98-105), which overload resolution picks for a
     * const source; the source is only read.
     */
    constructor Copy(other: Optional<T>)
      requires other.Valid()
      ensures Valid() && State() == Core.CopyOf(other.State())
      ensures other.State() == old(other.State())
    {
      if other.present {
        slot := Core.Live(other.slot.value);
      } else {
        slot := Core.Vacant;
      }
      present := other.present;
      abandoned := 0;
    }

    /**
     * The forwarding constructor `optional(Ty&&)` (optional.hpp:92-97) with a non-const lvalue
     * `optional&` as argument, which it takes over from the copy constructor: `Type` is
     * constructed from the source object, through `operator bool` for a `Type` constructible
     * from `bool` (`fromBool`). The source is only read.
     */
    constructor Forward(other: Optional<T>, fromBool: bool -> T)
      ensures Valid() && State() == Core.ForwardingCopyOf(other.State(), fromBool)
      ensures other.State() == old(other.State())
    {
      slot := Core.Live(fromBool(other.present));
      present := true;
      abandoned := 0;
    }

    /**
     * `optional(optional&&)` (optional.hpp:106-116): the source's flag is cleared, its storage
     * is left as it was.
     */
    constructor Move(other: Optional<T>)
      requires other.Valid()
      modifies other
      ensures Valid() && other.Valid()
      ensures (State(), other.State()) == Core.MoveFrom(old(other.State()))
    {
      if other.present {
        slot := Core.Live(other.slot.value);
        present := true;
        other.present := false;
      } else {
        slot := Core.Vacant;
        present := false;
      }
      abandoned := 0;
    }

    /** `reset()` (optional.hpp:121-128). */
    method Reset()
      modifies this
      ensures Valid() && State() == Core.Reset(old(State()))
    {
      if present {
        present := false;
        slot := Core.Vacant;
      }
    }

    /**
     * `~optional()` (optional.hpp:117-120): `reset()`, then the storage goes away with the
     * object; a value still live in it at that point is lost undestroyed.
     */
    method Destruct()
      modifies this
      ensures Valid() && State() == Core.Destruct(old(State()))
    {
      Reset();
      abandoned := abandoned + Core.Abandons(slot);
      slot := Core.Vacant;
    }

    /**
     * `emplace(args...)` (optional.hpp:143-149), with the constructor arguments given as the
     * value they construct. As in the code, the flag is not set.
     */
    method Emplace(v: T)
      modifies this
      ensures Valid() && State() == Core.Emplace(old(State()), v)
    {
      Reset();
      abandoned := abandoned + Core.Abandons(slot);
      slot := Core.Live(v);
    }

    /** `is_present()` (optional.hpp:150-153). */
    method IsPresent() returns (b: bool)
      ensures b == Core.IsPresent(State())
    {
      b := present;
    }

    /** `operator bool` (optional.hpp:230-233), which asks `is_present()`. */
    method AsBool() returns (b: bool)
      ensures b == Core.IsPresent(State())
    {
      b := IsPresent();
    }

    /** `get()` (optional.hpp:154-169). */
    method Get() returns (r: Result<T, Core.NoSuchElementError>)
      requires Valid()
      ensures r == Core.Get(State())
    {
      if !present {
        return Failure(Core.NoSuchElementError);
      }
      return Success(slot.value);
    }

    /**
     * `operator->` (optional.hpp:234-241): the address of `get()`, modelled as what that address
     * designates; it fails exactly as `get()` does.
     */
    method Arrow() returns (r: Result<T, Core.NoSuchElementError>)
      requires Valid()
      ensures r == Core.Get(State())
    {
      r := Get();
    }

    /** The three `or_else` overloads (optional.hpp:170-193), as one value-returning method. */
    method OrElse(fallback: T) returns (r: T)
      requires Valid()
      ensures r == Core.OrElse(State(), fallback)
    {
      if present {
        var held := Get();
        return held.value;
      }
      return fallback;
    }

    /**
     * `if_present(consumer)` (optional.hpp:129-142); `call` records the consumer's invocation
     * and what it returned, which the C++ code discards.
     */
    method IfPresent<R>(consumer: T -> R) returns (call: Option<R>)
      requires Valid()
      ensures call == Core.IfPresent(State(), consumer)
    {
      call := None;
      if present {
        var held := Get();
        call := Some(consumer(held.value));
      }
    }

    /** The const overload of `filter` (optional.hpp:203-211): a copy of `*this`, or `{}`. */
    method Filter(p: T -> bool) returns (r: Optional<T>)
      requires Valid()
      ensures fresh(r) && r.Valid() && r.State() == Core.Filter(State(), p)
    {
      if present && p(slot.value) == true {
        r := new Optional.Copy(this);
      } else {
        r := new Optional();
      }
    }

    /**
     * The non-const overload of `filter` (optional.hpp:194-202): `return *this;` goes through
     * the forwarding constructor, or `{}`.
     */
    method FilterNonConst(p: T -> bool, fromBool: bool -> T) returns (r: Optional<T>)
      requires Valid()
      ensures fresh(r) && r.Valid() && r.State() == Core.FilterNonConst(State(), p, fromBool)
    {
      if present && p(slot.value) == true {
        r := new Optional.Forward(this, fromBool);
      } else {
        r := new Optional();
      }
    }

    /** `map(mapper)` (optional.hpp:212-229): `{ mapper(get()) }`, or `{}`. */
    method Map<U>(f: T -> U) returns (r: Optional<U>)
      requires Valid()
      ensures fresh(r) && r.Valid() && r.State() == Core.Map(State(), f)
    {
      if present {
        var held := Get();
        r := new Optional<U>.Of(f(held.value));
      } else {
        r := new Optional<U>();
      }
    }
  }

  /** `make_optional(value)` (optional.hpp:255-259). */
  method MakeOptional<T>(v: T) returns (r: Optional<T>)
    ensures fresh(r) && r.Valid() && r.State() == Core.Of(v)
  {
    r := new Optional.Of(v);
  }
}
