/**
 * Client code of `optional<Type>`, proved from the contracts of the class alone (as a caller
 * sees it): the scenarios main.cpp exercises and the copy and move behaviour a caller relies on.
 */
module OptionalClient {
  import opened Wrappers
  import Core = OptionalCore
  import opened OptionalObject

  /**
   * main.cpp:27-41 with an integer mapper in place of `x * 1.1`. `l.or_else(55)` on an empty
   * `optional<int>` gives 55; `l` is not present, so the program emplaces 61 and then asks for
   * `l.map(...).get()`. As written, `emplace` does not set the flag, so `l` still reports empty
   * and that `get()` throws `no_such_element_error` instead of yielding the mapped 61.
   */
  method EmplaceThenMap(f: int -> int) returns (fallback: int, presentAfter: bool,
                                                mapped: Result<int, Core.NoSuchElementError>)
    ensures fallback == 55
    ensures !presentAfter
    ensures mapped == Failure(Core.NoSuchElementError)
    ensures mapped.Failure? ==> mapped.error.Message() == "no element present in optional"
  {
    var l := new Optional<int>();
    fallback := l.OrElse(55);
    var present := l.IsPresent();
    if !present {
      l.Emplace(61);
    }
    presentAfter := l.IsPresent();
    var m := l.Map(f);
    mapped := m.Get();
  }

  /**
   * Copying an optional through the copy constructor (a const source) and then emplacing into
   * the copy leaves the original's value as it was: the two objects have separate storage. The copy itself then reports empty, since
   * `emplace` does not set the flag.
   */
  method CopyThenEmplace<T>(a: Optional<T>, w: T) returns (before: Result<T, Core.NoSuchElementError>,
                                                           after: Result<T, Core.NoSuchElementError>,
                                                           copy: Result<T, Core.NoSuchElementError>)
    requires a.Valid()
    ensures before == after
    ensures copy == Failure(Core.NoSuchElementError)
  {
    before := a.Get();
    var b := new Optional.Copy(a);
    b.Emplace(w);
    after := a.Get();
    copy := b.Get();
  }

  /**
   * Moving a present optional: the new optional holds the value and the source reports empty,
   * while the source's storage still holds the moved-from value.
   */
  method MoveOut<T>(v: T) returns (source: Result<T, Core.NoSuchElementError>,
                                   target: Result<T, Core.NoSuchElementError>,
                                   sourceStorageLive: bool)
    ensures source == Failure(Core.NoSuchElementError)
    ensures target == Success(v)
    ensures sourceStorageLive
  {
    var a := MakeOptional(v);
    var b := new Optional.Move(a);
    source := a.Get();
    target := b.Get();
    sourceStorageLive := a.slot.Live?;
  }
}
