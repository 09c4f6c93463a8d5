/**
 * The life of one optional after its construction. Once constructed, the flag of an
 * `optional<Type>` and the liveness of its storage change in only three ways: `reset()`,
 * `emplace(...)`, and being the source of a move construction (the copy constructors, the
 * queries and the combinators leave both unchanged). Its destructor ends the sequence. The held
 * value itself can also be changed by writing through the references and pointers that `get()`,
 * `or_else(Type&)`, `operator->` and `if_present` hand out; that neither sets nor clears the flag
 * nor changes whether the storage is live, and is not modelled here. Copy and move assignment are not available: declaring the
 * move constructor (optional.hpp:106) deletes the implicit copy assignment and suppresses the
 * move assignment.
 */
module OptionalLifecycle {
  import opened Wrappers
  import opened OptionalCore

  /** One change to an existing optional. */
  datatype Op<T> = ResetOp | EmplaceOp(value: T) | MovedFromOp

  /** One change, as the code is written. */
  function Step<T>(c: Cell<T>, op: Op<T>): (r: Cell<T>)
    requires Readable(c)
    ensures !r.present && r.abandoned >= c.abandoned
  {
    match op
    case ResetOp => Reset(c)
    case EmplaceOp(v) => Emplace(c, v)
    case MovedFromOp => MoveFrom(c).1
  }

  /** A sequence of changes, as the code is written. */
  function Run<T>(c: Cell<T>, ops: seq<Op<T>>): (r: Cell<T>)
    requires Readable(c)
    ensures Readable(r) && r.abandoned >= c.abandoned
    decreases |ops|
  {
    if ops == [] then c else Run(Step(c, ops[0]), ops[1..])
  }

  /** One change, with `emplace` setting the flag as intended. */
  function StepIntended<T>(c: Cell<T>, op: Op<T>): (r: Cell<T>)
    requires Readable(c)
    ensures Readable(r) && r.abandoned >= c.abandoned
  {
    match op
    case ResetOp => Reset(c)
    case EmplaceOp(v) => EmplaceIntended(c, v)
    case MovedFromOp => MoveFrom(c).1
  }

  /** A sequence of changes, with `emplace` setting the flag as intended. */
  function RunIntended<T>(c: Cell<T>, ops: seq<Op<T>>): (r: Cell<T>)
    requires Readable(c)
    ensures Readable(r) && r.abandoned >= c.abandoned
    decreases |ops|
  {
    if ops == [] then c else RunIntended(StepIntended(c, ops[0]), ops[1..])
  }

  /** Stranded: the storage holds a live value that the flag does not report. */
  predicate Stranded<T>(c: Cell<T>) {
    !c.present && c.slot.Live?
  }

  /** The number of `emplace` calls in a sequence of changes. */
  function Emplaces<T>(ops: seq<Op<T>>): nat {
    if ops == [] then 0 else (if ops[0].EmplaceOp? then 1 else 0) + Emplaces(ops[1..])
  }

  /**
   * As written, no change makes an existing optional present: after any non-empty sequence of
   * resets, emplaces and moves out of it, `is_present()` is false.
   */
  lemma {:induction false} NothingMakesPresent<T>(c: Cell<T>, ops: seq<Op<T>>)
    requires Readable(c) && ops != []
    ensures !Run(c, ops).present
    decreases |ops|
  {
    if |ops| > 1 {
      NothingMakesPresent(Step(c, ops[0]), ops[1..]);
    }
  }

  /**
   * As written, a stranded optional stays stranded whatever happens to it, and every later
   * `emplace` overwrites a live value without destroying it.
   */
  lemma {:induction false} StrandedStaysStranded<T>(c: Cell<T>, ops: seq<Op<T>>)
    requires Stranded(c)
    ensures Stranded(Run(c, ops))
    ensures Run(c, ops).abandoned == c.abandoned + Emplaces(ops)
    decreases |ops|
  {
    if ops != [] {
      StrandedStaysStranded(Step(c, ops[0]), ops[1..]);
    }
  }

  /**
   * As written, after an `emplace(v)` the optional never reports a value again, and its
   * destructor leaves the last emplaced value undestroyed.
   */
  lemma EmplaceStrandsForever<T>(c: Cell<T>, v: T, ops: seq<Op<T>>)
    requires Readable(c)
    ensures Get(Run(c, [EmplaceOp(v)] + ops)) == Failure(NoSuchElementError)
    ensures Destruct(Run(c, [EmplaceOp(v)] + ops)).abandoned
            == Emplace(c, v).abandoned + Emplaces(ops) + 1
  {
    assert ([EmplaceOp(v)] + ops)[1..] == ops;
    StrandedStaysStranded(Emplace(c, v), ops);
  }

  /** Running a sequence and then one more change is running the longer sequence. */
  lemma {:induction false} RunAppend<T>(c: Cell<T>, ops: seq<Op<T>>, op: Op<T>)
    requires Readable(c)
    ensures Run(c, ops + [op]) == Step(Run(c, ops), op)
    decreases |ops|
  {
    if ops == [] {
      assert [] + [op] == [op];
    } else {
      assert (ops + [op])[1..] == ops[1..] + [op];
      RunAppend(Step(c, ops[0]), ops[1..], op);
    }
  }

  /** The intended-semantics counterpart of `RunAppend`. */
  lemma {:induction false} RunIntendedAppend<T>(c: Cell<T>, ops: seq<Op<T>>, op: Op<T>)
    requires Readable(c)
    ensures RunIntended(c, ops + [op]) == StepIntended(RunIntended(c, ops), op)
    decreases |ops|
  {
    if ops == [] {
      assert [] + [op] == [op];
    } else {
      assert (ops + [op])[1..] == ops[1..] + [op];
      RunIntendedAppend(StepIntended(c, ops[0]), ops[1..], op);
    }
  }

  /**
   * The contrast that main.cpp:38-41 relies on: whatever came before, an `emplace(v)` as
   * written leaves the value in the storage and `get()` failing, while the intended `emplace`
   * makes `get()` return `v`.
   */
  lemma LastEmplaceDecidesGet<T>(c: Cell<T>, ops: seq<Op<T>>, v: T)
    requires Readable(c)
    ensures Run(c, ops + [EmplaceOp(v)]).slot == Live(v)
    ensures Get(Run(c, ops + [EmplaceOp(v)])) == Failure(NoSuchElementError)
    ensures Get(RunIntended(c, ops + [EmplaceOp(v)])) == Success(v)
  {
    RunAppend(c, ops, EmplaceOp(v));
    RunIntendedAppend(c, ops, EmplaceOp(v));
  }

  /**
   * With the intended `emplace`, resets and emplaces keep "live iff present" and never
   * lose a value: the storage is live exactly when the flag is set, and the destructor then
   * destroys every value exactly once.
   */
  lemma {:induction false} IntendedKeepsInvariant<T>(c: Cell<T>, ops: seq<Op<T>>)
    requires LiveIffPresent(c)
    requires forall i | 0 <= i < |ops| :: !ops[i].MovedFromOp?
    ensures LiveIffPresent(RunIntended(c, ops))
    ensures RunIntended(c, ops).abandoned == c.abandoned
    ensures Destruct(RunIntended(c, ops)).abandoned == c.abandoned
    decreases |ops|
  {
    if ops != [] {
      assert !ops[0].MovedFromOp?;
      assert forall i | 0 <= i < |ops[1..]| :: ops[1..][i] == ops[i + 1];
      IntendedKeepsInvariant(StepIntended(c, ops[0]), ops[1..]);
    }
  }
}
