/** Function objects as the adaptors see them.

    Every callable takes an argument list and either produces a value or
    rejects the call.  A rejection stands for a call expression that is not
    well-formed (the overload is removed by substitution failure), which is
    what the adaptors' `is_callable` probes observe.  Because all arguments
    share one value type, the type-level test "F is callable with Ts..." is
    modelled as a predicate on the argument values.
 */
module Callables {

  datatype Option<+T> = None | Some(value: T)

  /** A callable from argument lists over `A` to results in `R`; `None`
      means "not callable with these arguments". */
  type Callable<!A, R> = seq<A> -> Option<R>

  /** The name of a callable's type, used in diagnostics. */
  type Name = string

  /** True when `f` accepts the argument list `xs`. */
  predicate Accepts<A, R>(f: Callable<A, R>, xs: seq<A>)
  {
    f(xs).Some?
  }

  /** Feeds an optional value to a callable as its single argument. */
  function Then<T, R>(v: Option<T>, f: Callable<T, R>): Option<R>
  {
    match v
    case None => None
    case Some(w) => f([w])
  }

  /** Flattens a sequence of sequences in order. */
  function Concat<T>(ss: seq<seq<T>>): (r: seq<T>)
  {
    if ss == [] then [] else ss[0] + Concat(ss[1..])
  }

  lemma {:induction false} ConcatAppend<T>(ss: seq<seq<T>>, ts: seq<seq<T>>)
    ensures Concat(ss + ts) == Concat(ss) + Concat(ts)
  {
    if ss == [] {
      assert ss + ts == ts;
    } else {
      assert (ss + ts)[1..] == ss[1..] + ts;
      ConcatAppend(ss[1..], ts);
    }
  }

  lemma {:induction false} ConcatSingletons<T>(ss: seq<seq<T>>)
    requires forall i :: 0 <= i < |ss| ==> |ss[i]| == 1
    ensures |Concat(ss)| == |ss|
    ensures forall i :: 0 <= i < |ss| ==> Concat(ss)[i] == ss[i][0]
  {
    if ss != [] {
      ConcatSingletons(ss[1..]);
    }
  }
}
