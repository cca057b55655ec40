/** The `compose` adaptor: `compose(f1, f2, ..., fn)(xs...)` is
    `f1(f2(...(fn(xs...))))`.

    The adaptor for n functions is a kernel holding `f1` and the adaptor
    for the remaining n - 1 functions; the adaptor for one function is that
    function itself.  A kernel's call is well-formed only when both the
    inner call and the outer call on its result are.
 */
module Compose {
  import opened Callables

  /** `compose_adaptor<F1, ..., Fn>`: a right-nested chain of kernels that
      ends in the bare last function. */
  datatype Chain<!T> =
    | Last(f: Callable<T, T>)
    | Kernel(f1: Callable<T, T>, f2: Chain<T>)
  {
    /** The call operator: only the last function sees `xs`; each kernel
        passes the single result of its tail to its own function. */
    function Call(xs: seq<T>): Option<T>
    {
      match this
      case Last(f) => f(xs)
      case Kernel(f1, f2) => Then(f2.Call(xs), f1)
    }

    /** The stored functions, outermost first. */
    function Functions(): seq<Callable<T, T>>
    {
      match this
      case Last(f) => [f]
      case Kernel(f1, f2) => [f1] + f2.Functions()
    }

    /** How many adaptors are nested, the terminal function included. */
    function Depth(): nat
    {
      match this
      case Last(_) => 1
      case Kernel(_, f2) => 1 + f2.Depth()
    }
  }

  /** The `compose` factory; at least one function is required, as there
      is no `compose_adaptor<>`. */
  function Compose<T>(fs: seq<Callable<T, T>>): (c: Chain<T>)
    requires |fs| >= 1
    ensures c.Functions() == fs
    ensures c.Depth() == |fs|
  {
    if |fs| == 1 then Last(fs[0]) else Kernel(fs[0], Compose(fs[1..]))
  }

  /** A chain used as a plain callable, e.g. as an element of another chain. */
  function AsCallable<T>(c: Chain<T>): Callable<T, T>
  {
    xs => c.Call(xs)
  }

  /** Reference semantics, innermost first: thread a value through `gs`
      starting from the last function and ending with the first. */
  function Pipe<T>(gs: seq<Callable<T, T>>, v: Option<T>): Option<T>
    decreases |gs|
  {
    if gs == [] then v else Pipe(gs[..|gs| - 1], Then(v, gs[|gs| - 1]))
  }

  lemma {:induction false} PipeFront<T>(f: Callable<T, T>, gs: seq<Callable<T, T>>, v: Option<T>)
    ensures Pipe([f] + gs, v) == Then(Pipe(gs, v), f)
    decreases |gs|
  {
    if gs != [] {
      var n := |gs|;
      assert ([f] + gs)[..n] == [f] + gs[..n - 1];
      assert ([f] + gs)[n] == gs[n - 1];
      PipeFront(f, gs[..n - 1], Then(v, gs[n - 1]));
    }
  }

  lemma {:induction false} PipeRejected<T>(gs: seq<Callable<T, T>>)
    ensures Pipe(gs, None) == None
    decreases |gs|
  {
    if gs != [] {
      PipeRejected(gs[..|gs| - 1]);
    }
  }

  /** A one-function composition is that function, for any arguments. */
  lemma ComposeSingle<T>(f: Callable<T, T>, xs: seq<T>)
    ensures Compose([f]).Call(xs) == f(xs)
  {
  }

  /** The kernel step: the first function is applied to the result of the
      composition of the others. */
  lemma ComposeStep<T>(fs: seq<Callable<T, T>>, xs: seq<T>)
    requires |fs| >= 2
    ensures Compose(fs).Call(xs) == Then(Compose(fs[1..]).Call(xs), fs[0])
  {
  }

  /** `compose(f, g)(x) == f(g(x))`. */
  lemma ComposeBinary<T>(f: Callable<T, T>, g: Callable<T, T>, x: T)
    ensures Compose([f, g]).Call([x]) == Then(g([x]), f)
  {
    assert [f, g][1..] == [g];
  }

  /** The chain agrees with the innermost-first reference semantics: the
      last function gets the original arguments and every result flows
      outwards through the preceding functions. */
  lemma {:induction false} ComposeIsPipeline<T>(fs: seq<Callable<T, T>>, xs: seq<T>)
    requires |fs| >= 1
    ensures Compose(fs).Call(xs) == Pipe(fs[..|fs| - 1], fs[|fs| - 1](xs))
    decreases |fs|
  {
    var n := |fs|;
    if n > 1 {
      ComposeIsPipeline(fs[1..], xs);
      assert fs[1..][..n - 2] == fs[1..n - 1];
      assert fs[1..][n - 2] == fs[n - 1];
      PipeFront(fs[0], fs[1..n - 1], fs[n - 1](xs));
      assert [fs[0]] + fs[1..n - 1] == fs[..n - 1];
    }
  }

  /** If the last function rejects the arguments, so does the composition. */
  lemma ComposeRejects<T>(fs: seq<Callable<T, T>>, xs: seq<T>)
    requires |fs| >= 1
    requires fs[|fs| - 1](xs) == None
    ensures Compose(fs).Call(xs) == None
  {
    ComposeIsPipeline(fs, xs);
    PipeRejected(fs[..|fs| - 1]);
  }

  /** Only the last function receives the original argument list; every
      other function is only ever called with one value.  Two chains whose
      last functions agree on `xs` and whose other functions agree on all
      one-element argument lists give the same result. */
  lemma {:induction false} ComposeOnlyLastSeesArguments<T>(fs: seq<Callable<T, T>>, hs: seq<Callable<T, T>>, xs: seq<T>)
    requires |fs| == |hs| >= 1
    requires fs[|fs| - 1](xs) == hs[|hs| - 1](xs)
    requires forall i, v :: 0 <= i < |fs| - 1 ==> fs[i]([v]) == hs[i]([v])
    ensures Compose(fs).Call(xs) == Compose(hs).Call(xs)
    decreases |fs|
  {
    if |fs| > 1 {
      forall i, v | 0 <= i < |fs[1..]| - 1
        ensures fs[1..][i]([v]) == hs[1..][i]([v])
      {
        assert fs[1..][i] == fs[i + 1] && hs[1..][i] == hs[i + 1];
      }
      ComposeOnlyLastSeesArguments(fs[1..], hs[1..], xs);
      match Compose(fs[1..]).Call(xs)
      case None =>
      case Some(w) =>
        assert fs[0]([w]) == hs[0]([w]);
    }
  }

  /** Splitting a composition: the functions after the split point run
      first, and their result is handed to the composition of the rest. */
  lemma {:induction false} ComposeSplit<T>(fs: seq<Callable<T, T>>, gs: seq<Callable<T, T>>, xs: seq<T>)
    requires |fs| >= 1 && |gs| >= 1
    ensures Compose(fs + gs).Call(xs) == Then(Compose(gs).Call(xs), AsCallable(Compose(fs)))
    decreases |fs|
  {
    assert (fs + gs)[0] == fs[0];
    if |fs| == 1 {
      assert (fs + gs)[1..] == gs;
    } else {
      assert (fs + gs)[1..] == fs[1..] + gs;
      ComposeSplit(fs[1..], gs, xs);
    }
  }

  /** Composition nests either way: `compose(fs..., gs...)` agrees with
      `compose(fs..., compose(gs...))` and with `compose(compose(fs...), gs...)`. */
  lemma ComposeAssociative<T>(fs: seq<Callable<T, T>>, gs: seq<Callable<T, T>>, xs: seq<T>)
    requires |fs| >= 1 && |gs| >= 1
    ensures Compose(fs + gs).Call(xs) == Compose(fs + [AsCallable(Compose(gs))]).Call(xs)
    ensures Compose(fs + gs).Call(xs) == Compose([AsCallable(Compose(fs))] + gs).Call(xs)
  {
    ComposeSplit(fs, gs, xs);
    ComposeSplit(fs, [AsCallable(Compose(gs))], xs);
    ComposeSplit([AsCallable(Compose(fs))], gs, xs);
    match Compose(gs).Call(xs)
    case None =>
    case Some(w) =>
      assert Compose([AsCallable(Compose(fs))]).Call([w]) == Compose(fs).Call([w]);
  }

  /** A three-function composition agrees with `compose(f, compose(g, h))`
      and with `f(g(h(xs)))`. */
  lemma ComposeThree<T>(f: Callable<T, T>, g: Callable<T, T>, h: Callable<T, T>, xs: seq<T>)
    ensures Compose([f, g, h]).Call(xs) == Compose([f, AsCallable(Compose([g, h]))]).Call(xs)
    ensures Compose([f, g, h]).Call(xs) == Then(Then(h(xs), g), f)
  {
    assert [f] + [g, h] == [f, g, h];
    ComposeAssociative([f], [g, h], xs);
    assert [f] + [AsCallable(Compose([g, h]))] == [f, AsCallable(Compose([g, h]))];
    assert [f, g, h][1..] == [g, h] && [g, h][1..] == [h];
    ComposeStep([f, g, h], xs);
    ComposeStep([g, h], xs);
  }

  /** `increment` and `decrement` accept exactly one argument. */
  function Increment(xs: seq<int>): Option<int>
  {
    if |xs| == 1 then Some(xs[0] + 1) else None
  }

  function Decrement(xs: seq<int>): Option<int>
  {
    if |xs| == 1 then Some(xs[0] - 1) else None
  }

  /** `compose(increment(), decrement(), increment())(3) == 4`. */
  lemma ComposeExample()
    ensures Compose([Increment, Decrement, Increment]).Call([3]) == Some(4)
  {
    ComposeThree(Increment, Decrement, Increment, [3]);
  }
}
