/** The `on` adaptor: `on(p, f)(x1, ..., xn)` is `f(p(x1), ..., p(xn))`.

    The projection is applied to each argument on its own, never to the
    whole argument list, and `f` is then called with the projected values in
    their original positions.  The call is well-formed only when every
    projection call and the final call of `f` are.
 */
module On {
  import opened Callables

  /** `on_adaptor<Projection, F>`: the projection and the function, both
      stored at construction. */
  datatype OnAdaptor<!A, !B, R> = OnAdaptor(projection: Callable<A, B>, f: Callable<B, R>)
  {
    /** The call operator. */
    function Call(xs: seq<A>): Option<R>
    {
      match Project(projection, xs)
      case None => None
      case Some(ys) => f(ys)
    }
  }

  /** The `on` factory. */
  function On<A, B, R>(p: Callable<A, B>, f: Callable<B, R>): OnAdaptor<A, B, R>
  {
    OnAdaptor(p, f)
  }

  /** The pack expansion `p(xs)...`: every argument projected on its own.
      It fails exactly when some projection call fails. */
  function Project<A, B>(p: Callable<A, B>, xs: seq<A>): (r: Option<seq<B>>)
    ensures r.Some? <==> forall i :: 0 <= i < |xs| ==> p([xs[i]]).Some?
    ensures r.Some? ==> |r.value| == |xs|
    ensures r.Some? ==> forall i :: 0 <= i < |xs| ==> p([xs[i]]) == Some(r.value[i])
  {
    if xs == [] then Some([])
    else
      match p([xs[0]])
      case None => None
      case Some(y) =>
        match Project(p, xs[1..])
        case None => None
        case Some(ys) => Some([y] + ys)
  }

  /** `on(p, f)(x1, ..., xn) == f(p(x1), ..., p(xn))`: `f` receives as many
      arguments as the adaptor was called with, the i-th being the
      projection of the i-th argument. */
  lemma OnCall<A, B, R>(p: Callable<A, B>, f: Callable<B, R>, xs: seq<A>, ys: seq<B>)
    requires |ys| == |xs|
    requires forall i :: 0 <= i < |xs| ==> p([xs[i]]) == Some(ys[i])
    ensures On(p, f).Call(xs) == f(ys)
  {
    var r := Project(p, xs);
    assert r.Some?;
    assert r.value == ys;
  }

  /** A call is rejected as soon as one argument cannot be projected. */
  lemma OnRejects<A, B, R>(p: Callable<A, B>, f: Callable<B, R>, xs: seq<A>, k: nat)
    requires k < |xs| && p([xs[k]]) == None
    ensures On(p, f).Call(xs) == None
  {
  }

  /** With no arguments, `on(p, f)() == f()`, whatever the projection. */
  lemma OnNoArguments<A, B, R>(p: Callable<A, B>, q: Callable<A, B>, f: Callable<B, R>)
    ensures On(p, f).Call([]) == f([])
    ensures On(p, f).Call([]) == On(q, f).Call([])
  {
  }

  lemma {:induction false} ProjectSingletons<A, B>(p: Callable<A, B>, q: Callable<A, B>, xs: seq<A>)
    requires forall v :: p([v]) == q([v])
    ensures Project(p, xs) == Project(q, xs)
  {
    if xs != [] {
      assert p([xs[0]]) == q([xs[0]]);
      ProjectSingletons(p, q, xs[1..]);
    }
  }

  /** The projection is only ever called with a single argument: two
      projections that agree on every one-element argument list give the
      same adaptor behaviour. */
  lemma OnProjectionSeesOneArgument<A, B, R>(p: Callable<A, B>, q: Callable<A, B>, f: Callable<B, R>, xs: seq<A>)
    requires forall v :: p([v]) == q([v])
    ensures On(p, f).Call(xs) == On(q, f).Call(xs)
  {
    ProjectSingletons(p, q, xs);
  }

  /** `struct foo { int x; }` and its member projection. */
  datatype Foo = Foo(x: int)

  function MemberX(xs: seq<Foo>): Option<int>
  {
    if |xs| == 1 then Some(xs[0].x) else None
  }

  /** The placeholder expression `_ + _` takes exactly two arguments. */
  function Plus(xs: seq<int>): Option<int>
  {
    if |xs| == 2 then Some(xs[0] + xs[1]) else None
  }

  /** `on(std::mem_fn(&foo::x), _ + _)(foo(1), foo(2)) == 3`. */
  lemma OnExample()
    ensures On(MemberX, Plus).Call([Foo(1), Foo(2)]) == Some(3)
  {
    OnCall(MemberX, Plus, [Foo(1), Foo(2)], [1, 2]);
  }
}
