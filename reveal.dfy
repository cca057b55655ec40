/** The `reveal` adaptor and the failure descriptors it reports.

    A failure descriptor is either a leaf, standing for "this callable was
    tried with these arguments", or a node whose `children` are an ordered,
    non-empty list of descriptors (`failures<...>`).  `reveal(F)` adds one
    diagnostic overload per leaf of `F`'s descriptor; those overloads exist
    only for argument lists `F` does not accept, and they never make a call
    well-formed: they only produce the compiler notes, modelled here as a
    list of `Note`s.
 */
module Reveal {
  import opened Callables

  /** A failure descriptor, as the type-level tree of `failures<...>`. */
  datatype Failure = Leaf(target: Name) | Node(children: seq<Failure>)

  /** `failures<H, Rest...>` has at least one element at every level. */
  predicate WellFormed(fl: Failure)
  {
    match fl
    case Leaf(_) => true
    case Node(cs) => |cs| >= 1 && forall i :: 0 <= i < |cs| ==> WellFormed(cs[i])
  }

  type WellFormedFailure = fl: Failure | WellFormed(fl) witness Leaf([])

  /** A function object: the name of its type, its call operator, and the
      nested `failure` type it may declare. */
  datatype Fn<!T> = Fn(name: Name, call: Callable<T, T>, failure: Option<WellFormedFailure>)

  /** `has_failure<F>`: `F` declares a nested `failure` type. */
  predicate HasFailure<T>(f: Fn<T>)
  {
    f.failure.Some?
  }

  /** `get_failure<F>`: `F`'s own descriptor when it declares one, otherwise
      a single leaf naming `F`. */
  function GetFailure<T>(f: Fn<T>): (r: Failure)
    ensures WellFormed(r)
  {
    if HasFailure(f) then f.failure.value else Leaf(f.name)
  }

  /** `traverse_failure<F, Failure>`: the diagnostic overloads of a
      descriptor, one per leaf; a node contributes its children's. */
  function Traverse(fl: Failure): (r: seq<Name>)
    requires WellFormed(fl)
    ensures |r| >= 1
    decreases fl, 1
  {
    match fl
    case Leaf(n) => [n]
    case Node(cs) => Overloads(cs)
  }

  /** `failures<H, Rest...>::overloads`: those of `H` followed by those of
      `failures<Rest...>`, with `failures<H>` as the base case. */
  function Overloads(cs: seq<Failure>): (r: seq<Name>)
    requires |cs| >= 1 && forall i :: 0 <= i < |cs| ==> WellFormed(cs[i])
    ensures |r| >= 1
    decreases cs, 0
  {
    if |cs| == 1 then Traverse(cs[0]) else Traverse(cs[0]) + Overloads(cs[1..])
  }

  /** Reference definition: the leaves of a descriptor in order, as the
      concatenation over the children. */
  function Leaves(fl: Failure): seq<Name>
    decreases fl, 1
  {
    match fl
    case Leaf(n) => [n]
    case Node(cs) => Concat(ChildLeaves(cs))
  }

  function ChildLeaves(cs: seq<Failure>): (r: seq<seq<Name>>)
    ensures |r| == |cs|
    decreases cs, 0
  {
    seq(|cs|, i requires 0 <= i < |cs| => Leaves(cs[i]))
  }

  lemma {:induction false} TraverseIsLeaves(fl: Failure)
    requires WellFormed(fl)
    ensures Traverse(fl) == Leaves(fl)
    decreases fl, 1
  {
    match fl
    case Leaf(_) =>
    case Node(cs) => OverloadsAreLeaves(cs);
  }

  lemma {:induction false} OverloadsAreLeaves(cs: seq<Failure>)
    requires |cs| >= 1 && forall i :: 0 <= i < |cs| ==> WellFormed(cs[i])
    ensures Overloads(cs) == Concat(ChildLeaves(cs))
    decreases cs, 0
  {
    TraverseIsLeaves(cs[0]);
    var ls := ChildLeaves(cs);
    if |cs| == 1 {
      assert ls[1..] == [];
    } else {
      OverloadsAreLeaves(cs[1..]);
      assert ls[1..] == ChildLeaves(cs[1..]);
    }
  }

  /** A childless descriptor gives exactly one diagnostic; a descriptor
      with children gives its children's diagnostics, first child first. */
  lemma TraverseShape(fl: Failure)
    requires WellFormed(fl)
    ensures fl.Leaf? ==> Traverse(fl) == [fl.target]
    ensures fl.Node? ==> Traverse(fl) == Concat(ChildLeaves(fl.children))
  {
    TraverseIsLeaves(fl);
  }

  /** `failures<H, Rest...>::overloads` covers `H` and then all of `Rest`. */
  lemma OverloadsCons(h: Failure, rest: seq<Failure>)
    requires WellFormed(h) && |rest| >= 1 && forall i :: 0 <= i < |rest| ==> WellFormed(rest[i])
    ensures Traverse(Node([h] + rest)) == Traverse(h) + Traverse(Node(rest))
  {
    assert ([h] + rest)[1..] == rest;
  }

  /** `get_failure<F>` yields exactly one diagnostic, naming `F`, unless `F`
      declares its own `failure`. */
  lemma GetFailureOverloads<T>(f: Fn<T>)
    ensures !HasFailure(f) ==> Traverse(GetFailure(f)) == [f.name]
    ensures HasFailure(f) ==> Traverse(GetFailure(f)) == Traverse(f.failure.value)
  {
  }

  /** A transform maps a leaf descriptor (`Transform::apply<Failure>`) to a
      new descriptor. */
  type Transform = Name -> WellFormedFailure

  /** `transform_failures<Failure, Transform>`: the transform applied at
      every leaf; nodes are rebuilt with their children transformed in
      order. */
  function TransformFailures(fl: Failure, t: Transform): (r: Failure)
    ensures WellFormed(fl) ==> WellFormed(r)
    ensures fl.Node? ==> r.Node? && |r.children| == |fl.children|
  {
    match fl
    case Leaf(n) => t(n)
    case Node(cs) => Node(seq(|cs|, i requires 0 <= i < |cs| => TransformFailures(cs[i], t)))
  }

  /** The leaves produced by transforming each of the leaves `ns`. */
  function Expand(t: Transform, ns: seq<Name>): seq<Name>
  {
    if ns == [] then [] else Leaves(t(ns[0])) + Expand(t, ns[1..])
  }

  lemma {:induction false} ExpandAppend(t: Transform, a: seq<Name>, b: seq<Name>)
    ensures Expand(t, a + b) == Expand(t, a) + Expand(t, b)
  {
    if a != [] {
      assert (a + b)[1..] == a[1..] + b;
      ExpandAppend(t, a[1..], b);
    } else {
      assert a + b == b;
    }
  }

  lemma {:induction false} ExpandConcat(t: Transform, ss: seq<seq<Name>>)
    ensures Expand(t, Concat(ss)) == Concat(seq(|ss|, i requires 0 <= i < |ss| => Expand(t, ss[i])))
  {
    var es := seq(|ss|, i requires 0 <= i < |ss| => Expand(t, ss[i]));
    if ss != [] {
      ExpandAppend(t, ss[0], Concat(ss[1..]));
      ExpandConcat(t, ss[1..]);
      assert es[1..] == seq(|ss[1..]|, i requires 0 <= i < |ss[1..]| => Expand(t, ss[1..][i]));
    }
  }

  /** The leaves of a transformed descriptor are, in order, the leaves of
      the transform's result for each original leaf. */
  lemma {:induction false} TransformLeaves(fl: Failure, t: Transform)
    ensures Leaves(TransformFailures(fl, t)) == Expand(t, Leaves(fl))
    decreases fl
  {
    match fl
    case Leaf(n) =>
      assert Expand(t, [n]) == Leaves(t(n)) + Expand(t, []);
    case Node(cs) =>
      var ts := TransformFailures(fl, t).children;
      forall i | 0 <= i < |cs|
        ensures Leaves(ts[i]) == Expand(t, Leaves(cs[i]))
      {
        TransformLeaves(cs[i], t);
      }
      var ls := ChildLeaves(cs);
      ExpandConcat(t, ls);
      assert ChildLeaves(ts) == seq(|ls|, i requires 0 <= i < |ls| => Expand(t, ls[i]));
  }

  /** The diagnostics of a transformed, well-formed descriptor: each
      original diagnostic replaced, in place, by those of its transform. */
  lemma TransformOverloads(fl: Failure, t: Transform)
    requires WellFormed(fl)
    ensures Traverse(TransformFailures(fl, t)) == Expand(t, Traverse(fl))
  {
    TransformLeaves(fl, t);
    TraverseIsLeaves(fl);
    TraverseIsLeaves(TransformFailures(fl, t));
  }

  /** Two descriptors with the same tree shape. */
  predicate SameShape(a: Failure, b: Failure)
  {
    match (a, b)
    case (Leaf(_), Leaf(_)) => true
    case (Node(cs), Node(ds)) => |cs| == |ds| && forall i :: 0 <= i < |cs| ==> SameShape(cs[i], ds[i])
    case _ => false
  }

  /** A transform that maps leaves to leaves keeps the tree shape, and
      renames each diagnostic in place. */
  lemma {:induction false} TransformKeepsShape(fl: Failure, t: Transform)
    requires forall n :: t(n).Leaf?
    ensures SameShape(TransformFailures(fl, t), fl)
    decreases fl
  {
    match fl
    case Leaf(n) =>
      assert t(n).Leaf?;
    case Node(cs) =>
      var ts := TransformFailures(fl, t).children;
      forall i | 0 <= i < |cs|
        ensures SameShape(ts[i], cs[i])
      {
        TransformKeepsShape(cs[i], t);
      }
  }

  /** `b` is `a` with every leaf replaced by some descriptor: each node of
      `a` is a node of `b` with as many children, in the same position. */
  predicate Grows(a: Failure, b: Failure)
  {
    match (a, b)
    case (Leaf(_), _) => true
    case (Node(cs), Node(ds)) => |cs| == |ds| && forall i :: 0 <= i < |cs| ==> Grows(cs[i], ds[i])
    case _ => false
  }

  /** Whatever the transform, every node of the original descriptor stays
      a node with the same number of children; only leaves change. */
  lemma {:induction false} TransformGrows(fl: Failure, t: Transform)
    ensures Grows(fl, TransformFailures(fl, t))
    decreases fl
  {
    match fl
    case Leaf(_) =>
    case Node(cs) =>
      var ts := TransformFailures(fl, t).children;
      forall i | 0 <= i < |cs|
        ensures Grows(cs[i], ts[i])
      {
        TransformGrows(cs[i], t);
      }
  }

  lemma {:induction false} ExpandRenames(t: Transform, ns: seq<Name>)
    requires forall n :: t(n).Leaf?
    ensures |Expand(t, ns)| == |ns|
    ensures forall i :: 0 <= i < |ns| ==> Expand(t, ns)[i] == t(ns[i]).target
  {
    if ns != [] {
      assert t(ns[0]).Leaf?;
      ExpandRenames(t, ns[1..]);
    }
  }

  lemma TransformRenames(fl: Failure, t: Transform)
    requires WellFormed(fl)
    requires forall n :: t(n).Leaf?
    ensures |Traverse(TransformFailures(fl, t))| == |Traverse(fl)|
    ensures forall i :: 0 <= i < |Traverse(fl)| ==>
      Traverse(TransformFailures(fl, t))[i] == t(Traverse(fl)[i]).target
  {
    TransformOverloads(fl, t);
    ExpandRenames(t, Traverse(fl));
  }

  /** `with_failures<Fs...>`: a descriptor whose children are `Fs...`. */
  function WithFailures(fs: seq<Failure>): (r: Failure)
    requires |fs| >= 1
    ensures (forall i :: 0 <= i < |fs| ==> WellFormed(fs[i])) ==> WellFormed(r)
  {
    Node(fs)
  }

  /** `failure_for<F1, ..., Fn>`: one child per callable, from `get_failure`. */
  function FailureFor<T>(fs: seq<Fn<T>>): (r: Failure)
    requires |fs| >= 1
    ensures WellFormed(r)
    ensures r.Node? && |r.children| == |fs|
  {
    WithFailures(seq(|fs|, i requires 0 <= i < |fs| => GetFailure(fs[i])))
  }

  /** `failure_map<Transform, F1, ..., Fn>`: like `failure_for`, with the
      transform applied to each child. */
  function FailureMap<T>(t: Transform, fs: seq<Fn<T>>): (r: Failure)
    requires |fs| >= 1
    ensures WellFormed(r)
    ensures r.Node? && |r.children| == |fs|
  {
    WithFailures(seq(|fs|, i requires 0 <= i < |fs| => TransformFailures(GetFailure(fs[i]), t)))
  }

  /** `failure_for` reports, in order, the diagnostics of each callable;
      when none declares a `failure`, exactly one per callable, naming it. */
  lemma {:induction false} FailureForOverloads<T>(fs: seq<Fn<T>>)
    requires |fs| >= 1
    ensures Traverse(FailureFor(fs)) == Concat(seq(|fs|, i requires 0 <= i < |fs| => Traverse(GetFailure(fs[i]))))
    ensures (forall i :: 0 <= i < |fs| ==> !HasFailure(fs[i])) ==>
      |Traverse(FailureFor(fs))| == |fs| &&
      forall i :: 0 <= i < |fs| ==> Traverse(FailureFor(fs))[i] == fs[i].name
  {
    var cs := FailureFor(fs).children;
    TraverseIsLeaves(FailureFor(fs));
    forall i | 0 <= i < |fs|
      ensures Traverse(GetFailure(fs[i])) == Leaves(cs[i])
    {
      TraverseIsLeaves(cs[i]);
    }
    var ss := seq(|fs|, i requires 0 <= i < |fs| => Traverse(GetFailure(fs[i])));
    assert ChildLeaves(cs) == ss;
    if forall i :: 0 <= i < |fs| ==> !HasFailure(fs[i]) {
      ConcatSingletons(ss);
    }
  }

  /** `failure_map` is `failure_for` with the transform applied. */
  lemma FailureMapIsTransformedFailureFor<T>(t: Transform, fs: seq<Fn<T>>)
    requires |fs| >= 1
    ensures FailureMap(t, fs) == TransformFailures(FailureFor(fs), t)
  {
    var cs := FailureFor(fs).children;
    assert TransformFailures(FailureFor(fs), t).children
        == seq(|fs|, i requires 0 <= i < |fs| => TransformFailures(GetFailure(fs[i]), t));
  }

  /** One compiler note: the callable that was tried and the arguments. */
  datatype Note<T> = Note(target: Name, args: seq<T>)

  /** The outcome of a call: its value, or a rejection with the notes the
      compiler prints for it. */
  datatype Outcome<T> = Value(value: T) | Rejected(notes: seq<Note<T>>)

  /** The notes of the diagnostic overloads for a descriptor and a call. */
  function Notes<T>(fl: Failure, xs: seq<T>): (r: seq<Note<T>>)
    requires WellFormed(fl)
    ensures |r| == |Leaves(fl)| >= 1
    ensures forall i :: 0 <= i < |r| ==> r[i] == Note(Leaves(fl)[i], xs)
  {
    TraverseIsLeaves(fl);
    var ns := Traverse(fl);
    seq(|ns|, i requires 0 <= i < |ns| => Note(ns[i], xs))
  }

  /** `reveal_failure<F, Failure>`: the diagnostic overloads that are
      enabled for `xs`, present only when `F` is not callable with `xs`. */
  function DiagnosticOverloads<T>(f: Fn<T>, xs: seq<T>): (r: seq<Note<T>>)
    ensures |r| == 0 <==> Accepts(f.call, xs)
  {
    if Accepts(f.call, xs) then [] else Notes(GetFailure(f), xs)
  }

  /** A callable as written at a call site: a plain function object, or
      `reveal_adaptor<...>` around one. */
  datatype Callee<!T> = Plain(fn: Fn<T>) | Revealed(inner: Callee<T>)
  {
    /** The function object at the bottom of any reveal wrappers. */
    function Base(): Fn<T>
    {
      match this
      case Plain(f) => f
      case Revealed(c) => c.Base()
    }

    /** Overload resolution for a call with `xs`. */
    function Call(xs: seq<T>): Outcome<T>
    {
      match this
      case Plain(f) =>
        if Accepts(f.call, xs) then Value(f.call(xs).value) else Rejected([])
      case Revealed(Plain(f)) =>
        // `reveal_adaptor<F>`: `F`'s own call operator beside the
        // diagnostic overloads of `traverse_failure<F>`
        if Accepts(f.call, xs) then Value(f.call(xs).value) else Rejected(DiagnosticOverloads(f, xs))
      case Revealed(Revealed(c)) =>
        // `reveal_adaptor<reveal_adaptor<F>>` is `reveal_adaptor<F>`
        inner.Call(xs)
    }
  }

  /** The `reveal` factory: wraps the callable itself. */
  function Reveal<T>(c: Callee<T>): (r: Callee<T>)
    ensures r.Base() == c.Base()
  {
    Revealed(c)
  }

  /** A call through `reveal` gives `F`'s result whenever `F` accepts the
      arguments, however many reveals are stacked. */
  lemma {:induction false} RevealPassesThrough<T>(c: Callee<T>, xs: seq<T>)
    requires Accepts(c.Base().call, xs)
    ensures Reveal(c).Call(xs) == Value(c.Base().call(xs).value)
  {
    match c
    case Plain(_) =>
    case Revealed(c') => RevealPassesThrough(c', xs);
  }

  /** When `F` rejects the arguments, a call through `reveal` reports every
      leaf of `get_failure<F>`, in order, each with the rejected arguments. */
  lemma {:induction false} RevealDiagnoses<T>(c: Callee<T>, xs: seq<T>)
    requires !Accepts(c.Base().call, xs)
    ensures Reveal(c).Call(xs).Rejected?
    ensures Reveal(c).Call(xs).notes == Notes(GetFailure(c.Base()), xs)
    ensures |Reveal(c).Call(xs).notes| == |Leaves(GetFailure(c.Base()))| >= 1
    ensures forall i :: 0 <= i < |Leaves(GetFailure(c.Base()))| ==>
      Reveal(c).Call(xs).notes[i] == Note(Leaves(GetFailure(c.Base()))[i], xs)
  {
    TraverseIsLeaves(GetFailure(c.Base()));
    match c
    case Plain(_) =>
    case Revealed(c') => RevealDiagnoses(c', xs);
  }

  /** Without `reveal`, a rejected call carries no itemised notes. */
  lemma PlainHasNoNotes<T>(f: Fn<T>, xs: seq<T>)
    requires !Accepts(f.call, xs)
    ensures Plain(f).Call(xs) == Rejected([])
  {
  }

  /** `reveal(reveal(F))` behaves as `reveal(F)`: no stacked diagnostics. */
  lemma RevealIdempotent<T>(c: Callee<T>, xs: seq<T>)
    ensures Reveal(Reveal(c)).Call(xs) == Reveal(c).Call(xs)
  {
  }

  /** `n` nested reveals, for any `n`. */
  function RevealTimes<T>(c: Callee<T>, n: nat): Callee<T>
  {
    if n == 0 then c else Reveal(RevealTimes(c, n - 1))
  }

  lemma {:induction false} RevealTimesIsReveal<T>(c: Callee<T>, n: nat, xs: seq<T>)
    requires n >= 1
    ensures RevealTimes(c, n).Call(xs) == Reveal(c).Call(xs)
  {
    if n > 1 {
      RevealTimesIsReveal(c, n - 1, xs);
    }
  }

  /** `reveal` never changes which calls are well-formed, nor their values. */
  lemma {:induction false} CallValue<T>(c: Callee<T>, xs: seq<T>)
    ensures c.Call(xs).Value? <==> Accepts(c.Base().call, xs)
    ensures c.Call(xs).Value? ==> c.Call(xs).value == c.Base().call(xs).value
  {
    match c
    case Plain(_) =>
    case Revealed(Plain(_)) =>
    case Revealed(Revealed(c')) => CallValue(Revealed(c'), xs);
  }

  lemma RevealKeepsWellFormedness<T>(c: Callee<T>, xs: seq<T>)
    ensures Reveal(c).Call(xs).Value? <==> c.Call(xs).Value?
    ensures c.Call(xs).Value? ==> Reveal(c).Call(xs) == c.Call(xs)
  {
    CallValue(c, xs);
    CallValue(Reveal(c), xs);
  }
}
