# Fit function adaptors in Dafny

This project models the runtime meaning of four adaptors from the Fit
header-only C++ library of function adaptors:

- `compose(f1, ..., fn)`: a right-nested chain of kernels, called as `f1(f2(...fn(xs...)))`;
- `on(p, f)`: projects each argument separately, then calls `f`;
- `indirect(h)`: dereferences a handle and calls the pointee;
- `reveal(f)`: the failure-descriptor bookkeeping that lists, for a call `f`
  rejects, one compiler note per candidate callable.

All four headers are pure: fields are set at construction and each call
operator is a single expression. Each one becomes datatypes, functions and
lemmas:

- `callables.dfy` (module `Callables`): the common notion of a callable,
  `seq<A> -> Option<R>`. `None` means the call expression is not well-formed,
  so its overload drops out by substitution failure. The C++ test "is `F`
  callable with `Ts...`" is a type-level test. All arguments here share one
  value type, so the model turns that test into a predicate on the argument values.
- `compose.dfy` (module `Compose`): `Chain` is `Last(f) | Kernel(f1, tail)`.
  Only the last function sees the original arguments; every other function
  is called with the single result of its tail.
- `on.dfy` (module `On`): `OnAdaptor(projection, f)`. The projection is called
  with a one-element argument list per argument, and results keep their positions.
- `reveal.dfy` (module `Reveal`): the failure tree `Leaf(name) | Node(children)`.
  Function objects `Fn` carry an optional nested `failure`. The module defines
  `get_failure`, traversal to overloads, `transform`, `with_failures`,
  `failure_for` and `failure_map`. A call site `Callee` is a plain function
  object or `reveal` around one, with the double-reveal specialisation. A
  rejected call through `reveal` yields its notes as `Rejected(notes)`.
- `indirect.dfy` (module `Indirect`): `IndirectAdaptor(handle)`, its forwarding
  call, and its nested `failure` descriptor.

## Model

| member | source | states |
|---|---|---|
| `Compose.Chain.Call` | fit/compose.h:74-98 | the call operator of a kernel and of the one-function adaptor; no contract of its own, see `ComposeStep`, `ComposeIsPipeline` and `ComposeOnlyLastSeesArguments` |
| `Compose.Compose` | fit/compose.h:82-113 | the chain built from `f1, ..., fn` stores exactly those functions in argument order, and its nesting depth equals n |
| `Compose.ComposeSingle` | fit/compose.h:97-107 | a one-function composition behaves as that function for every argument list |
| `Compose.ComposeStep` | fit/compose.h:74-95 | `compose(f1, ..., fn)(xs)` is `f1` applied to the single result of `compose(f2, ..., fn)(xs)` |
| `Compose.ComposeBinary` | fit/compose.h:17-20 | `compose(f, g)(x) == f(g(x))` |
| `Compose.ComposeIsPipeline` | fit/compose.h:74-95 | the chain agrees with an innermost-first reference: `fn` gets `xs`, and each result flows outwards through `f(n-1)` down to `f1` |
| `Compose.ComposeRejects` | fit/compose.h:74-78 | when the last function rejects the arguments, the whole composition is not callable with them |
| `Compose.ComposeOnlyLastSeesArguments` | fit/compose.h:74-95 | only the last function sees the original arguments. Chains that agree there, and whose other functions agree on every one-value call, give equal results |
| `Compose.ComposeSplit` | fit/compose.h:82-95 | `compose(fs..., gs...)(xs)` is `compose(fs...)` applied to the one result of `compose(gs...)(xs)` |
| `Compose.ComposeAssociative` | fit/compose.h:82-95 | `compose(fs..., gs...)` agrees pointwise with `compose(fs..., compose(gs...))` and with `compose(compose(fs...), gs...)` |
| `Compose.ComposeThree` | fit/compose.h:82-95 | `compose(f, g, h)` agrees with `compose(f, compose(g, h))` and with `f(g(h(xs)))` |
| `Compose.ComposeExample` | fit/compose.h:32-51 | `compose(increment, decrement, increment)(3) == 4` |
| `On.OnAdaptor.Call` | fit/on.h:82-86 | the call operator; no contract of its own, see `OnCall`, `OnRejects` and `OnProjectionSeesOneArgument` |
| `On.On` | fit/on.h:89-93 | the `on` factory; no contract of its own, see `OnCall` |
| `On.Project` | fit/on.h:83-86 | projecting fails exactly when some argument cannot be projected. Otherwise it gives one value per argument, the i-th being `p` of the i-th argument alone |
| `On.OnCall` | fit/on.h:77-93 | `on(p, f)(x1, ..., xn) == f(p(x1), ..., p(xn))`, with `f` receiving exactly n arguments in their original positions |
| `On.OnRejects` | fit/on.h:83-86 | if any one argument cannot be projected, the adaptor is not callable with the arguments |
| `On.OnNoArguments` | fit/on.h:83-86 | `on(p, f)() == f()`, and the projection plays no part |
| `On.OnProjectionSeesOneArgument` | fit/on.h:31-33 | the projection is only ever called with one argument: projections agreeing on all one-argument calls give the same adaptor |
| `On.OnExample` | fit/on.h:44-50 | projecting `foo::x` and adding gives `on(x, _ + _)(foo(1), foo(2)) == 3` |
| `Reveal.HasFailure` | fit/reveal.h:65-75 | `has_failure<F>`; no contract of its own, see `GetFailureOverloads` |
| `Reveal.GetFailure` | fit/reveal.h:78-97 | `get_failure<F>` is always a well-formed descriptor: every level of every `failures<...>` is non-empty |
| `Reveal.GetFailureOverloads` | fit/reveal.h:65-97 | `get_failure<F>` yields one diagnostic naming `F`, unless `F` declares its own `failure`, whose diagnostics are then used |
| `Reveal.Traverse` | fit/reveal.h:125-135 | every well-formed descriptor yields at least one diagnostic overload |
| `Reveal.Overloads` | fit/reveal.h:160-187 | the overloads of a non-empty `failures<...>` list are never empty |
| `Reveal.TraverseIsLeaves` | fit/reveal.h:125-187 | traverse, with its one-element base case, yields the leaves in order: the in-order concatenation over the children |
| `Reveal.TraverseShape` | fit/reveal.h:125-135 | a childless descriptor yields exactly one diagnostic, itself. A descriptor with children yields its children's diagnostics in order |
| `Reveal.OverloadsCons` | fit/reveal.h:167-173 | `failures<H, Rest...>::overloads` covers those of `H` followed by those of `failures<Rest...>` |
| `Reveal.TransformFailures` | fit/reveal.h:137-147 | transforming keeps a descriptor well-formed, and maps a node to a node with as many children at the root |
| `Reveal.TransformLeaves` | fit/reveal.h:137-182 | the leaves of a transformed descriptor are, in order, the leaves of the transform's result at each original leaf |
| `Reveal.TransformOverloads` | fit/reveal.h:137-182 | the diagnostics of a transformed descriptor are each original diagnostic replaced, in place, by those of its transform |
| `Reveal.TransformGrows` | fit/reveal.h:137-147 | for any transform, every node of the descriptor, at any depth, stays a node with the same number of children in the same positions; only leaves are replaced |
| `Reveal.TransformKeepsShape` | fit/reveal.h:137-182 | a transform mapping leaves to leaves keeps the tree shape exactly |
| `Reveal.TransformRenames` | fit/reveal.h:137-182 | a transform that maps leaves to leaves renames each diagnostic in place and keeps their number |
| `Reveal.WithFailures` | fit/reveal.h:154-158 | `with_failures` over well-formed descriptors is well-formed |
| `Reveal.FailureFor` | fit/reveal.h:194-197 | `failure_for<F1, ..., Fn>` is well-formed: a `failures<...>` node with exactly one child per callable |
| `Reveal.FailureMap` | fit/reveal.h:189-192 | `failure_map<T, F1, ..., Fn>` is well-formed: a `failures<...>` node with exactly one child per callable |
| `Reveal.FailureForOverloads` | fit/reveal.h:194-197 | `failure_for` yields each callable's diagnostics in order. When none declares a `failure`, it yields exactly one per callable, naming it in position |
| `Reveal.FailureMapIsTransformedFailureFor` | fit/reveal.h:189-197 | `failure_map<T, Fs...>` equals `failure_for<Fs...>` transformed by `T` |
| `Reveal.Notes` | fit/reveal.h:99-122 | the notes of a rejected call: at least one, exactly one per leaf of the descriptor in order, each naming that leaf and carrying the rejected arguments |
| `Reveal.DiagnosticOverloads` | fit/reveal.h:105-123 | the diagnostic overloads are enabled (non-empty) exactly when `F` is not callable with the arguments |
| `Reveal.Callee.Call` | fit/reveal.h:199-214 | a call through a plain object or through `reveal`, with the double-reveal specialisation; no contract of its own, see `CallValue`, `RevealPassesThrough`, `RevealDiagnoses` and `RevealIdempotent` |
| `Reveal.Reveal` | fit/reveal.h:216-220 | `reveal(f)` wraps `f` itself: the function object underneath is unchanged |
| `Reveal.RevealPassesThrough` | fit/reveal.h:199-207 | whenever `F` accepts the arguments, `reveal(F)(xs)` is `F(xs)`, however many reveals are stacked |
| `Reveal.RevealDiagnoses` | fit/reveal.h:105-135 | when `F` rejects the arguments, `reveal(F)` rejects them too. It reports one note per leaf of `get_failure<F>`, in order, each with the rejected arguments, and at least one |
| `Reveal.PlainHasNoNotes` | fit/reveal.h:17-22 | without `reveal`, a rejected call carries no itemised notes |
| `Reveal.RevealIdempotent` | fit/reveal.h:208-214 | `reveal(reveal(F))` behaves as `reveal(F)` on every call, with no duplicated notes |
| `Reveal.RevealTimesIsReveal` | fit/reveal.h:208-214 | any number n >= 1 of nested reveals behaves as one |
| `Reveal.CallValue` | fit/reveal.h:199-214 | a call site is well-formed exactly when the underlying function object accepts the arguments, and it then gives that object's value |
| `Reveal.RevealKeepsWellFormedness` | fit/reveal.h:111-117 | `reveal` changes neither which calls are well-formed nor their values |
| `Indirect.IndirectAdaptor.Call` | fit/indirect.h:78-83 | the call operator; no contract of its own, see `IndirectForwards` |
| `Indirect.Indirect` | fit/indirect.h:86 | the `indirect` factory; no contract of its own, see `IndirectForwards` |
| `Indirect.IndirectForwards` | fit/indirect.h:78-83 | `indirect(h)(xs) == (*h)(xs)`, with the arguments unchanged. Directly and through `reveal`, it is accepted exactly when the pointee accepts `xs` |
| `Indirect.IndirectAdaptor.FailureDescriptor` | fit/indirect.h:72-74 | the nested `failure` of `indirect(h)` yields exactly the diagnostics of the pointee's own descriptor (corrected, see Findings) |
| `Indirect.IndirectAdaptor.AsFn` | fit/indirect.h:60-83 | `indirect_adaptor`, as a function object, always declares a nested `failure`, gives the pointee's result for every argument list, and yields the pointee's own diagnostics (corrected, see Findings) |
| `Indirect.RevealIndirect` | fit/indirect.h:72-83 | a call of `reveal(indirect(h))` rejected by the pointee reports the notes of the pointee's own descriptor (corrected, see Findings) |
| `Indirect.FailureAsWritten` | fit/indirect.h:72-74 | as written, the nested `failure` of `indirect(h)` yields exactly one diagnostic, naming the pointee's type |
| `Indirect.AsFnAsWritten` | fit/indirect.h:60-83 | as written, `indirect_adaptor` as a function object declares a `failure`, gives the pointee's result for every argument list, and yields one diagnostic naming the pointee's type |
| `Indirect.RevealIndirectAsWritten` | fit/indirect.h:72-83 | as written, a call of `reveal(indirect(h))` rejected by the pointee reports exactly one note, naming the pointee's type, whatever descriptor the pointee declares |
| `Indirect.FailureAsWrittenDropsPointeeFailure` | fit/indirect.h:72-74 | for a pointee with two candidate failures, the as-written descriptor gives one note and the corrected one gives two |
| `Indirect.IndirectExample` | fit/indirect.h:37-47 | `indirect(make_unique<sum>())(3, 2) == 5` |

## Left out

- Template mechanics with no runtime meaning: the `FIT_RETURNS`/`FIT_SFINAE_RETURNS` macros, perfect forwarding and value categories, `FIT_MANGLE_CAST` const-casting, empty-base storage and `sizeof`, `constexpr` evaluability, and move-only versus copyable adaptors.
- Heterogeneous types: every callable in one chain has one value type, and "callable with `Ts...`" is a predicate on argument values, not on their types.
- Default constructors of `compose_kernel` and `compose_adaptor` (fit/compose.h:66-67, 89, 100): default-constructing a function object has no counterpart for function values.
- `on_adaptor::base_function`/`base_projection` and `indirect_adaptor::base_function`: these are `always_ref` plumbing that returns the stored object.
- The global `indirect` instance and `fit_rewritable1_tag` (fit/indirect.h:63, 86): the model has only the factory.
- Dereferencing a null handle is undefined behaviour in C++. The model's handle always refers to a function object.
- Side-effect order of projections in `on`: C++ leaves the evaluation order of the pack expansion unspecified, so projections are pure functions and only result positions are claimed.
- Failure descriptors are abstracted to the name of the callable type. A transform maps such a name to a descriptor. The argument-type rewriting a real transform may do inside `of<Ts...>::apply` is not modelled: every note carries the call's actual arguments.
- The exact compiler note text, and ambiguity between several enabled diagnostic overloads, are not modelled. The notes list stands in for them.
- `reveal_adaptor<F>` inheriting `F`'s nested `failure` (so that `get_failure` of a reveal adaptor is `F`'s) is not modelled: a `Callee` is never passed to `get_failure`.
- fit/function.h (`static_function_wrapper`, which rests on `reinterpret_cast` and static-address tricks) and fit/protect.h (an identity tag for bind expressions, whose handling lives in headers that are not part of this model).
- `lazy`, `pack`, `conditional`, `fuse` and `by`: their headers are not part of this model, and their tests alone do not define their implementation.

## Findings

| source | as written | input that shows it | evidently intended | confidence | as-written member | corrected member |
|---|---|---|---|---|---|---|
| fit/indirect.h:72-74 | `failure_for<decltype(*std::declval<F>())>` applies `get_failure` to a reference type `P&`. `P&::failure` is a substitution failure, so `has_failure` is false and the pointee's own `failure` is never used. The model takes this C++ rule as given (`DereferencedType`), so the as-written half covers handles whose `operator*` returns a reference, as raw and smart pointers do | `reveal(indirect(std::make_unique<X>()))`, where `X` declares a `failure` with children `f1` and `f2`: one note naming `X` instead of one per candidate | the descriptor of the pointee itself (as with `std::decay`), so its candidates are itemised | medium, not executed | `Indirect.FailureAsWrittenDropsPointeeFailure` | `Indirect.IndirectAdaptor.FailureDescriptor` |
