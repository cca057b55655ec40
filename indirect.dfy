/** The `indirect` adaptor: `indirect(h)(xs...)` is `(*h)(xs...)`.

    The adaptor stores a dereferenceable handle (a pointer, a smart
    pointer) and calls the pointee with the arguments unchanged.  It also
    declares a nested `failure` type, which `reveal` reports when the
    pointee rejects a call.  As written, that descriptor is one leaf naming
    the pointee's type (`FailureAsWritten`); the adaptor below carries the
    descriptor evidently intended, the pointee's own (`FailureDescriptor`).
 */
module Indirect {
  import opened Callables
  import opened Reveal

  /** A dereferenceable handle: the name of its type and the function
      object it refers to. */
  datatype Handle<!T> = Handle(name: Name, pointee: Fn<T>)

  /** `indirect_adaptor<F>`. */
  datatype IndirectAdaptor<!T(!new)> = IndirectAdaptor(handle: Handle<T>)
  {
    /** The call operator: dereference, then call with the same arguments. */
    function Call(xs: seq<T>): Option<T>
    {
      handle.pointee.call(xs)
    }

    /** The nested `failure` type as evidently intended: `failure_for`
        of the pointee itself, so that the pointee's own descriptor is
        used.  As written, the pointee is seen through a reference and its
        descriptor is dropped (see `FailureAsWritten`). */
    function FailureDescriptor(): (r: Failure)
      ensures WellFormed(r)
      ensures Traverse(r) == Traverse(GetFailure(handle.pointee))
    {
      FailureForOverloads([handle.pointee]);
      FailureFor([handle.pointee])
    }

    /** The adaptor as a function object, with its declared `failure`:
        it forwards every call to the pointee and reports the pointee's
        diagnostics. */
    function AsFn(): (r: Fn<T>)
      ensures HasFailure(r)
      ensures forall xs :: r.call(xs) == handle.pointee.call(xs)
      ensures Traverse(GetFailure(r)) == Traverse(GetFailure(handle.pointee))
    {
      Fn("indirect_adaptor<" + handle.name + ">", xs => Call(xs), Some(FailureDescriptor()))
    }
  }

  /** The `indirect` factory. */
  function Indirect<T(!new)>(h: Handle<T>): IndirectAdaptor<T>
  {
    IndirectAdaptor(h)
  }

  /** The arguments reach the pointee unchanged, and the call is accepted
      exactly when the pointee accepts them, with or without `reveal`. */
  lemma IndirectForwards<T(!new)>(h: Handle<T>, xs: seq<T>)
    ensures Indirect(h).Call(xs) == h.pointee.call(xs)
    ensures Accepts(Indirect(h).AsFn().call, xs) <==> Accepts(h.pointee.call, xs)
    ensures Plain(Indirect(h).AsFn()).Call(xs) == Plain(h.pointee).Call(xs)
    ensures Reveal.Reveal(Plain(Indirect(h).AsFn())).Call(xs).Value? <==> Accepts(h.pointee.call, xs)
  {
    RevealKeepsWellFormedness(Plain(Indirect(h).AsFn()), xs);
  }

  /** With the corrected descriptor, a call of `reveal(indirect(h))` that
      the pointee rejects reports the pointee's own diagnostics. */
  lemma RevealIndirect<T(!new)>(h: Handle<T>, xs: seq<T>)
    requires !Accepts(h.pointee.call, xs)
    ensures Reveal.Reveal(Plain(Indirect(h).AsFn())).Call(xs) == Rejected(Notes(GetFailure(h.pointee), xs))
  {
    RevealDiagnoses(Plain(Indirect(h).AsFn()), xs);
  }

  /** `decltype(*std::declval<F>())` for a handle whose `operator*`
      returns a reference, as raw and smart pointers do.  The model takes
      as given the C++ rule that a reference type has no nested `failure`
      (`P&::failure` is a substitution failure), so that `has_failure` is
      false for it; this helper simply drops the pointee's `failure`. */
  function DereferencedType<T>(h: Handle<T>): (r: Fn<T>)
    ensures !HasFailure(r)
    ensures r.name == h.pointee.name && r.call == h.pointee.call
  {
    Fn(h.pointee.name, h.pointee.call, None)
  }

  /** The nested `failure` type exactly as written: `get_failure` of the
      reference type falls back to a single leaf naming the pointee's type. */
  function FailureAsWritten<T(!new)>(a: IndirectAdaptor<T>): (r: Failure)
    ensures WellFormed(r)
    ensures Traverse(r) == [a.handle.pointee.name]
  {
    FailureForOverloads([DereferencedType(a.handle)]);
    FailureFor([DereferencedType(a.handle)])
  }

  /** `indirect_adaptor` as written, as a function object: the same call,
      with the as-written nested `failure`. */
  function AsFnAsWritten<T(!new)>(a: IndirectAdaptor<T>): (r: Fn<T>)
    ensures HasFailure(r)
    ensures forall xs :: r.call(xs) == a.handle.pointee.call(xs)
    ensures Traverse(GetFailure(r)) == [a.handle.pointee.name]
  {
    Fn("indirect_adaptor<" + a.handle.name + ">", xs => a.Call(xs), Some(FailureAsWritten(a)))
  }

  /** As written, a call of `reveal(indirect(h))` that the pointee rejects
      reports a single note naming the pointee's type, whatever descriptor
      the pointee declares. */
  lemma RevealIndirectAsWritten<T(!new)>(h: Handle<T>, xs: seq<T>)
    requires !Accepts(h.pointee.call, xs)
    ensures Reveal.Reveal(Plain(AsFnAsWritten(Indirect(h)))).Call(xs) == Rejected([Note(h.pointee.name, xs)])
  {
    RevealDiagnoses(Plain(AsFnAsWritten(Indirect(h))), xs);
  }

  /** A pointee that declares two failures, as an aggregate of two
      candidates does. */
  function TwoCandidates(): Fn<int>
  {
    Fn("conditional_adaptor<f1, f2>", xs => None, Some(Node([Leaf("f1"), Leaf("f2")])))
  }

  /** As written, `reveal(indirect(h))` drops the pointee's own
      descriptor: one note naming the aggregate instead of one per
      candidate. */
  lemma FailureAsWrittenDropsPointeeFailure()
    ensures var a := Indirect(Handle("std::unique_ptr<conditional_adaptor<f1, f2>>", TwoCandidates()));
      Traverse(FailureAsWritten(a)) == ["conditional_adaptor<f1, f2>"] &&
      Traverse(a.FailureDescriptor()) == ["f1", "f2"]
  {
    var p := TwoCandidates();
    var fl := Node([Leaf("f1"), Leaf("f2")]);
    assert GetFailure(p) == fl;
    assert [Leaf("f1"), Leaf("f2")][1..] == [Leaf("f2")];
    assert Traverse(fl) == ["f1", "f2"];
  }

  /** `struct sum { T operator()(T x, U y) const { return x + y; } }`. */
  function SumCall(xs: seq<int>): Option<int>
  {
    if |xs| == 2 then Some(xs[0] + xs[1]) else None
  }

  /** `indirect(std::make_unique<sum>())(3, 2) == 5`. */
  lemma IndirectExample()
    ensures Indirect(Handle("std::unique_ptr<sum>", Fn("sum", SumCall, None))).Call([3, 2]) == Some(5)
  {
  }
}
