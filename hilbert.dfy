/** The Hilbert-space front end (class netket::Hilbert) restricted to the two
    discrete spaces of this model, and the read-only interface the operator code
    consults: whether the space is discrete, its site count and its local states. */
module Hilbert {
  import opened Seqs
  import Spins
  import Bosons

  /** What an operator sees of a Hilbert space. */
  datatype Interface = Interface(isDiscrete: bool, size: int, localStates: seq<real>)

  /** The dispatching wrapper: which concrete space is behind it. */
  datatype Space = SpinSpace(spin: Spins.Spin) | BosonSpace(boson: Bosons.Boson)
  {
    function Repr(): set<object>
    {
      match this
      case SpinSpace(s) => {s}
      case BosonSpace(b) => {b}
    }

    ghost predicate Valid()
      reads Repr()
    {
      match this
      case SpinSpace(s) => s.Valid()
      case BosonSpace(b) => b.Valid()
    }

    predicate IsDiscrete()
    {
      match this
      case SpinSpace(s) => s.IsDiscrete()
      case BosonSpace(b) => b.IsDiscrete()
    }

    function Size(): int
      reads Repr()
    {
      match this
      case SpinSpace(s) => s.Size()
      case BosonSpace(b) => b.Size()
    }

    function LocalStates(): (r: seq<real>)
      reads Repr()
      requires Valid()
      ensures |r| >= 2 && StrictlyIncreasing(r)
    {
      match this
      case SpinSpace(s) => s.LocalStates()
      case BosonSpace(b) => b.LocalStates()
    }

    /** The interface as an operator reads it at construction time. */
    function View(): (i: Interface)
      reads Repr()
      requires Valid()
      ensures i.isDiscrete && i.size == Size() && |i.localStates| >= 2
      ensures i.localStates == LocalStates() && Distinct(i.localStates)
    {
      var r := Interface(IsDiscrete(), Size(), LocalStates());
      StrictlyIncreasingDistinct(r.localStates);
      r
    }
  }
}
