/** std::complex<double> as an exact pair of reals, with the two operations the
    operator code needs: addition and the |z| > 1e-6 test. */
module Complexes {

  datatype Complex = Complex(re: real, im: real)

  const Zero := Complex(0.0, 0.0)

  /** The tolerance the operator code uses for "non-zero". */
  const Epsilon: real := 0.000001

  function Add(a: Complex, b: Complex): (c: Complex)
    ensures c.re == a.re + b.re && c.im == a.im + b.im
  {
    Complex(a.re + b.re, a.im + b.im)
  }

  /** std::abs(z) > 1e-6, compared through the squared modulus so that it stays exact. */
  predicate IsNonZero(z: Complex)
  {
    z.re * z.re + z.im * z.im > Epsilon * Epsilon
  }

  lemma AddZero(a: Complex)
    ensures Add(Zero, a) == a && Add(a, Zero) == a
  {
  }
}
