/** A linear feedback shift register that takes in bits one at a time. The words it holds are left
    abstract: what is proved here holds of every register whose parts are linear, and module Crc32
    supplies the 32-bit one of RFC 1952. */
module ShiftRegister {

  type Bits = seq<bool>

  /** The parts of a register: exclusive-or of words, the bit about to fall out, the shift, and the
      feedback that is applied when the bit that falls out differs from the bit taken in. */
  datatype Machine<!T> = Machine(xor: (T, T) -> T, low: T -> bool, shift: T -> T, feedback: (bool, T) -> T) {
    function Next(c: T, b: bool): T {
      feedback(low(c) != b, shift(c))
    }
  }

  /** The register after the bits have been taken in. */
  function Feed<T>(m: Machine<T>, c: T, bits: Bits): T
    decreases |bits|
  {
    if bits == [] then c else Feed(m, m.Next(c, bits[0]), bits[1..])
  }

  lemma {:induction false} FeedAppend<T>(m: Machine<T>, c: T, u: Bits, w: Bits)
    ensures Feed(m, c, u + w) == Feed(m, Feed(m, c, u), w)
    decreases |u|
  {
    if u == [] {
      assert u + w == w;
    } else {
      assert (u + w)[1..] == u[1..] + w;
      FeedAppend(m, m.Next(c, u[0]), u[1..], w);
    }
  }

  /** A run is determined by the register's values along it. */
  lemma {:induction false} FeedFollows<T>(m: Machine<T>, states: seq<T>, bits: Bits)
    requires |states| == |bits| + 1
    requires forall i :: 0 <= i < |bits| ==> m.Next(states[i], bits[i]) == states[i + 1]
    ensures Feed(m, states[0], bits) == states[|bits|]
    decreases |bits|
  {
    if bits != [] {
      FeedFollows(m, states[1..], bits[1..]);
    }
  }

  // ---------- injectivity ----------

  ghost predicate InjectiveAt<T>(m: Machine<T>, a: T, b: T, x: bool) {
    m.Next(a, x) == m.Next(b, x) ==> a == b
  }

  ghost predicate Injective<T(!new)>(m: Machine<T>) {
    forall a, b, x :: InjectiveAt(m, a, b, x)
  }

  lemma {:induction false} FeedInjective<T(!new)>(m: Machine<T>, a: T, b: T, bits: Bits)
    requires Injective(m)
    requires Feed(m, a, bits) == Feed(m, b, bits)
    ensures a == b
    decreases |bits|
  {
    if bits != [] {
      FeedInjective(m, m.Next(a, bits[0]), m.Next(b, bits[0]), bits[1..]);
      assert InjectiveAt(m, a, b, bits[0]);
    }
  }

  // ---------- linearity ----------

  ghost predicate ShiftLaw<T>(m: Machine<T>, a: T, b: T) {
    m.shift(m.xor(a, b)) == m.xor(m.shift(a), m.shift(b))
  }

  ghost predicate LowLaw<T>(m: Machine<T>, a: T, b: T) {
    m.low(m.xor(a, b)) == (m.low(a) != m.low(b))
  }

  ghost predicate FeedbackLaw<T>(m: Machine<T>, p: bool, a: T, q: bool, b: T) {
    m.xor(m.feedback(p, a), m.feedback(q, b)) == m.feedback(p != q, m.xor(a, b))
  }

  ghost predicate Linear<T(!new)>(m: Machine<T>) {
    && (forall a, b :: ShiftLaw(m, a, b))
    && (forall a, b :: LowLaw(m, a, b))
    && (forall p, a, q, b :: FeedbackLaw(m, p, a, q, b))
  }

  lemma NextLinear<T(!new)>(m: Machine<T>, a: T, x: bool, b: T, y: bool)
    requires Linear(m)
    ensures m.xor(m.Next(a, x), m.Next(b, y)) == m.Next(m.xor(a, b), x != y)
  {
    assert ShiftLaw(m, a, b) && LowLaw(m, a, b);
    assert FeedbackLaw(m, m.low(a) != x, m.shift(a), m.low(b) != y, m.shift(b));
  }

  function XorBits(u: Bits, w: Bits): (d: Bits)
    requires |u| == |w|
    ensures |d| == |u|
  {
    seq(|u|, i requires 0 <= i < |u| => u[i] != w[i])
  }

  /** Two runs differ by exactly what their difference, fed by itself, leaves. */
  lemma {:induction false} FeedLinear<T(!new)>(m: Machine<T>, a: T, u: Bits, b: T, w: Bits)
    requires Linear(m)
    requires |u| == |w|
    ensures m.xor(Feed(m, a, u), Feed(m, b, w)) == Feed(m, m.xor(a, b), XorBits(u, w))
    decreases |u|
  {
    if u != [] {
      NextLinear(m, a, u[0], b, w[0]);
      FeedLinear(m, m.Next(a, u[0]), u[1..], m.Next(b, w[0]), w[1..]);
      assert XorBits(u, w)[1..] == XorBits(u[1..], w[1..]);
    }
  }

  /** Where the register holds w on top of x, and w is what the bits bring to zero, taking in the bits
      is taking in zeros from x. */
  lemma FeedCancels<T(!new)>(m: Machine<T>, x: T, w: T, bits: Bits, zeros: Bits, zero: T)
    requires Linear(m)
    requires |bits| == |zeros| && XorBits(zeros, bits) == bits
    requires Feed(m, w, bits) == zero
    requires m.xor(Feed(m, x, zeros), zero) == Feed(m, x, zeros)
    ensures Feed(m, m.xor(x, w), bits) == Feed(m, x, zeros)
  {
    FeedLinear(m, x, zeros, w, bits);
  }
}
