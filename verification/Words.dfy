/** Fixed-width unsigned arithmetic of the C sources, written out on mathematical integers. */
module Words {
  const W32: nat := 0x1_0000_0000
  const W64: nat := 0x1_0000_0000_0000_0000

  type byte = x: int | 0 <= x < 256
  type u32 = x: int | 0 <= x < 0x1_0000_0000
  type u64 = x: int | 0 <= x < 0x1_0000_0000_0000_0000

  function Add32(a: u32, b: int): u32 { (a + b) % W32 }

  function Sub32(a: u32, b: u32): u32 { (a - b) % W32 }

  function ToU32(x: int): u32 { x % W32 }

  function ToU64(x: int): u64 { x % W64 }

  /** The C cast from `uint64_t` to `int64_t`. */
  function ToI64(x: u64): int { if x < 0x8000_0000_0000_0000 then x else x - W64 }

  /** A ring size: a divisor of 2^32 (libbpf and the kernel accept only powers of two). */
  ghost predicate RingSize(n: int) { 0 < n < W32 && W32 % n == 0 }

  /** Masking a wrapped counter gives the same slot as reducing the counter that never wraps. */
  lemma MaskIgnoresWrap(counter: nat, n: int)
    requires RingSize(n)
    ensures ToU32(counter) % n == counter % n
  {
    var q, k := counter / W32, W32 / n;
    assert counter == W32 * q + ToU32(counter);
    assert W32 == n * k;
    assert W32 * q == n * (k * q);
    ModShift(ToU32(counter), n, k * q);
  }

  /** Sums and differences of wrapped counters are those of the counters. */
  lemma DifferenceSurvivesWrap(a: nat, b: nat)
    requires b <= a < b + W32
    ensures Sub32(ToU32(a), ToU32(b)) == a - b
  {
    var qa, qb := a / W32, b / W32;
    assert a - b == W32 * (qa - qb) + (ToU32(a) - ToU32(b));
    ModShift(ToU32(a) - ToU32(b), W32, qa - qb);
  }

  lemma SumSurvivesWrap(a: nat, b: nat)
    ensures Add32(ToU32(a), b) == ToU32(a + b)
  {
    ModShift(ToU32(a) + b, W32, a / W32);
  }

  lemma ModShift(a: int, n: int, k: int)
    requires n > 0
    ensures (n * k + a) % n == a % n
  {
    var q := (n * k + a) / n;
    var r := (n * k + a) % n;
    assert n * k + a == n * q + r;
    assert a == n * (q - k) + r;
    ModUnique(a, n, q - k, r);
  }

  lemma MultipleIsFar(n: int, d: int)
    requires n > 0
    ensures d >= 1 ==> n * d >= n
    ensures d <= -1 ==> n * d <= -n
    ensures d <= 0 ==> n * d <= 0
  {
  }

  /** Euclidean division is determined by its remainder's range. */
  lemma ModUnique(a: int, n: int, q: int, r: int)
    requires n > 0 && a == n * q + r && 0 <= r < n
    ensures a % n == r && a / n == q
  {
    var q', r' := a / n, a % n;
    assert n * (q - q') == r' - r;
    MultipleIsFar(n, q - q');
  }

  /** Two counters less than `n` apart and distinct never share a slot. */
  lemma SlotsDiffer(i: int, j: int, n: int)
    requires n > 0 && i < j < i + n
    ensures i % n != j % n
  {
    var d := j / n - i / n;
    assert j - i == n * d + (j % n - i % n);
    MultipleIsFar(n, d);
  }
}
