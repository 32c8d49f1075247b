/** Small shared vocabulary: optional values, integer helpers and the
    width of the C++ `size_t` type the original code computes with. */
module Common {

  datatype Option<T> = None | Some(value: T)

  /** An indexed chunk: the file it came from and its text. Row `i` of an
      index belongs to document `i`. */
  datatype Document = Document(filename: string, text: string)

  function Min(a: int, b: int): (m: int)
    ensures m <= a && m <= b && (m == a || m == b)
  {
    if a <= b then a else b
  }

  /** `a * b` as repeated addition. Offsets into row-major buffers are
      stated with it, which keeps products of two variables out of the
      solver's arithmetic; `TimesIsProduct` ties it to `*`. */
  function Times(a: nat, b: nat): nat {
    if a == 0 then 0 else Times(a - 1, b) + b
  }

  lemma {:induction false} TimesIsProduct(a: nat, b: nat)
    ensures Times(a, b) == a * b
  {
    if a > 0 {
      TimesIsProduct(a - 1, b);
      assert (a - 1) * b + b == a * b;
    }
  }

  /** Appending `b` rows of `c` values to `a` rows gives `a + b` rows. */
  lemma {:induction false} TimesAdd(a: nat, b: nat, c: nat)
    ensures Times(a + b, c) == Times(a, c) + Times(b, c)
    decreases b
  {
    if b > 0 {
      TimesAdd(a, b - 1, c);
    }
  }

  /** Row `i` of a buffer of `n` rows of `b` values lies inside it. */
  lemma {:induction false} TimesMonotone(i: nat, n: nat, b: nat)
    requires i < n
    ensures Times(i, b) + b <= Times(n, b)
    decreases n
  {
    if i + 1 < n {
      TimesMonotone(i, n - 1, b);
    }
  }

  lemma TimesMonotoneLe(i: nat, n: nat, b: nat)
    requires i <= n
    ensures Times(i, b) <= Times(n, b)
  {
    if i < n {
      TimesMonotone(i, n, b);
    }
  }

  /** 2^64: arithmetic on `size_t` wraps modulo this value. */
  const SIZE_T_MODULUS: nat := 0x1_0000_0000_0000_0000

  /** Range of a 32-bit `int`. */
  const INT32_MIN: int := -0x8000_0000
  const INT32_MAX: int := 0x7FFF_FFFF

  predicate IsInt32(x: int) {
    INT32_MIN <= x <= INT32_MAX
  }

  /** `x` occurs in `s` as a contiguous piece. */
  predicate ContainsAt(s: string, x: string, p: nat) {
    p + |x| <= |s| && s[p..p + |x|] == x
  }

  predicate Contains(s: string, x: string) {
    exists p: nat | p <= |s| :: ContainsAt(s, x, p)
  }
}
