/** Types and small facts shared by all the modules. */
module Prelude {

  type byte = x: int | 0 <= x < 256

  type Bytes = seq<byte>

  /** The C++ `std::int32_t`. Dafny rejects any operation on it that could leave the range,
      which is where the signed overflow of C++ would be undefined. */
  newtype int32 = x: int | -0x8000_0000 <= x < 0x8000_0000

  const INT32_MAX := 0x7fff_ffff

  datatype Option<+T> = None | Some(value: T)

  /** A value, or the exception of class `klib::RuntimeError` that a function throws instead. */
  datatype Result<+T> = Ok(value: T) | RuntimeError

  lemma MulNonNegative(a: int, b: int)
    requires 0 <= a && 0 <= b
    ensures 0 <= a * b
  {
  }

  lemma MulMonotone(a: int, b: int, c: int)
    requires 0 <= c
    ensures a >= b ==> a * c >= b * c
  {
  }

  lemma MultipleAtLeast(k: int, d: int)
    requires 0 < d
    ensures k >= 1 ==> k * d >= d
    ensures k <= -1 ==> k * d <= -d
  {
  }

  lemma DivModUnique(n: int, d: int, q: int, r: int)
    requires 0 <= r < d
    requires n == q * d + r
    ensures n / d == q
    ensures n % d == r
  {
    assert n == n / d * d + n % d;
    assert (q - n / d) * d == q * d - n / d * d;
    MultipleAtLeast(q - n / d, d);
  }

  /** Row-major indices of a grid stay inside the grid. */
  lemma IndexInGrid(y: int, x: int, rows: int, columns: int)
    requires 0 <= y < rows
    requires 0 <= x < columns
    ensures 0 <= y * columns
    ensures y * columns + x < rows * columns
  {
    MulNonNegative(y, columns);
    MulNonNegative(rows - 1 - y, columns);
    assert (rows - 1 - y) * columns == rows * columns - columns - y * columns;
  }

  lemma SliceOfSlice<T>(s: seq<T>, k: nat, n: nat)
    requires k <= n <= |s|
    ensures s[..n][k..] == s[k..][..n - k]
    ensures s[k..][n - k..] == s[n..]
  {
  }

  lemma SliceBehind<T>(a: seq<T>, b: seq<T>, i: nat, j: nat)
    requires i <= j <= |b|
    ensures (a + b)[|a| + i..|a| + j] == b[i..j]
  {
  }

  /** What a C library sees of a `std::string` passed as `c_str()`: the bytes before the first NUL. */
  function CString(s: Bytes): (r: Bytes)
    ensures r <= s
    ensures 0 !in r
    ensures r == s <==> 0 !in s
  {
    if s == [] || s[0] == 0 then [] else [s[0]] + CString(s[1..])
  }
}
