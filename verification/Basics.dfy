/** Types shared by every component: bytes, machine integers, optional values. */
module Basics {

  type byte = b: int | 0 <= b < 256

  const TWO_32: int := 0x1_0000_0000

  /** Rust's u32. Arithmetic on it is checked: every sum, product and difference
      written over u32 in this project is proved to stay in range. */
  newtype u32 = x: int | 0 <= x < 0x1_0000_0000

  datatype Option<+T> = None | Some(value: T)

  function Min(a: int, b: int): int { if a <= b then a else b }

  /** n & !1. */
  function Even(n: nat): nat { n / 2 * 2 }

  /** The newest n elements. */
  function Newest<T>(s: seq<T>, n: nat): seq<T> { if |s| <= n then s else s[|s| - n..] }

  /** They are the last ones, all of them if there are no more than n. */
  lemma NewestWrittenOut<T>(s: seq<T>, n: nat)
    ensures |Newest(s, n)| == Min(|s|, n)
    ensures forall i | 0 <= i < |Newest(s, n)| :: Newest(s, n)[i] == s[|s| - |Newest(s, n)| + i]
  {
  }

  /** Concatenation of a list of sequences. */
  function Flatten<T>(parts: seq<seq<T>>): seq<T> {
    if parts == [] then [] else parts[0] + Flatten(parts[1..])
  }

  /** The two facts about products that index arithmetic needs. */
  lemma {:induction false} TimesMonotone(a: nat, b: nat, n: nat)
    requires a <= b
    ensures a * n <= b * n && (a > 0 ==> a * n == (a - 1) * n + n)
    decreases b - a
  {
    if a < b {
      TimesMonotone(a, b - 1, n);
      assert b * n == (b - 1) * n + n;
    }
  }
}
