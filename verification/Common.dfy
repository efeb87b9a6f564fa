/** Bytes and the fixed-width integer ranges shared by the models. */
module Common {

  type byte = x: int | 0 <= x < 0x100

  type u16 = x: int | 0 <= x < 0x1_0000

  // Every assignment to a u32 variable is checked to stay below 2^32, so a model that keeps
  // its accumulator in a u32 is at the same time a proof that the accumulator never wraps.
  type u32 = x: int | 0 <= x < 0x1_0000_0000

  datatype Option<+T> = None | Some(value: T)

  function Min(a: int, b: int): int {
    if a < b then a else b
  }

  lemma Assoc<T>(a: seq<T>, b: seq<T>, c: seq<T>)
    ensures (a + b) + c == a + (b + c)
  {
  }

  lemma SubSlice<T>(s: seq<T>, e: nat, q: nat, i: nat, j: nat)
    requires e <= q <= |s| && i <= j <= q - e
    ensures s[e..q][i..j] == s[e + i..e + j]
  {
    forall k | 0 <= k < j - i ensures s[e..q][i..j][k] == s[e + i..e + j][k] {
      assert s[e..q][i..j][k] == s[e..q][i + k] == s[e + i + k];
    }
  }
}
