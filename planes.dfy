/** Image planes: a numpy `(H, W, C)` array of `uint8` samples is an
    `array3<byte>` indexed `[row, column, channel]`. */
module Planes {
  import Bits

  type byte = Bits.byte

  /** `a[y, :, c]`: row `y` of channel `c`, as a sequence of samples. */
  function Row(a: array3<byte>, y: nat, c: nat): (r: seq<byte>)
    reads a
    requires y < a.Length0 && c < a.Length2
    ensures |r| == a.Length1
    ensures forall k | 0 <= k < |r| :: r[k] == a[y, k, c]
  {
    seq(a.Length1, k requires 0 <= k < a.Length1 reads a => a[y, k, c])
  }

  /** `a[y, :, c] = row`: one row replaced, every other row kept. */
  method PutRow(a: array3<byte>, y: nat, c: nat, row: seq<int>)
    requires y < a.Length0 && c < a.Length2 && |row| == a.Length1
    requires forall k | 0 <= k < |row| :: 0 <= row[k] < 256
    modifies a
    ensures Row(a, y, c) == row
    ensures forall y', c' | 0 <= y' < a.Length0 && 0 <= c' < a.Length2 && (y' != y || c' != c) ::
      Row(a, y', c') == old(Row(a, y', c'))
  {
    forall k | 0 <= k < |row| {
      a[y, k, c] := row[k];
    }
    assert Row(a, y, c) == row;
  }

  /** `a[y, :len(prefix), c] = prefix`: the first columns of one row
      replaced, the rest of it and every other row kept. */
  method PutPrefix(a: array3<byte>, y: nat, c: nat, prefix: seq<byte>)
    requires y < a.Length0 && c < a.Length2 && |prefix| <= a.Length1
    modifies a
    ensures Row(a, y, c) == prefix + old(Row(a, y, c))[|prefix|..]
    ensures forall y', c' | 0 <= y' < a.Length0 && 0 <= c' < a.Length2 && (y' != y || c' != c) ::
      Row(a, y', c') == old(Row(a, y', c'))
  {
    forall k | 0 <= k < |prefix| {
      a[y, k, c] := prefix[k];
    }
    assert Row(a, y, c) == prefix + old(Row(a, y, c))[|prefix|..];
  }

  /** Sample `v` of column `k` after `^= 0b11` on the odd columns. */
  function FlipOdd(v: byte, k: nat): (r: byte)
    ensures r / 4 == v / 4 && (v < 4 ==> r < 4)
    ensures k % 2 == 0 ==> r == v
    ensures k % 2 == 1 ==> r % 4 == 3 - v % 4
  {
    if k % 2 == 1 then Bits.Flip(v) else v
  }

  /** Flipping the odd columns twice gives every sample back. */
  lemma FlipOddTwice(v: byte, k: nat)
    ensures FlipOdd(FlipOdd(v, k), k) == v
  {
    if k % 2 == 1 {
      Bits.FlipInvolutive(v);
    }
  }

  /** `arr[:, 1::2, c] ^= 0b11` for every channel `c`, in place: the odd
      columns have their two low bits inverted, the even ones are left alone. */
  method XorOddColumns(arr: array3<byte>)
    modifies arr
    ensures forall y, k, c | 0 <= y < arr.Length0 && 0 <= k < arr.Length1 && 0 <= c < arr.Length2 ::
      arr[y, k, c] == FlipOdd(old(arr[y, k, c]), k)
  {
    for c := 0 to arr.Length2
      invariant forall y, k, c' | 0 <= y < arr.Length0 && 0 <= k < arr.Length1 && 0 <= c' < arr.Length2 ::
        arr[y, k, c'] == if c' < c then FlipOdd(old(arr[y, k, c']), k) else old(arr[y, k, c'])
    {
      forall y, k | 0 <= y < arr.Length0 && 0 <= k < arr.Length1 && k % 2 == 1 {
        arr[y, k, c] := Bits.Flip(arr[y, k, c]);
      }
    }
  }

  /** Running the odd-column flip twice, as `encode_bits` and then
      `decodeBits` do, leaves the array as it was. */
  method XorOddColumnsTwice(arr: array3<byte>)
    modifies arr
    ensures forall y, k, c | 0 <= y < arr.Length0 && 0 <= k < arr.Length1 && 0 <= c < arr.Length2 ::
      arr[y, k, c] == old(arr[y, k, c])
  {
    XorOddColumns(arr);
    XorOddColumns(arr);
    forall y, k, c | 0 <= y < arr.Length0 && 0 <= k < arr.Length1 && 0 <= c < arr.Length2
      ensures arr[y, k, c] == old(arr[y, k, c])
    {
      FlipOddTwice(old(arr[y, k, c]), k);
    }
  }
}
