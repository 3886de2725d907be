/** The decode side on image planes: the two low bits of every sample are
    read back, the odd columns flipped again, column pairs recombined into
    slots, and every slot replaced by the triple of codes it stands for. */
module Extract {
  import Bits
  import KeyedPermutation
  import Wrappers
  import Planes

  type byte = Bits.byte
  type Triple = KeyedPermutation.Triple

  // -------------------------------------------------------- sample level

  /** `(h << 2) | l` on `uint8` samples: the shift drops the top two bits of
      `h`, and for a two-bit `l` the two parts do not overlap. */
  function Combine(h: byte, l: byte): (r: byte)
    ensures l < 4 ==> r == 4 * (h % 64) + l
  {
    ShiftedOr(h, l);
    Bits.Or(Bits.ShiftLeftByte(h, 2), l)
  }

  /** The arithmetic behind `Combine`. */
  lemma ShiftedOr(h: byte, l: byte)
    ensures Bits.ShiftLeftByte(h, 2) == 4 * (h % 64)
    ensures Bits.Or(Bits.ShiftLeftByte(h, 2), l) < 256
    ensures l < 4 ==> Bits.Or(Bits.ShiftLeftByte(h, 2), l) == 4 * (h % 64) + l
  {
    var shifted := Bits.ShiftLeftByte(h, 2);
    SmallPowers();
    ShiftByTwo(h);
    Bits.OrBelow(shifted, l, 8);
    if l < 4 {
      Bits.OrDisjoint(h % 64, l, 2);
    }
  }

  lemma SmallPowers()
    ensures Bits.Pow2(2) == 4 && Bits.Pow2(8) == 256
  {
    assert Bits.Pow2(4) == 16;
    assert Bits.Pow2(6) == 64;
  }

  /** `(4 * h) % 256` keeps the six low bits of `h`, shifted. */
  lemma ShiftByTwo(h: byte)
    ensures Bits.ShiftLeftByte(h, 2) == (h % 64) * Bits.Pow2(2)
  {
    SmallPowers();
    Bits.DivModUnique(4 * h, 256, h / 64, 4 * (h % 64));
  }

  /** Two two-bit fragments recombine into a slot below 16. */
  lemma CombineSmall(h: byte, l: byte)
    requires h < 4 && l < 4
    ensures Combine(h, l) == 4 * h + l && Combine(h, l) < 16
  {
    Bits.DivModUnique(h, 64, 0, h);
  }

  // --------------------------------------------------------- plane level

  /** `extract_msb(img)`: `arr & 0b00000011` on every sample. */
  method ExtractMsb(img: array3<byte>) returns (low: array3<byte>)
    ensures fresh(low)
    ensures low.Length0 == img.Length0 && low.Length1 == img.Length1 && low.Length2 == img.Length2
    ensures forall y, x, c | 0 <= y < low.Length0 && 0 <= x < low.Length1 && 0 <= c < low.Length2 ::
      low[y, x, c] == img[y, x, c] % 4
  {
    low := new byte[img.Length0, img.Length1, img.Length2];
    forall y, x, c | 0 <= y < img.Length0 && 0 <= x < img.Length1 && 0 <= c < img.Length2 {
      low[y, x, c] := Bits.LowTwo(img[y, x, c]);
    }
  }

  /** One row of `array_conversion`: `high_bits[:new_W] | low_bits[:new_W]`
      with `high_bits = row[0::2] << 2` and `low_bits = row[1::2]`. */
  function ConvertedRow(row: seq<byte>): (r: seq<byte>)
    ensures |r| == |row| / 2
    ensures forall k | 0 <= k < |r| :: r[k] == Combine(row[2 * k], row[2 * k + 1])
  {
    seq(|row| / 2, k requires 0 <= k < |row| / 2 => Combine(row[2 * k], row[2 * k + 1]))
  }

  /** On two-bit fragments, the converted row holds the slots `4 * high + low`,
      each below 16. */
  lemma ConvertedRowSmall(row: seq<byte>)
    requires forall k | 0 <= k < |row| :: row[k] < 4
    ensures forall k | 0 <= k < |row| / 2 ::
      ConvertedRow(row)[k] == 4 * row[2 * k] + row[2 * k + 1] && ConvertedRow(row)[k] < 16
  {
    forall k | 0 <= k < |row| / 2
      ensures ConvertedRow(row)[k] == 4 * row[2 * k] + row[2 * k + 1] && ConvertedRow(row)[k] < 16
    {
      CombineSmall(row[2 * k], row[2 * k + 1]);
    }
  }

  /** `array_conversion(a)`: column `k` of the result recombines columns
      `2k` (shifted up by two) and `2k + 1` of the input; a trailing odd
      column is dropped. */
  method ArrayConversion(a: array3<byte>) returns (out: array3<byte>)
    ensures fresh(out)
    ensures out.Length0 == a.Length0 && out.Length1 == a.Length1 / 2 && out.Length2 == a.Length2
    ensures forall y, k, c | 0 <= y < out.Length0 && 0 <= k < out.Length1 && 0 <= c < out.Length2 ::
      out[y, k, c] == Combine(a[y, 2 * k, c], a[y, 2 * k + 1, c])
  {
    var H, W, C := a.Length0, a.Length1, a.Length2;
    out := new byte[H, W / 2, C]((_, _, _) => 0);
    for c := 0 to C
      invariant forall y', c' | 0 <= y' < H && 0 <= c' < c ::
        Planes.Row(out, y', c') == ConvertedRow(Planes.Row(a, y', c'))
    {
      for y := 0 to H
        invariant forall y', c' | 0 <= y' < H && 0 <= c' < C && (c' < c || (c' == c && y' < y)) ::
          Planes.Row(out, y', c') == ConvertedRow(Planes.Row(a, y', c'))
      {
        Planes.PutRow(out, y, c, ConvertedRow(Planes.Row(a, y, c)));
      }
    }
    forall y, k, c | 0 <= y < H && 0 <= k < W / 2 && 0 <= c < C
      ensures out[y, k, c] == Combine(a[y, 2 * k, c], a[y, 2 * k + 1, c])
    {
      assert out[y, k, c] == Planes.Row(out, y, c)[k];
      assert a[y, 2 * k, c] == Planes.Row(a, y, c)[2 * k];
      assert a[y, 2 * k + 1, c] == Planes.Row(a, y, c)[2 * k + 1];
    }
  }

  // -------------------------------------------------- reverse_to_original

  /** The codes `row.extend(t)` adds for one value: those of the triple the
      search found, or nothing. */
  function Unpack(found: Wrappers.Option<Triple>): (r: seq<nat>)
  {
    match found
    case None => []
    case Some(t) => [t.0, t.1, t.2]
  }

  /** The search `reverse_to_original` runs for every value in the table
      of the key: the first triple, in insertion order, whose slot it is. */
  function Search(table: map<Triple, nat>): (find: nat -> Wrappers.Option<Triple>)
  {
    (v: nat) => KeyedPermutation.Unmap(table, v)
  }

  /** The row `reverse_to_original` builds from the values of one row before
      padding: every value is replaced by the triple `find` gives for it, and
      a value it finds nothing for adds nothing. */
  function Expand(find: nat -> Wrappers.Option<Triple>, vals: seq<nat>): (r: seq<nat>)
  {
    if vals == [] then []
    else Expand(find, vals[..|vals| - 1]) + Unpack(find(vals[|vals| - 1]))
  }

  /** `while len(row) < n: row.append(0)` followed by `row[:n]`. */
  function Fit(row: seq<nat>, n: nat): (r: seq<nat>)
    ensures |r| == n
    ensures forall k | 0 <= k < n :: r[k] == if k < |row| then row[k] else 0
  {
    if |row| >= n then row[..n] else row + seq(n - |row|, _ => 0)
  }

  /** Every code of a triple is below 16. */
  lemma TriplesSmall()
    ensures forall t | t in KeyedPermutation.SortedTuples :: t.0 < 16 && t.1 < 16 && t.2 < 16
  {
  }

  /** `for t, mapped in mapping_b.items(): if val == mapped: ... break`:
      the items come in insertion order, which is sorted order, and the
      first triple whose slot is `val` is the one found. */
  method SearchItems(mapping: map<Triple, nat>, val: nat) returns (found: Wrappers.Option<Triple>)
    requires forall t | t in KeyedPermutation.SortedTuples :: t in mapping
    ensures found == KeyedPermutation.Unmap(mapping, val)
    ensures found.Some? ==> found.value.0 < 16 && found.value.1 < 16 && found.value.2 < 16
  {
    found := Wrappers.None;
    for i := 0 to |KeyedPermutation.SortedTuples|
      invariant found.None?
      invariant KeyedPermutation.Unmap(mapping, val) == KeyedPermutation.FindSlotFrom(mapping, val, i)
    {
      var t := KeyedPermutation.SortedTuples[i];
      if val == mapping[t] {
        TriplesSmall();
        found := Wrappers.Some(t);
        break;
      }
    }
  }

  /** One row of `reverse_to_original`: every value adds the triple the
      search finds for it, if any; then the row is padded with zeros or cut
      to `3 * W`. */
  method ReverseRow(ex: array3<byte>, mapping: map<Triple, nat>, y: nat, c: nat) returns (row: seq<nat>)
    requires y < ex.Length0 && c < ex.Length2
    requires forall t | t in KeyedPermutation.SortedTuples :: t in mapping
    ensures row == Fit(Expand(Search(mapping), Planes.Row(ex, y, c)), 3 * ex.Length1)
    ensures forall k | 0 <= k < |row| :: row[k] < 16
  {
    ghost var vals := Planes.Row(ex, y, c);
    row := [];
    for x := 0 to ex.Length1
      invariant row == Expand(Search(mapping), vals[..x])
      invariant forall k | 0 <= k < |row| :: row[k] < 16
    {
      var found := SearchItems(mapping, ex[y, x, c]);
      row := row + Unpack(found);
      assert vals[..x + 1][..x] == vals[..x];
    }
    assert vals[..ex.Length1] == vals;
    row := PadRow(row, 3 * ex.Length1);
  }

  /** `while len(row) < n: row.append(0)` and then `row[:n]`. */
  method PadRow(row0: seq<nat>, n: nat) returns (row: seq<nat>)
    requires forall k | 0 <= k < |row0| :: row0[k] < 16
    ensures row == Fit(row0, n)
    ensures forall k | 0 <= k < |row| :: row[k] < 16
  {
    row := row0;
    while |row| < n
      invariant |row0| <= |row| && row[..|row0|] == row0
      invariant |row| <= |row0| || |row| <= n
      invariant forall k | |row0| <= k < |row| :: row[k] == 0
      invariant forall k | 0 <= k < |row| :: row[k] < 16
    {
      row := row + [0];
    }
    row := row[..n];
    assert forall k | 0 <= k < |row| :: row[k] == Fit(row0, n)[k];
  }

  /** `reverse_to_original(extracted_array, key)`: every row is rebuilt
      from its values with the key's table, three codes per value, into an
      array three times as wide. */
  method ReverseToOriginal(ex: array3<byte>, key: string, digest: string -> nat) returns (enc: array3<byte>)
    ensures fresh(enc)
    ensures enc.Length0 == ex.Length0 && enc.Length1 == 3 * ex.Length1 && enc.Length2 == ex.Length2
    ensures forall y, c | 0 <= y < ex.Length0 && 0 <= c < ex.Length2 ::
      Planes.Row(enc, y, c) == Fit(Expand(Search(KeyedPermutation.Table(key, digest)), Planes.Row(ex, y, c)), 3 * ex.Length1)
  {
    var H, W, C := ex.Length0, ex.Length1, ex.Length2;
    enc := new byte[H, W * 3, C]((_, _, _) => 0);
    var mapping := KeyedPermutation.GenerateMapping(key, digest);
    KeyedPermutation.TableKeys(key, digest);
    for c := 0 to C
      invariant forall y', c' | 0 <= y' < H && 0 <= c' < c ::
        Planes.Row(enc, y', c') == Fit(Expand(Search(mapping), Planes.Row(ex, y', c')), 3 * W)
    {
      for y := 0 to H
        invariant forall y', c' | 0 <= y' < H && 0 <= c' < C && (c' < c || (c' == c && y' < y)) ::
          Planes.Row(enc, y', c') == Fit(Expand(Search(mapping), Planes.Row(ex, y', c')), 3 * W)
      {
        var row := ReverseRow(ex, mapping, y, c);
        Planes.PutRow(enc, y, c, row);
      }
    }
  }

  // ------------------------------------------------------------ properties

  /** Every value found adds three codes, a value not found adds none: the
      rebuilt row is exactly three times as long as the values if and only if
      every value was found. */
  lemma {:induction false} ExpandLength(find: nat -> Wrappers.Option<Triple>, vals: seq<nat>)
    ensures |Expand(find, vals)| <= 3 * |vals|
    ensures |Expand(find, vals)| == 3 * |vals| <==> forall i | 0 <= i < |vals| :: find(vals[i]).Some?
  {
    if vals != [] {
      var front := vals[..|vals| - 1];
      ExpandLength(find, front);
      if forall i | 0 <= i < |vals| :: find(vals[i]).Some? {
        assert forall i | 0 <= i < |front| :: find(front[i]).Some? by {
          forall i | 0 <= i < |front|
            ensures find(front[i]).Some?
          {
            assert front[i] == vals[i];
          }
        }
      } else {
        var i :| 0 <= i < |vals| && find(vals[i]).None?;
        if i < |front| {
          assert front[i] == vals[i];
        }
      }
    }
  }

  /** When every value is found, codes `3i .. 3i+2` of the rebuilt row are
      the triple found for value `i`. */
  lemma {:induction false} ExpandAt(find: nat -> Wrappers.Option<Triple>, vals: seq<nat>, i: nat)
    requires forall k | 0 <= k < |vals| :: find(vals[k]).Some?
    requires i < |vals|
    ensures |Expand(find, vals)| == 3 * |vals|
    ensures Expand(find, vals)[3 * i..3 * i + 3] == Unpack(find(vals[i]))
  {
    var front := vals[..|vals| - 1];
    assert forall k | 0 <= k < |front| :: find(front[k]).Some? by {
      forall k | 0 <= k < |front|
        ensures find(front[k]).Some?
      {
        assert front[k] == vals[k];
      }
    }
    ExpandLength(find, front);
    var before := Expand(find, front);
    var last := Unpack(find(vals[|vals| - 1]));
    assert find(vals[|vals| - 1]).Some?;
    assert Expand(find, vals) == before + last;
    if i < |front| {
      ExpandAt(find, front, i);
      assert front[i] == vals[i];
      TripleOfFront(before, last, i);
    } else {
      TripleOfLast(before, last, i);
    }
  }

  /** A triple inside the first part of a concatenation. */
  lemma TripleOfFront(before: seq<nat>, last: seq<nat>, i: nat)
    requires 3 * i + 3 <= |before|
    ensures (before + last)[3 * i..3 * i + 3] == before[3 * i..3 * i + 3]
  {
  }

  /** The triple that makes up the second part of a concatenation. */
  lemma TripleOfLast(before: seq<nat>, last: seq<nat>, i: nat)
    requires |before| == 3 * i && |last| == 3
    ensures (before + last)[3 * i..3 * i + 3] == last
  {
  }

  /** With the key's table and values that are all slots (below 16), every
      value is found and the rebuilt row needs no padding: codes `3i .. 3i+2`
      are the triple whose slot is value `i`. */
  lemma ReverseRecovers(key: string, digest: string -> nat, vals: seq<nat>, i: nat)
    requires forall k | 0 <= k < |vals| :: vals[k] < 16
    requires i < |vals|
    ensures KeyedPermutation.Unmap(KeyedPermutation.Table(key, digest), vals[i]).Some?
    ensures Fit(Expand(Search(KeyedPermutation.Table(key, digest)), vals), 3 * |vals|) ==
            Expand(Search(KeyedPermutation.Table(key, digest)), vals)
    ensures Expand(Search(KeyedPermutation.Table(key, digest)), vals)[3 * i..3 * i + 3] ==
            Unpack(KeyedPermutation.Unmap(KeyedPermutation.Table(key, digest), vals[i]))
  {
    var find := Search(KeyedPermutation.Table(key, digest));
    forall k | 0 <= k < |vals|
      ensures find(vals[k]).Some?
    {
      KeyedPermutation.UnmapFinds(key, digest, vals[k]);
    }
    ExpandAt(find, vals, i);
  }
}
