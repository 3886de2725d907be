/** The two sides together: codes hidden by `process_array`, `encode_bits`
    and `embed` come back out of `extract_msb`, `decodeBits`,
    `array_conversion` and `reverse_to_original` run with the same key. */
module RoundTrip {
  import Bits
  import Text
  import KeyedPermutation
  import Planes
  import Embed
  import Extract

  type byte = Bits.byte

  // -------------------------------------------------------- sample level

  /** A fragment flipped on its column and stored in the two low bits of a
      sample is the fragment again once masked out and flipped back. */
  lemma FragmentSurvives(p: byte, s: byte, k: nat)
    requires p < 4 && s % 4 == Planes.FlipOdd(p, k)
    ensures Planes.FlipOdd(s % 4, k) == p
  {
    Planes.FlipOddTwice(p, k);
  }

  /** A two-bit value is its own two low bits. */
  lemma ModSmall(v: nat)
    requires v < 4
    ensures v % 4 == v
  {
  }

  /** The two fragments of a slot recombine into the slot. */
  lemma SlotSurvives(m: nat)
    requires m < 16
    ensures Extract.Combine(Embed.High(m), Bits.LowTwo(m)) == m
  {
    Embed.FragmentsOfSlot(m);
    Extract.CombineSmall(Embed.High(m), Bits.LowTwo(m));
  }

  // --------------------------------------------------------- plane level

  /** `embed(encode_bits(process_array(encoded, key)), cover)`: inside the
      region both arrays share, the two low bits of every stego sample are
      the processed fragment, flipped on odd columns. */
  method EmbedSide(encoded: array3<byte>, cover: array3<byte>, key: string, digest: string -> nat)
    returns (stego: array3<byte>)
    requires encoded.Length2 <= cover.Length2
    ensures fresh(stego)
    ensures stego.Length0 == cover.Length0 && stego.Length1 == cover.Length1 && stego.Length2 == cover.Length2
    ensures forall y, k, c | 0 <= y < Text.Min(encoded.Length0, cover.Length0) && 0 <= c < encoded.Length2 &&
        0 <= k < Text.Min(Embed.ProcessedWidth(encoded.Length1), cover.Length1) ::
      stego[y, k, c] % 4 ==
        Planes.FlipOdd(Embed.ProcessedRow(KeyedPermutation.Table(key, digest), Planes.Row(encoded, y, c))[k], k)
  {
    var processed := Embed.ProcessArray(encoded, key, digest);
    label processedRows:
    Planes.XorOddColumns(processed);
    forall y, k, c | 0 <= y < processed.Length0 && 0 <= k < processed.Length1 && 0 <= c < processed.Length2
      ensures processed[y, k, c] ==
        Planes.FlipOdd(Embed.ProcessedRow(KeyedPermutation.Table(key, digest), Planes.Row(encoded, y, c))[k], k)
      ensures processed[y, k, c] < 4
    {
      assert old@processedRows(processed[y, k, c]) == old@processedRows(Planes.Row(processed, y, c))[k];
    }
    stego := Embed.EmbedPlanes(processed, cover);
    forall y, k, c | 0 <= y < Text.Min(encoded.Length0, cover.Length0) && 0 <= c < encoded.Length2 &&
        0 <= k < Text.Min(Embed.ProcessedWidth(encoded.Length1), cover.Length1)
      ensures stego[y, k, c] % 4 ==
        Planes.FlipOdd(Embed.ProcessedRow(KeyedPermutation.Table(key, digest), Planes.Row(encoded, y, c))[k], k)
    {
      var v := processed[y, k, c];
      assert v < 4;
      assert stego[y, k, c] % 4 == v % 4;
      ModSmall(v);
    }
  }

  /** `array_conversion(decodeBits(extract_msb(stego)))` and then
      `reverse_to_original` with the key: every value is the recombined,
      unflipped low bits of a column pair, hence below 16. */
  method ExtractSide(stego: array3<byte>, key: string, digest: string -> nat)
    returns (combined: array3<byte>, recovered: array3<byte>)
    ensures fresh(combined) && fresh(recovered)
    ensures combined.Length0 == stego.Length0 && combined.Length1 == stego.Length1 / 2
    ensures combined.Length2 == stego.Length2
    ensures forall y, k, c | 0 <= y < combined.Length0 && 0 <= k < combined.Length1 && 0 <= c < combined.Length2 ::
      combined[y, k, c] ==
        Extract.Combine(Planes.FlipOdd(stego[y, 2 * k, c] % 4, 2 * k), Planes.FlipOdd(stego[y, 2 * k + 1, c] % 4, 2 * k + 1))
    ensures forall y, k, c | 0 <= y < combined.Length0 && 0 <= k < combined.Length1 && 0 <= c < combined.Length2 ::
      combined[y, k, c] < 16
    ensures recovered.Length0 == stego.Length0 && recovered.Length1 == 3 * (stego.Length1 / 2)
    ensures recovered.Length2 == stego.Length2
    ensures forall y, c | 0 <= y < combined.Length0 && 0 <= c < combined.Length2 ::
      Planes.Row(recovered, y, c) ==
        Extract.Fit(Extract.Expand(Extract.Search(KeyedPermutation.Table(key, digest)), Planes.Row(combined, y, c)), 3 * combined.Length1)
  {
    var low := Extract.ExtractMsb(stego);
    label masked:
    Planes.XorOddColumns(low);
    forall y, k, c | 0 <= y < low.Length0 && 0 <= k < low.Length1 && 0 <= c < low.Length2
      ensures low[y, k, c] == Planes.FlipOdd(stego[y, k, c] % 4, k) && low[y, k, c] < 4
    {
      assert old@masked(low[y, k, c]) == stego[y, k, c] % 4;
    }
    combined := Extract.ArrayConversion(low);
    forall y, k, c | 0 <= y < combined.Length0 && 0 <= k < combined.Length1 && 0 <= c < combined.Length2
      ensures combined[y, k, c] < 16
    {
      Extract.CombineSmall(low[y, 2 * k, c], low[y, 2 * k + 1, c]);
    }
    recovered := Extract.ReverseToOriginal(combined, key, digest);
  }

  /** Group `g` of a row is complete and holds one of the sixteen triples. */
  predicate IsTriple(row: seq<byte>, g: nat)
  {
    3 * g + 3 <= |row| && (row[3 * g] as nat, row[3 * g + 1] as nat, row[3 * g + 2] as nat) in KeyedPermutation.Tuples
  }

  /** A group of a row of width `w` has its two fragment columns inside the
      processed row. */
  lemma GroupFits(k: nat, w: nat)
    requires k < (w + 2) / 3
    ensures 3 * k < w && 2 * k + 1 < Embed.ProcessedWidth(w)
  {
    var q := (w + 2) / 3;
    assert w + 2 == 3 * q + (w + 2) % 3;
    assert w == 3 * (w / 3) + w % 3;
  }

  /** A complete group is one of the row's groups. */
  lemma GroupOfTriple(g: nat, w: nat)
    requires 3 * g + 3 <= w
    ensures g < (w + 2) / 3
  {
    assert w + 2 == 3 * ((w + 2) / 3) + (w + 2) % 3;
  }

  /** The slot of a group holding a key triple is the triple's slot. */
  lemma SlotOfTriple(table: map<KeyedPermutation.Triple, nat>, row: seq<byte>, g: nat)
    requires IsTriple(row, g)
    requires (row[3 * g] as nat, row[3 * g + 1] as nat, row[3 * g + 2] as nat) in table
    ensures g < |Embed.RowSlots(table, row)|
    ensures Embed.RowSlots(table, row)[g] == table[(row[3 * g] as nat, row[3 * g + 1] as nat, row[3 * g + 2] as nat)]
  {
    GroupOfTriple(g, |row|);
    assert Text.Min(3 * g + 3, |row|) == 3 * g + 3;
    var grp := row[3 * g..3 * g + 3];
    assert grp[0] == row[3 * g] && grp[1] == row[3 * g + 1] && grp[2] == row[3 * g + 2];
  }

  /** Column `k` of a half-width array reads columns `2k` and `2k + 1`. */
  lemma HalfFits(k: nat, w: nat)
    requires k < w / 2
    ensures 2 * k + 1 < w
  {
    assert w == 2 * (w / 2) + w % 2;
  }

  /** Every slot of a row is below 16. */
  lemma SlotsBelow(key: string, digest: string -> nat, row: seq<byte>)
    ensures forall i | 0 <= i < |Embed.RowSlots(KeyedPermutation.Table(key, digest), row)| ::
      Embed.RowSlots(KeyedPermutation.Table(key, digest), row)[i] < 16
  {
    KeyedPermutation.TableIsBijection(key, digest);
  }

  /** The whole pipeline with one key: every slot whose two fragment
      columns fit in the cover comes back out of `array_conversion`, and
      every group of codes that was one of the sixteen triples comes back out
      of `reverse_to_original` in its place. */
  method RoundTrip(encoded: array3<byte>, cover: array3<byte>, key: string, digest: string -> nat)
    returns (combined: array3<byte>, recovered: array3<byte>)
    requires encoded.Length2 <= cover.Length2
    ensures combined.Length0 == cover.Length0 && combined.Length1 == cover.Length1 / 2
    ensures combined.Length2 == cover.Length2
    ensures recovered.Length0 == cover.Length0 && recovered.Length1 == 3 * (cover.Length1 / 2)
    ensures recovered.Length2 == cover.Length2
    ensures forall y, k, c | 0 <= y < Text.Min(encoded.Length0, cover.Length0) && 0 <= c < encoded.Length2 &&
        0 <= k < (encoded.Length1 + 2) / 3 && k < cover.Length1 / 2 ::
      combined[y, k, c] == Embed.RowSlots(KeyedPermutation.Table(key, digest), Planes.Row(encoded, y, c))[k]
    ensures forall y, g, c | 0 <= y < Text.Min(encoded.Length0, cover.Length0) && 0 <= c < encoded.Length2 &&
        0 <= g < cover.Length1 / 2 && IsTriple(Planes.Row(encoded, y, c), g) ::
      Planes.Row(recovered, y, c)[3 * g..3 * g + 3] == Planes.Row(encoded, y, c)[3 * g..3 * g + 3]
  {
    var stego := EmbedSide(encoded, cover, key, digest);
    combined, recovered := ExtractSide(stego, key, digest);
    var table := KeyedPermutation.Table(key, digest);
    forall y, k, c | 0 <= y < Text.Min(encoded.Length0, cover.Length0) && 0 <= c < encoded.Length2 &&
        0 <= k < (encoded.Length1 + 2) / 3 && k < cover.Length1 / 2
      ensures combined[y, k, c] == Embed.RowSlots(table, Planes.Row(encoded, y, c))[k]
    {
      SlotRecovered(encoded, cover, stego, combined, key, digest, y, k, c);
    }
    forall y, g, c | 0 <= y < Text.Min(encoded.Length0, cover.Length0) && 0 <= c < encoded.Length2 &&
        0 <= g < cover.Length1 / 2 && IsTriple(Planes.Row(encoded, y, c), g)
      ensures Planes.Row(recovered, y, c)[3 * g..3 * g + 3] == Planes.Row(encoded, y, c)[3 * g..3 * g + 3]
    {
      TripleRecovered(encoded, cover, combined, recovered, key, digest, y, g, c);
    }
  }

  /** A group holding a triple comes back from its slot. */
  lemma TripleRecovered(encoded: array3<byte>, cover: array3<byte>, combined: array3<byte>, recovered: array3<byte>,
                        key: string, digest: string -> nat, y: nat, g: nat, c: nat)
    requires y < Text.Min(encoded.Length0, cover.Length0) && c < encoded.Length2 <= cover.Length2
    requires g < cover.Length1 / 2 && IsTriple(Planes.Row(encoded, y, c), g)
    requires combined.Length0 == cover.Length0 && combined.Length1 == cover.Length1 / 2
    requires combined.Length2 == cover.Length2
    requires recovered.Length0 == cover.Length0 && recovered.Length1 == 3 * (cover.Length1 / 2)
    requires recovered.Length2 == cover.Length2
    requires forall k | 0 <= k < (encoded.Length1 + 2) / 3 && k < cover.Length1 / 2 ::
      combined[y, k, c] == Embed.RowSlots(KeyedPermutation.Table(key, digest), Planes.Row(encoded, y, c))[k]
    requires forall k | 0 <= k < combined.Length1 :: combined[y, k, c] < 16
    requires Planes.Row(recovered, y, c) ==
      Extract.Fit(Extract.Expand(Extract.Search(KeyedPermutation.Table(key, digest)), Planes.Row(combined, y, c)), 3 * combined.Length1)
    ensures Planes.Row(recovered, y, c)[3 * g..3 * g + 3] == Planes.Row(encoded, y, c)[3 * g..3 * g + 3]
  {
    var table := KeyedPermutation.Table(key, digest);
    var row := Planes.Row(encoded, y, c);
    var t := (row[3 * g] as nat, row[3 * g + 1] as nat, row[3 * g + 2] as nat);
    KeyedPermutation.UnmapInverts(key, digest, t);
    GroupOfTriple(g, encoded.Length1);
    SlotOfTriple(table, row, g);
    assert combined[y, g, c] == table[t];
    var vals := Planes.Row(combined, y, c);
    Extract.ReverseRecovers(key, digest, vals, g);
    SliceOfThree(row, 3 * g);
  }

  /** Three consecutive samples as a slice. */
  lemma SliceOfThree(row: seq<byte>, i: nat)
    requires i + 3 <= |row|
    ensures row[i..i + 3] == [row[i] as nat, row[i + 1] as nat, row[i + 2] as nat]
  {
  }

  /** The slot of group `k` survives the whole pipeline. */
  lemma SlotRecovered(encoded: array3<byte>, cover: array3<byte>, stego: array3<byte>, combined: array3<byte>,
                      key: string, digest: string -> nat, y: nat, k: nat, c: nat)
    requires y < Text.Min(encoded.Length0, cover.Length0) && c < encoded.Length2 <= cover.Length2
    requires k < (encoded.Length1 + 2) / 3 && k < cover.Length1 / 2
    requires stego.Length0 == cover.Length0 && stego.Length1 == cover.Length1 && stego.Length2 == cover.Length2
    requires forall k' | 0 <= k' < Text.Min(Embed.ProcessedWidth(encoded.Length1), cover.Length1) ::
      stego[y, k', c] % 4 ==
        Planes.FlipOdd(Embed.ProcessedRow(KeyedPermutation.Table(key, digest), Planes.Row(encoded, y, c))[k'], k')
    requires combined.Length0 == stego.Length0 && combined.Length1 == stego.Length1 / 2
    requires combined.Length2 == stego.Length2
    requires combined[y, k, c] ==
      Extract.Combine(Planes.FlipOdd(stego[y, 2 * k, c] % 4, 2 * k), Planes.FlipOdd(stego[y, 2 * k + 1, c] % 4, 2 * k + 1))
    ensures combined[y, k, c] == Embed.RowSlots(KeyedPermutation.Table(key, digest), Planes.Row(encoded, y, c))[k]
  {
    var table := KeyedPermutation.Table(key, digest);
    var row := Planes.Row(encoded, y, c);
    GroupFits(k, encoded.Length1);
    HalfFits(k, cover.Length1);
    SlotsBelow(key, digest, row);
    assert stego[y, 2 * k, c] % 4 == Planes.FlipOdd(Embed.ProcessedRow(table, row)[2 * k], 2 * k);
    assert stego[y, 2 * k + 1, c] % 4 == Planes.FlipOdd(Embed.ProcessedRow(table, row)[2 * k + 1], 2 * k + 1);
    PairRecovered(table, row, k, stego[y, 2 * k, c], stego[y, 2 * k + 1, c]);
  }

  /** Two stego samples whose low bits hold the flipped fragments of slot
      `k` of a row give that slot back once unflipped and recombined. */
  lemma PairRecovered(table: map<KeyedPermutation.Triple, nat>, row: seq<byte>, k: nat, s0: byte, s1: byte)
    requires k < |Embed.RowSlots(table, row)| && Embed.RowSlots(table, row)[k] < 16
    requires 2 * k + 1 < Embed.ProcessedWidth(|row|)
    requires s0 % 4 == Planes.FlipOdd(Embed.ProcessedRow(table, row)[2 * k], 2 * k)
    requires s1 % 4 == Planes.FlipOdd(Embed.ProcessedRow(table, row)[2 * k + 1], 2 * k + 1)
    ensures Extract.Combine(Planes.FlipOdd(s0 % 4, 2 * k), Planes.FlipOdd(s1 % 4, 2 * k + 1)) ==
      Embed.RowSlots(table, row)[k]
  {
    var m := Embed.RowSlots(table, row)[k];
    Embed.ProcessedRowAt(table, row);
    var p := Embed.ProcessedRow(table, row);
    assert p[2 * k] == Embed.High(m) && p[2 * k + 1] == Bits.LowTwo(m);
    FragmentSurvives(p[2 * k], s0, 2 * k);
    FragmentSurvives(p[2 * k + 1], s1, 2 * k + 1);
    SlotSurvives(m);
  }
}
