/** The encode side on image planes: a plane is a numpy `(H, W, C)` array of
    `uint8` samples, modelled as an `array3<byte>` indexed `[row, column,
    channel]`. */
module Embed {
  import Bits
  import Text
  import NibbleCodec
  import KeyedPermutation
  import Planes

  type byte = Bits.byte

  // -------------------------------------------------------- sample level

  /** `(v >> 4) & 0b1111` on one sample: its top four bits. */
  function Top4(v: byte): (r: byte)
    ensures r == v / 16 && r < 16
  {
    Bits.ShiftRightSmall(v);
    Bits.AndMasks(Bits.ShiftRight(v, 4));
    Bits.And(Bits.ShiftRight(v, 4), 15)
  }

  /** `(m >> 2) & 0b11`: the high fragment of a slot. */
  function High(m: nat): (r: byte)
    ensures r == (m / 4) % 4
  {
    Bits.ShiftRightSmall(m);
    Bits.AndMasks(Bits.ShiftRight(m, 2));
    Bits.And(Bits.ShiftRight(m, 2), 3)
  }

  /** `(o & 0b11111100) | (e & 0b11)`: the cover sample `o` with its two
      low bits replaced by those of `e`. */
  function Merge(o: byte, e: byte): (r: byte)
    ensures r / 4 == o / 4 && r % 4 == e % 4
  {
    Bits.AndClearLow2(o);
    Bits.AndMasks(e);
    assert Bits.Pow2(2) == 4;
    assert o - o % 4 == (o / 4) * 4;
    Bits.OrDisjoint(o / 4, e % 4, 2);
    Bits.Or(Bits.And(o, 252), Bits.And(e, 3))
  }

  /** The two fragments of a slot below 16 read back as the slot. */
  lemma FragmentsOfSlot(m: nat)
    requires m < 16
    ensures 4 * High(m) + Bits.LowTwo(m) == m
    ensures High(m) < 4 && Bits.LowTwo(m) < 4
  {
  }

  // --------------------------------------------------------- plane level

  /** `extract_top_4_msbs(img_array)`: every sample shifted down to its top four bits. */
  method ExtractTop4Msbs(img: array3<byte>) returns (msb: array3<byte>)
    ensures fresh(msb)
    ensures msb.Length0 == img.Length0 && msb.Length1 == img.Length1 && msb.Length2 == img.Length2
    ensures forall y, x, c | 0 <= y < msb.Length0 && 0 <= x < msb.Length1 && 0 <= c < msb.Length2 ::
      msb[y, x, c] == img[y, x, c] / 16
  {
    msb := new byte[img.Length0, img.Length1, img.Length2];
    forall y, x, c | 0 <= y < img.Length0 && 0 <= x < img.Length1 && 0 <= c < img.Length2 {
      msb[y, x, c] := Top4(img[y, x, c]);
    }
  }

  /** What `msb_to_encoded(v)` returns: the codes of the note played at
      `16 * v + 9` Hz (no sample value is negative). */
  function SampleCodes(noteOf: nat -> string, v: int): (r: seq<nat>)
  {
    if v < 0 then [] else NibbleCodec.NoteCodes(noteOf(16 * v + 9))
  }

  /** The codes of every sample value, indexed by the value. */
  function NoteTable(noteOf: nat -> string): (t: seq<seq<nat>>)
    ensures |t| == 256
  {
    seq(256, v => SampleCodes(noteOf, v))
  }

  /** Entry `v` of a code table. */
  function CodesOf(t: seq<seq<nat>>, v: nat): seq<nat>
    requires v < |t|
  {
    t[v]
  }

  /** `t` lists, for every sample value, the codes `msb_to_encoded` returns for it. */
  ghost predicate IsNoteTable(t: seq<seq<nat>>, noteOf: nat -> string)
  {
    |t| == 256 && forall v | 0 <= v < 256 :: CodesOf(t, v) == NibbleCodec.NoteCodes(noteOf(16 * v + 9))
  }

  lemma NoteTableIs(noteOf: nat -> string)
    ensures IsNoteTable(NoteTable(noteOf), noteOf)
  {
  }

  /** There is only one code table for a given `noteOf`. */
  lemma NoteTableUnique(t: seq<seq<nat>>, noteOf: nat -> string)
    requires IsNoteTable(t, noteOf)
    ensures t == NoteTable(noteOf)
  {
    forall v | 0 <= v < 256
      ensures t[v] == NoteTable(noteOf)[v]
    {
      assert CodesOf(t, v) == t[v];
    }
  }

  /** Every table entry is three codes below 16. */
  lemma NoteTableShape(t: seq<seq<nat>>, noteOf: nat -> string)
    requires IsNoteTable(t, noteOf)
    ensures |t| == 256
    ensures forall v | 0 <= v < 256 :: |t[v]| == 3 && forall j | 0 <= j < 3 :: t[v][j] < 16
  {
    forall v | 0 <= v < 256
      ensures |t[v]| == 3 && forall j | 0 <= j < 3 :: t[v][j] < 16
    {
      assert CodesOf(t, v) == t[v];
    }
  }

  /** One call `msb_to_encoded(v)`, its result read as an entry of the code table. */
  method EncodeSample(v: byte, noteOf: nat -> string, ghost table: seq<seq<nat>>) returns (codes: seq<nat>)
    requires IsNoteTable(table, noteOf)
    ensures codes == table[v]
    ensures |codes| == 3 && forall j | 0 <= j < 3 :: codes[j] < 16
  {
    codes := NibbleCodec.MsbToEncoded(v, noteOf);
    assert CodesOf(table, v) == codes;
  }

  /** Row `nibbles` with every sample replaced by its three table entries, in column order. */
  function Spread(nibbles: seq<byte>, t: seq<seq<nat>>): seq<nat>
    requires |t| == 256
  {
    if nibbles == [] then []
    else Spread(nibbles[..|nibbles| - 1], t) + t[nibbles[|nibbles| - 1]]
  }

  lemma {:induction false} SpreadLength(nibbles: seq<byte>, t: seq<seq<nat>>)
    requires |t| == 256 && forall n | 0 <= n < 256 :: |t[n]| == 3
    ensures |Spread(nibbles, t)| == 3 * |nibbles|
  {
    if nibbles != [] {
      SpreadLength(nibbles[..|nibbles| - 1], t);
    }
  }

  lemma SpreadSnoc(nibbles: seq<byte>, t: seq<seq<nat>>, x: nat)
    requires |t| == 256 && x < |nibbles|
    ensures Spread(nibbles[..x + 1], t) == Spread(nibbles[..x], t) + t[nibbles[x]]
  {
    var p := nibbles[..x + 1];
    assert p[..|p| - 1] == nibbles[..x];
  }

  lemma {:induction false} SpreadAt(nibbles: seq<byte>, t: seq<seq<nat>>, x: nat, j: nat)
    requires |t| == 256 && forall n | 0 <= n < 256 :: |t[n]| == 3
    requires x < |nibbles| && j < 3
    ensures 3 * x + j < |Spread(nibbles, t)|
    ensures Spread(nibbles, t)[3 * x + j] == t[nibbles[x]][j]
  {
    var front := Spread(nibbles[..|nibbles| - 1], t);
    SpreadLength(nibbles[..|nibbles| - 1], t);
    if x < |nibbles| - 1 {
      SpreadAt(nibbles[..|nibbles| - 1], t, x, j);
      assert nibbles[..|nibbles| - 1][x] == nibbles[x];
    }
  }

  /** The codes `encode_msbs` writes for one row of samples. */
  function EncodedRow(nibbles: seq<byte>, noteOf: nat -> string): seq<nat>
  {
    Spread(nibbles, NoteTable(noteOf))
  }

  /** The encoded row is three times as wide, and columns `3x .. 3x+2` hold
      the codes of the note that sample `x` stands for. */
  lemma EncodedRowAt(nibbles: seq<byte>, noteOf: nat -> string, x: nat, j: nat)
    requires x < |nibbles| && j < 3
    ensures |EncodedRow(nibbles, noteOf)| == 3 * |nibbles|
    ensures EncodedRow(nibbles, noteOf)[3 * x + j] == NibbleCodec.NoteCodes(noteOf(16 * (nibbles[x] as int) + 9))[j]
  {
    NoteTableIs(noteOf);
    NoteTableShape(NoteTable(noteOf), noteOf);
    SpreadLength(nibbles, NoteTable(noteOf));
    SpreadAt(nibbles, NoteTable(noteOf), x, j);
    assert CodesOf(NoteTable(noteOf), nibbles[x]) == NoteTable(noteOf)[nibbles[x]];
  }

  /** `encode_msbs(msb_array)`: every sample becomes the three codes of its
      note name, side by side, so each row grows three times wider. */
  method EncodeMsbs(msb: array3<byte>, noteOf: nat -> string) returns (encoded: array3<byte>)
    ensures fresh(encoded)
    ensures encoded.Length0 == msb.Length0 && encoded.Length1 == 3 * msb.Length1 && encoded.Length2 == msb.Length2
    ensures forall y, c | 0 <= y < msb.Length0 && 0 <= c < msb.Length2 ::
      Planes.Row(encoded, y, c) == EncodedRow(Planes.Row(msb, y, c), noteOf)
  {
    var H, W, C := msb.Length0, msb.Length1, msb.Length2;
    NoteTableIs(noteOf);
    ghost var table :| IsNoteTable(table, noteOf);
    NoteTableShape(table, noteOf);
    encoded := new byte[H, W * 3, C]((_, _, _) => 0);
    for c := 0 to C
      invariant forall y', c' | 0 <= y' < H && 0 <= c' < c ::
        Planes.Row(encoded, y', c') == Spread(Planes.Row(msb, y', c'), table)
    {
      for y := 0 to H
        invariant forall y', c' | 0 <= y' < H && 0 <= c' < c ::
          Planes.Row(encoded, y', c') == Spread(Planes.Row(msb, y', c'), table)
        invariant forall y' | 0 <= y' < y ::
          Planes.Row(encoded, y', c) == Spread(Planes.Row(msb, y', c), table)
      {
        EncodeRow(msb, noteOf, table, encoded, y, c);
      }
    }
    NoteTableUnique(table, noteOf);
  }

  /** The `for x in range(W)` loop of `encode_msbs` for row `y` of channel
      `c`; every other row and channel is left as it was. */
  method EncodeRow(msb: array3<byte>, noteOf: nat -> string, ghost table: seq<seq<nat>>,
                   encoded: array3<byte>, y: nat, c: nat)
    requires IsNoteTable(table, noteOf)
    requires encoded != msb
    requires y < msb.Length0 && c < msb.Length2
    requires encoded.Length0 == msb.Length0 && encoded.Length1 == 3 * msb.Length1 && encoded.Length2 == msb.Length2
    modifies encoded
    ensures Planes.Row(encoded, y, c) == Spread(Planes.Row(msb, y, c), table)
    ensures forall y', c' | 0 <= y' < msb.Length0 && 0 <= c' < msb.Length2 && (y' != y || c' != c) ::
      Planes.Row(encoded, y', c') == old(Planes.Row(encoded, y', c'))
  {
    ghost var nibbles := Planes.Row(msb, y, c);
    for x := 0 to msb.Length1
      invariant Planes.Row(encoded, y, c)[..3 * x] == Spread(nibbles[..x], table)
      invariant forall y', c' | 0 <= y' < msb.Length0 && 0 <= c' < msb.Length2 && (y' != y || c' != c) ::
        Planes.Row(encoded, y', c') == old(Planes.Row(encoded, y', c'))
    {
      var codes := EncodeSample(msb[y, x, c], noteOf, table);
      PutCodes(encoded, y, x, c, codes);
      SpreadSnoc(nibbles, table, x);
    }
    assert nibbles[..msb.Length1] == nibbles;
  }

  /** `encoded[y, 3x:3x+3, c] = codes`: columns `3x .. 3x+2` of one row now
      hold `codes`; everything else is as it was. */
  method PutCodes(encoded: array3<byte>, y: nat, x: nat, c: nat, codes: seq<nat>)
    requires y < encoded.Length0 && 3 * x + 3 <= encoded.Length1 && c < encoded.Length2
    requires |codes| == 3 && forall j | 0 <= j < 3 :: codes[j] < 16
    modifies encoded
    ensures Planes.Row(encoded, y, c)[..3 * x + 3] == old(Planes.Row(encoded, y, c))[..3 * x] + codes
    ensures Planes.Row(encoded, y, c)[3 * x + 3..] == old(Planes.Row(encoded, y, c))[3 * x + 3..]
    ensures forall y', c' | 0 <= y' < encoded.Length0 && 0 <= c' < encoded.Length2 && (y' != y || c' != c) ::
      Planes.Row(encoded, y', c') == old(Planes.Row(encoded, y', c'))
  {
    encoded[y, 3 * x, c], encoded[y, 3 * x + 1, c], encoded[y, 3 * x + 2, c] := codes[0], codes[1], codes[2];
    assert Planes.Row(encoded, y, c)[..3 * x + 3] == old(Planes.Row(encoded, y, c))[..3 * x] + codes;
  }

  // ------------------------------------------------------- process_array

  type Triple = KeyedPermutation.Triple

  /** `mapping.get(tuple(g), 0)` for one group `g` of at most three codes: a
      group shorter than three is never a key. */
  function GroupSlot(table: map<Triple, nat>, g: seq<byte>): nat
  {
    if |g| == 3 && (g[0] as nat, g[1] as nat, g[2] as nat) in table then table[(g[0] as nat, g[1] as nat, g[2] as nat)]
    else 0
  }

  /** `[mapping.get(tuple(row[i:i+3]), 0) for i in range(0, W, 3)]`: one
      slot per group of three columns, the last group possibly short. */
  function RowSlots(table: map<Triple, nat>, row: seq<byte>): (slots: seq<nat>)
    ensures |slots| == (|row| + 2) / 3
    ensures forall i | 0 <= i < |slots| :: slots[i] == GroupSlot(table, row[3 * i..Text.Min(3 * i + 3, |row|)])
  {
    seq((|row| + 2) / 3, i requires 0 <= i < (|row| + 2) / 3 => GroupSlot(table, row[3 * i..Text.Min(3 * i + 3, |row|)]))
  }

  /** `for m in mapped: expanded.extend([(m >> 2) & 0b11, m & 0b11])` */
  function Fragments(slots: seq<nat>): (r: seq<byte>)
    ensures |r| == 2 * |slots|
    ensures forall k | 0 <= k < |r| :: r[k] < 4
  {
    if slots == [] then []
    else Fragments(slots[..|slots| - 1]) + [High(slots[|slots| - 1]), Bits.LowTwo(slots[|slots| - 1])]
  }

  /** Columns `2i` and `2i+1` of the expansion hold the high and the low
      fragment of slot `i`. */
  lemma {:induction false} FragmentsAt(slots: seq<nat>)
    ensures forall i | 0 <= i < |slots| ::
      Fragments(slots)[2 * i] == High(slots[i]) && Fragments(slots)[2 * i + 1] == Bits.LowTwo(slots[i])
  {
    if slots != [] {
      var front := slots[..|slots| - 1];
      FragmentsAt(front);
      forall i | 0 <= i < |front|
        ensures Fragments(slots)[2 * i] == High(slots[i]) && Fragments(slots)[2 * i + 1] == Bits.LowTwo(slots[i])
      {
        assert front[i] == slots[i];
      }
    }
  }

  /** Width of the array `process_array` returns: `(W // 3 + 1) * 2`. */
  function ProcessedWidth(w: nat): nat
  {
    (w / 3 + 1) * 2
  }

  /** `n` zero samples. */
  function Blank(n: nat): (r: seq<byte>)
    ensures |r| == n && forall k | 0 <= k < n :: r[k] == 0
  {
    seq(n, _ => 0)
  }

  /** Row `y` of channel `c` after `process_array`: the fragments of the
      row's slots, then zeros up to the new width. */
  function ProcessedRow(table: map<Triple, nat>, row: seq<byte>): (r: seq<byte>)
    ensures |r| == ProcessedWidth(|row|)
    ensures forall k | 0 <= k < |r| :: r[k] < 4
  {
    Fragments(RowSlots(table, row)) + Blank(ProcessedWidth(|row|) - 2 * |RowSlots(table, row)|)
  }

  /** The processed row is `(W // 3 + 1) * 2` wide; columns `2i` and `2i+1`
      of group `i` hold the two fragments of its slot; every other column is
      zero, and every sample is below 4. */
  lemma ProcessedRowAt(table: map<Triple, nat>, row: seq<byte>)
    ensures |ProcessedRow(table, row)| == ProcessedWidth(|row|)
    ensures forall i | 0 <= i < (|row| + 2) / 3 ::
      ProcessedRow(table, row)[2 * i] == High(GroupSlot(table, row[3 * i..Text.Min(3 * i + 3, |row|)])) &&
      ProcessedRow(table, row)[2 * i + 1] == Bits.LowTwo(GroupSlot(table, row[3 * i..Text.Min(3 * i + 3, |row|)]))
    ensures forall k | 2 * ((|row| + 2) / 3) <= k < ProcessedWidth(|row|) :: ProcessedRow(table, row)[k] == 0
    ensures forall k | 0 <= k < ProcessedWidth(|row|) :: ProcessedRow(table, row)[k] < 4
  {
    var slots := RowSlots(table, row);
    FragmentsAt(slots);
    var r := ProcessedRow(table, row);
    forall k | 0 <= k < ProcessedWidth(|row|)
      ensures r[k] < 4
    {
      if k < 2 * |slots| {
        assert r[k] == Fragments(slots)[k];
        if k % 2 == 0 {
          assert r[2 * (k / 2)] == High(slots[k / 2]);
        } else {
          assert r[2 * (k / 2) + 1] == Bits.LowTwo(slots[k / 2]);
        }
      }
    }
  }

  /** `process_array(encoded, key)`: every group of three codes becomes its
      slot under the keyed permutation, split into two 2-bit fragments. */
  method ProcessArray(encoded: array3<byte>, key: string, digest: string -> nat) returns (processed: array3<byte>)
    ensures fresh(processed)
    ensures processed.Length0 == encoded.Length0 && processed.Length1 == ProcessedWidth(encoded.Length1)
    ensures processed.Length2 == encoded.Length2
    ensures forall y, c | 0 <= y < encoded.Length0 && 0 <= c < encoded.Length2 ::
      Planes.Row(processed, y, c) == ProcessedRow(KeyedPermutation.Table(key, digest), Planes.Row(encoded, y, c))
  {
    var mapping := KeyedPermutation.GenerateMapping(key, digest);
    var H, W, C := encoded.Length0, encoded.Length1, encoded.Length2;
    var newW := (W / 3 + 1) * 2;
    processed := new byte[H, newW, C]((_, _, _) => 0);
    for c := 0 to C
      invariant forall y', c' | 0 <= y' < H && 0 <= c' < C ::
        Planes.Row(processed, y', c') == if c' < c then ProcessedRow(mapping, Planes.Row(encoded, y', c')) else Blank(newW)
    {
      for y := 0 to H
        invariant forall y', c' | 0 <= y' < H && 0 <= c' < C ::
          Planes.Row(processed, y', c') ==
            if c' < c || (c' == c && y' < y) then ProcessedRow(mapping, Planes.Row(encoded, y', c')) else Blank(newW)
      {
        ProcessRow(encoded, mapping, processed, y, c);
      }
    }
  }

  /** The body of `process_array`'s loops for row `y` of channel `c`, whose
      processed row is still all zero; every other row is left as it was. */
  method ProcessRow(encoded: array3<byte>, mapping: map<Triple, nat>, processed: array3<byte>, y: nat, c: nat)
    requires processed != encoded
    requires y < encoded.Length0 && c < encoded.Length2
    requires processed.Length0 == encoded.Length0 && processed.Length1 == ProcessedWidth(encoded.Length1)
    requires processed.Length2 == encoded.Length2
    requires Planes.Row(processed, y, c) == Blank(processed.Length1)
    modifies processed
    ensures Planes.Row(processed, y, c) == ProcessedRow(mapping, Planes.Row(encoded, y, c))
    ensures forall y', c' | 0 <= y' < processed.Length0 && 0 <= c' < processed.Length2 && (y' != y || c' != c) ::
      Planes.Row(processed, y', c') == old(Planes.Row(processed, y', c'))
  {
    var row := Planes.Row(encoded, y, c);
    var mapped := RowSlots(mapping, row);
    var expanded: seq<byte> := [];
    for i := 0 to |mapped|
      invariant expanded == Fragments(mapped[..i])
    {
      assert mapped[..i + 1][..i] == mapped[..i];
      expanded := expanded + [High(mapped[i]), Bits.LowTwo(mapped[i])];
    }
    assert mapped[..|mapped|] == mapped;
    Planes.PutPrefix(processed, y, c, expanded);
    assert Blank(processed.Length1)[|expanded|..] == Blank(processed.Length1 - |expanded|);
  }

  // -------------------------------------------------------------- embed

  /** `embed(encoded, cover_array)`: a copy of the cover whose samples in
      the rows, columns and channels both arrays have keep their upper six
      bits and take the two low bits of the encoded sample; every other
      sample is the cover's. A channel of `encoded` beyond the cover's
      makes numpy raise, so the channels must fit. */
  method EmbedPlanes(encoded: array3<byte>, cover: array3<byte>) returns (out: array3<byte>)
    requires encoded.Length2 <= cover.Length2
    ensures fresh(out)
    ensures out.Length0 == cover.Length0 && out.Length1 == cover.Length1 && out.Length2 == cover.Length2
    ensures forall y, x, c | 0 <= y < out.Length0 && 0 <= x < out.Length1 && 0 <= c < out.Length2 ::
      if y < encoded.Length0 && x < encoded.Length1 && c < encoded.Length2
      then out[y, x, c] / 4 == cover[y, x, c] / 4 && out[y, x, c] % 4 == encoded[y, x, c] % 4
      else out[y, x, c] == cover[y, x, c]
  {
    out := new byte[cover.Length0, cover.Length1, cover.Length2];
    forall y, x, c | 0 <= y < cover.Length0 && 0 <= x < cover.Length1 && 0 <= c < cover.Length2 {
      out[y, x, c] := cover[y, x, c];
    }
    for c := 0 to encoded.Length2
      invariant forall y, x, c' | 0 <= y < out.Length0 && 0 <= x < out.Length1 && 0 <= c' < out.Length2 ::
        if y < encoded.Length0 && x < encoded.Length1 && c' < c
        then out[y, x, c'] == Merge(cover[y, x, c'], encoded[y, x, c'])
        else out[y, x, c'] == cover[y, x, c']
    {
      var h, w := Text.Min(encoded.Length0, out.Length0), Text.Min(encoded.Length1, out.Length1);
      forall y, x | 0 <= y < h && 0 <= x < w {
        out[y, x, c] := Merge(out[y, x, c], encoded[y, x, c]);
      }
    }
  }

  // -------------------------------------------------------- int_from_bin

  /** `int_from_bin(bstr)`: `val = (val << 1) | int(ch)` for every character;
      `int(ch)` needs a decimal digit. On a string of binary digits the
      result is the number they spell. `val` is unbounded here: the 64-bit
      wrap of the compiled loop past 63 digits is not modelled. */
  method IntFromBin(bstr: string) returns (val: nat)
    requires forall i | 0 <= i < |bstr| :: '0' <= bstr[i] <= '9'
    ensures Text.IsBinary(bstr) ==> val == Text.BinValue(bstr)
  {
    val := 0;
    for i := 0 to |bstr|
      invariant Text.IsBinary(bstr[..i]) ==> val == Text.BinValue(bstr[..i])
    {
      var digit := (bstr[i] as int) - ('0' as int);
      if Text.IsBinary(bstr[..i + 1]) {
        assert bstr[..i + 1][..i] == bstr[..i];
        assert bstr[..i + 1][i] == bstr[i];
        assert digit == Text.BitOf(bstr[i]);
        assert Bits.Pow2(1) == 2;
        Bits.OrDisjoint(val, digit, 1);
      }
      val := Bits.Or(2 * val, digit);
    }
    assert bstr[..|bstr|] == bstr;
  }
}
