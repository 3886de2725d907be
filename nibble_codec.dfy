/** The keyless nibble codec. A 4-bit intensity `n` names the frequency
    `16 * n + 9`; that frequency's note name is rendered as hex pairs, which a
    fixed 14-entry table turns into 4-bit codes. The decode side inverts the
    table lookup. */
module NibbleCodec {
  import Bits
  import Text
  import opened Wrappers

  // ------------------------------------------------------------- the table

  /** Number of entries of the hex-pair to code table. */
  const EntryCount: nat := 14

  /** Entry `i` of the hex-pair to code table, in the dict's insertion order
      (its keys are distinct, as in any dict). The decode side's `mapping` is
      the same table. */
  function Entry(i: nat): (string, string)
    requires i < EntryCount
  {
    match i
    case 0 => ("41", "1111")
    case 1 => ("42", "1110")
    case 2 => ("43", "1101")
    case 3 => ("44", "1100")
    case 4 => ("45", "1011")
    case 5 => ("46", "1010")
    case 6 => ("47", "1001")
    case 7 => ("30", "1000")
    case 8 => ("31", "0111")
    case 9 => ("32", "0110")
    case 10 => ("33", "0101")
    case 11 => ("69", "0100")
    case 12 => ("23", "0011")
    case _ => ("2d", "0010")
  }

  /** The code that stands in for a missing pair or a missing position. */
  const Filler: string := "0001"

  /** Entry `i` holds a two-character key and a four-digit binary code that
      reads as `15 - i`: the codes are fourteen distinct binary strings,
      none of them `0000` or `0001`. */
  lemma EntryCode(i: nat)
    requires i < EntryCount
    ensures |Entry(i).0| == 2
    ensures |Entry(i).1| == 4 && Text.IsBinary(Entry(i).1)
    ensures Text.BinValue(Entry(i).1) == 15 - i
  {
    if i == 0 {
      Text.FourBits('1', '1', '1', '1');
    } else if i == 1 {
      Text.FourBits('1', '1', '1', '0');
    } else if i == 2 {
      Text.FourBits('1', '1', '0', '1');
    } else if i == 3 {
      Text.FourBits('1', '1', '0', '0');
    } else if i == 4 {
      Text.FourBits('1', '0', '1', '1');
    } else if i == 5 {
      Text.FourBits('1', '0', '1', '0');
    } else if i == 6 {
      Text.FourBits('1', '0', '0', '1');
    } else if i == 7 {
      Text.FourBits('1', '0', '0', '0');
    } else if i == 8 {
      Text.FourBits('0', '1', '1', '1');
    } else if i == 9 {
      Text.FourBits('0', '1', '1', '0');
    } else if i == 10 {
      Text.FourBits('0', '1', '0', '1');
    } else if i == 11 {
      Text.FourBits('0', '1', '0', '0');
    } else if i == 12 {
      Text.FourBits('0', '0', '1', '1');
    } else {
      Text.FourBits('0', '0', '1', '0');
    }
  }

  /** The table is injective: distinct entries hold distinct codes, and
      neither `0000` nor the filler `0001` is among them. */
  lemma CodesDistinct(i: nat, j: nat)
    requires i < j < EntryCount
    ensures Entry(i).1 != Entry(j).1
    ensures Entry(i).1 != "0000" && Entry(i).1 != Filler
    ensures Entry(j).1 != "0000" && Entry(j).1 != Filler
  {
    EntryCode(i);
    EntryCode(j);
    Text.BinValueOfFour("0000");
    Text.BinValueOfFour(Filler);
  }

  /** The index of the first entry whose key is `k`, searching from index `i`. */
  function FindKeyFrom(k: string, i: nat): (r: Option<nat>)
    requires i <= EntryCount
    ensures r.Some? ==> i <= r.value < EntryCount && Entry(r.value).0 == k
    ensures r.None? ==> forall j | i <= j < EntryCount :: Entry(j).0 != k
    decreases EntryCount - i
  {
    if i == EntryCount then None
    else if Entry(i).0 == k then Some(i)
    else FindKeyFrom(k, i + 1)
  }

  /** The index of the first entry whose code is `v`, searching from index `i`. */
  function FindValueFrom(v: string, i: nat): (r: Option<nat>)
    requires i <= EntryCount
    ensures r.Some? ==> i <= r.value < EntryCount && Entry(r.value).1 == v
    ensures r.Some? ==> forall j | i <= j < r.value :: Entry(j).1 != v
    ensures r.None? ==> forall j | i <= j < EntryCount :: Entry(j).1 != v
    decreases EntryCount - i
  {
    if i == EntryCount then None
    else if Entry(i).1 == v then Some(i)
    else FindValueFrom(v, i + 1)
  }

  predicate IsKey(pair: string) { FindKeyFrom(pair, 0).Some? }

  /** Searching the table by entry `i`'s code finds entry `i`: the codes are distinct. */
  lemma CodeFindsEntry(i: nat)
    requires i < EntryCount
    ensures FindValueFrom(Entry(i).1, 0) == Some(i)
  {
    match FindValueFrom(Entry(i).1, 0)
    case None =>
      assert false;
    case Some(r) =>
      EntryCode(i);
      EntryCode(r);
  }

  /** `0001` is not a code of the table, and reads as 1. */
  lemma FillerIsNoCode()
    ensures FindValueFrom(Filler, 0).None?
    ensures |Filler| == 4 && Text.BinValue(Filler) == 1
  {
    Text.BinValueOfFour(Filler);
    match FindValueFrom(Filler, 0)
    case None =>
    case Some(r) =>
      EntryCode(r);
      assert false;
  }

  // ------------------------------------------------------------ encode side

  /** `mapping_table.get(pair, '0001')` */
  function Lookup(pair: string): (code: string)
    ensures |code| == 4 && Text.IsBinary(code)
    ensures code == Filler <==> !IsKey(pair)
  {
    FillerIsNoCode();
    match FindKeyFrom(pair, 0)
    case Some(i) =>
      EntryCode(i);
      Entry(i).1
    case None => Filler
  }

  /** A key's code reads as `15 - i` for its entry `i`; any other pair's reads as 1. */
  lemma LookupValue(pair: string)
    ensures IsKey(pair) ==> Text.BinValue(Lookup(pair)) == 15 - FindKeyFrom(pair, 0).value
    ensures !IsKey(pair) ==> Text.BinValue(Lookup(pair)) == 1
  {
    FillerIsNoCode();
    if IsKey(pair) {
      EntryCode(FindKeyFrom(pair, 0).value);
    }
  }

  /** The number a hex pair turns into: `int(mapping_table.get(pair, '0001'), 2)`. */
  function PairCode(pair: string): (code: nat)
    ensures code < 16
    ensures IsKey(pair) <==> code >= 2
    ensures !IsKey(pair) <==> code == 1
  {
    LookupValue(pair);
    Text.BinValue(Lookup(pair))
  }

  /** `hz = int(format(msb, '04b') + '1001', 2)` is the frequency `16 * msb + 9`. */
  lemma FrequencyOfNibble(msb: nat)
    ensures Text.BinValue(Text.Format04b(msb) + "1001") == 16 * msb + 9
  {
    Text.Format04bValue(msb);
    Text.BinValueAppend(Text.Format04b(msb), "1001");
    Text.BinValueOfFour("1001");
    assert Bits.Pow2(4) == 16;
  }

  /** The note name's hex rendering with every `266f` (the sharp sign)
      rewritten to `69`, cut into two-character pieces. */
  function HexPairs(note: string): seq<string>
  {
    Text.Pairs(Text.Replace(Text.HexOfText(note), "266f", "69"))
  }

  /** The codes of a list of pairs, in order. */
  function LookupAll(ps: seq<string>): (rs: seq<string>)
    ensures |rs| == |ps|
    ensures forall k | 0 <= k < |rs| :: rs[k] == Lookup(ps[k])
    ensures FourDigitCodes(rs)
  {
    seq(|ps|, k requires 0 <= k < |ps| => Lookup(ps[k]))
  }

  /** The list `msb_to_encoded` has built when its `for` loop ends. */
  function PairCodes(note: string): seq<string>
  {
    LookupAll(HexPairs(note))
  }

  /** `while len(result) < 3: result.append('0001')` */
  function PadCodes(rs: seq<string>): (padded: seq<string>)
    ensures |padded| == if |rs| < 3 then 3 else |rs|
    ensures padded[..|rs|] == rs
    ensures forall k | |rs| <= k < |padded| :: padded[k] == Filler
    decreases 3 - |rs|
  {
    if |rs| < 3 then PadCodes(rs + [Filler]) else rs
  }

  predicate FourDigitCodes(rs: seq<string>)
  {
    forall k | 0 <= k < |rs| :: |rs[k]| == 4
  }

  /** Position `j` of the padded list: the code built there, or the filler. */
  lemma PadCodesAt(rs: seq<string>, j: nat)
    requires j < |PadCodes(rs)|
    ensures PadCodes(rs)[j] == if j < |rs| then rs[j] else Filler
  {
    if j < |rs| {
      assert PadCodes(rs)[j] == PadCodes(rs)[..|rs|][j];
    }
  }

  /** Padding with the filler keeps every code four digits long. */
  lemma PadCodesFourDigits(rs: seq<string>)
    requires FourDigitCodes(rs)
    ensures FourDigitCodes(PadCodes(rs))
  {
    FillerIsNoCode();
    forall k | 0 <= k < |PadCodes(rs)|
      ensures |PadCodes(rs)[k]| == 4
    {
      PadCodesAt(rs, k);
    }
  }

  /** The three numbers `msb_to_encoded` returns for a note name: `[int(b, 2) for b in result[:3]]`. */
  function NoteCodes(note: string): (codes: seq<nat>)
    ensures |codes| == 3
    ensures forall j | 0 <= j < 3 :: codes[j] < 16
  {
    var r := PadCodes(PairCodes(note));
    PadCodesFourDigits(PairCodes(note));
    assert Bits.Pow2(4) == 16;
    [Text.BinValue(r[0]), Text.BinValue(r[1]), Text.BinValue(r[2])]
  }

  /** Position `j` of the result holds the code of the `j`-th hex pair; pairs
      missing from the table and positions past the last pair become 1
      (`0001`), and pairs past the third are dropped. */
  lemma NoteCodesByPosition(note: string, j: nat)
    requires j < 3
    ensures NoteCodes(note)[j] == if j < |HexPairs(note)| then PairCode(HexPairs(note)[j]) else 1
  {
    PadCodesAt(PairCodes(note), j);
    FillerIsNoCode();
  }

  /** `msb_to_encoded(msb)`, with the note-naming call `librosa.hz_to_note`
      passed in as `noteOf`. */
  method MsbToEncoded(msb: nat, noteOf: nat -> string) returns (codes: seq<nat>)
    ensures |codes| == 3 && forall j | 0 <= j < 3 :: codes[j] < 16
    ensures codes == NoteCodes(noteOf(16 * msb + 9))
  {
    var msbBin := Text.Format04b(msb);
    var hz := Text.BinValue(msbBin + "1001");
    FrequencyOfNibble(msb);
    var note := noteOf(hz);
    var hexStr := Text.Replace(Text.HexOfText(note), "266f", "69");
    ghost var pairs := HexPairs(note);
    var result: seq<string> := [];
    var i := 0;
    while i < |hexStr|
      invariant i == 2 * |result| <= |hexStr| + 1
      invariant |result| <= |pairs|
      invariant result == LookupAll(pairs[..|result|])
    {
      assert hexStr[i..Text.Min(i + 2, |hexStr|)] == pairs[|result|];
      LookupAllSnoc(pairs, |result|);
      result := result + [Lookup(hexStr[i..Text.Min(i + 2, |hexStr|)])];
      i := i + 2;
    }
    assert pairs[..|result|] == pairs;
    FillerIsNoCode();
    while |result| < 3
      invariant FourDigitCodes(result)
      invariant PadCodes(result) == PadCodes(PairCodes(note))
    {
      result := result + [Filler];
    }
    codes := [Text.BinValue(result[0]), Text.BinValue(result[1]), Text.BinValue(result[2])];
    PaddedCodes(note, result);
  }

  /** Once padded, the list holds the codes `NoteCodes` reads. */
  lemma PaddedCodes(note: string, rs: seq<string>)
    requires |rs| >= 3 && PadCodes(rs) == PadCodes(PairCodes(note))
    ensures NoteCodes(note) == [Text.BinValue(rs[0]), Text.BinValue(rs[1]), Text.BinValue(rs[2])]
  {
  }

  /** One more pair looked up extends the list of codes by its code. */
  lemma LookupAllSnoc(ps: seq<string>, n: nat)
    requires n < |ps|
    ensures LookupAll(ps[..n + 1]) == LookupAll(ps[..n]) + [Lookup(ps[n])]
  {
  }

  // --------------------------------------------------- note-name characters

  /** The sharp sign (U+266F) that note names use. */
  const Sharp: char := '\U{266F}'

  /** A character of a note name: a letter A to G, a digit, `-` or the sharp sign. */
  predicate NoteChar(c: char)
  {
    'A' <= c <= 'G' || '0' <= c <= '9' || c == '-' || c == Sharp
  }

  predicate NoteName(note: string)
  {
    forall k | 0 <= k < |note| :: NoteChar(note[k])
  }

  /** The hex pair one note character stands for once `266f` has become `69`. */
  function CharPair(c: char): string
  {
    if c == Sharp then "69" else Text.Format02x(c as nat)
  }

  function CharPairs(note: string): (ps: seq<string>)
    ensures |ps| == |note|
    ensures forall k | 0 <= k < |note| :: ps[k] == CharPair(note[k])
  {
    seq(|note|, k requires 0 <= k < |note| => CharPair(note[k]))
  }

  /** The hex rendering of a note character: `266f` for the sharp sign, and
      otherwise two digits starting with 2, 3 or 4 that are never `26`. */
  lemma CharHex(c: char)
    requires NoteChar(c)
    ensures c == Sharp ==> Text.Format02x(c as nat) == "266f"
    ensures c != Sharp ==> |Text.Format02x(c as nat)| == 2
    ensures c != Sharp ==> Text.Format02x(c as nat)[0] in {'2', '3', '4'}
    ensures c != Sharp && Text.Format02x(c as nat)[0] == '2' ==> Text.Format02x(c as nat)[1] != '6'
  {
    var n := c as nat;
    if c == Sharp {
      assert n == 9839;
      assert Text.Hex(9839) == "266f";
    } else {
      assert 45 <= n < 72;
      assert Text.Hex(n) == Text.Hex(n / 16) + [Text.HexAlphabet[n % 16]];
      assert Text.Hex(n / 16) == [Text.HexAlphabet[n / 16]];
      if n / 16 == 2 {
        assert n == 45;
      }
    }
  }

  /** The hex rendering of a non-empty note name starts with 2, 3 or 4. */
  lemma HexHead(note: string)
    requires NoteName(note) && note != []
    ensures Text.HexOfText(note)[0] in {'2', '3', '4'}
  {
    CharHex(note[0]);
    assert Text.HexOfText(note)[0] == Text.Format02x(note[0] as nat)[0];
  }

  /** A character that cannot begin `266f` passes through the rewrite unchanged. */
  lemma ReplaceSkip(x: char, t: string)
    requires x != '2' || t == [] || t[0] != '6'
    ensures Text.Replace([x] + t, "266f", "69") == [x] + Text.Replace(t, "266f", "69")
  {
    var s := [x] + t;
    assert s[1..] == t;
    if |s| >= 4 {
      if x == '2' {
        assert s[..4][1] == t[0];
      } else {
        assert s[..4][0] == x;
      }
    }
  }

  /** A leading `266f` becomes `69`. */
  lemma ReplaceSharp(t: string)
    ensures Text.Replace("266f" + t, "266f", "69") == "69" + Text.Replace(t, "266f", "69")
  {
    var s := "266f" + t;
    assert s[..4] == "266f";
    assert s[4..] == t;
  }

  /** Two characters that cannot begin `266f`, before a string that does not
      start with `6`, pass through the rewrite unchanged. */
  lemma ReplacePair(h: string, t: string)
    requires |h| == 2 && (h[0] != '2' || h[1] != '6')
    requires t == [] || t[0] != '6'
    ensures Text.Replace(h + t, "266f", "69") == h + Text.Replace(t, "266f", "69")
  {
    Text.SplitTwo(h, t);
    ReplaceSkip(h[1], t);
    ReplaceSkip(h[0], [h[1]] + t);
    Text.SplitTwo(h, Text.Replace(t, "266f", "69"));
  }

  /** For a note name, rewriting `266f` in the joined hex string is the same
      as rewriting each character's hex pair on its own: no `266f` straddles
      two characters. */
  lemma {:induction false} ReplacePerChar(note: string)
    requires NoteName(note)
    ensures Text.Replace(Text.HexOfText(note), "266f", "69") == Text.Concat(CharPairs(note))
  {
    if note != [] {
      var rest := note[1..];
      assert NoteName(rest) by {
        forall k | 0 <= k < |rest|
          ensures NoteChar(rest[k])
        {
          assert rest[k] == note[k + 1];
        }
      }
      ReplacePerChar(rest);
      assert CharPairs(note)[1..] == CharPairs(rest);
      var tail := Text.HexOfText(rest);
      CharHex(note[0]);
      if rest != [] {
        HexHead(rest);
      }
      if note[0] == Sharp {
        ReplaceSharp(tail);
      } else {
        ReplacePair(Text.Format02x(note[0] as nat), tail);
      }
    }
  }

  /** For a note name, the hex pairs are the characters' own pairs, one per character. */
  lemma HexPairsPerChar(note: string)
    requires NoteName(note)
    ensures HexPairs(note) == CharPairs(note)
  {
    ReplacePerChar(note);
    forall k | 0 <= k < |note|
      ensures |CharPairs(note)[k]| == 2
    {
      CharHex(note[k]);
    }
    Text.PairsOfConcat(CharPairs(note));
  }

  /** For a note name, code `j` is the table code of character `j`, or 1 past the end of the name. */
  lemma NoteCodesPerChar(note: string, j: nat)
    requires NoteName(note) && j < 3
    ensures NoteCodes(note)[j] == if j < |note| then PairCode(CharPair(note[j])) else 1
  {
    HexPairsPerChar(note);
    NoteCodesByPosition(note, j);
  }

  // ------------------------------------------------------------ decode side

  /** What `custom_decode` emits for one segment: the key of the first entry
      whose code the segment is, or nothing when it is no code. */
  function DecodeSegment(seg: string): string
  {
    match FindValueFrom(seg, 0)
    case Some(i) => Entry(i).0
    case None => ""
  }

  function DecodeSegments(segs: seq<string>): string
  {
    if segs == [] then "" else DecodeSegment(segs[0]) + DecodeSegments(segs[1..])
  }

  /** `custom_decode(encoded_str)`. The test `segment in mapping.values()`
      and the search through `mapping.items()` that follows it look at the
      same entries in the same order, so one search stands for both; the
      list of keys joined at the end is kept as the joined string. */
  method CustomDecode(encoded: string) returns (decoded: string)
    ensures decoded == DecodeSegments(Text.Words(encoded))
  {
    var segments := Text.Words(encoded);
    decoded := "";
    var n := 0;
    while n < |segments|
      invariant n <= |segments|
      invariant decoded + DecodeSegments(segments[n..]) == DecodeSegments(segments)
    {
      var segment := segments[n];
      var j := FindCode(segment);
      assert DecodeSegment(segment) == if j < EntryCount then Entry(j).0 else "";
      DecodeSegmentsStep(segments, n, decoded);
      if j < EntryCount {
        decoded := decoded + Entry(j).0;
      } else {
        assert decoded + DecodeSegment(segment) == decoded;
      }
      n := n + 1;
    }
  }

  /** The inner `for k, v in mapping.items(): if v == segment: ... break`:
      the position of the first entry whose code is the segment, or the
      table size when there is none. */
  method FindCode(segment: string) returns (j: nat)
    ensures j <= EntryCount
    ensures j < EntryCount ==> Entry(j).1 == segment && FindValueFrom(segment, 0) == Some(j)
    ensures j == EntryCount ==> FindValueFrom(segment, 0).None?
  {
    j := 0;
    while j < EntryCount && Entry(j).1 != segment
      invariant j <= EntryCount
      invariant FindValueFrom(segment, j) == FindValueFrom(segment, 0)
    {
      j := j + 1;
    }
  }

  /** Decoding one more segment appends what that segment decodes to. */
  lemma DecodeSegmentsStep(segs: seq<string>, n: nat, prefix: string)
    requires n < |segs|
    ensures prefix + DecodeSegments(segs[n..]) == (prefix + DecodeSegment(segs[n])) + DecodeSegments(segs[n + 1..])
  {
    assert segs[n..][1..] == segs[n + 1..];
  }

  /** Decoding the code of a pair gives the pair back when it is a key, and
      nothing when the filler stood in for it. */
  lemma DecodeOfLookup(pair: string)
    ensures DecodeSegment(Lookup(pair)) == if IsKey(pair) then pair else ""
  {
    FillerIsNoCode();
    match FindKeyFrom(pair, 0)
    case Some(i) =>
      CodeFindsEntry(i);
    case None =>
  }

  /** The pairs of a list that are keys of the table, in order. */
  function KnownPairs(ps: seq<string>): seq<string>
  {
    if ps == [] then [] else (if IsKey(ps[0]) then [ps[0]] else []) + KnownPairs(ps[1..])
  }

  lemma {:induction false} DecodeOfLookups(ps: seq<string>)
    ensures DecodeSegments(LookupAll(ps)) == Text.Concat(KnownPairs(ps))
  {
    if ps != [] {
      assert LookupAll(ps)[1..] == LookupAll(ps[1..]);
      DecodeOfLookups(ps[1..]);
      DecodeOfLookup(ps[0]);
      if IsKey(ps[0]) {
        var ks := [ps[0]] + KnownPairs(ps[1..]);
        assert ks[0] == ps[0] && ks[1..] == KnownPairs(ps[1..]);
      } else {
        assert KnownPairs(ps) == KnownPairs(ps[1..]);
      }
    }
  }

  /** `custom_decode` applied to the space-joined codes of a list of hex pairs
      gives back, in order, exactly the pairs that are keys of the table;
      the others were coded as `0001` and are dropped. */
  lemma DecodeOfJoinedCodes(ps: seq<string>)
    ensures DecodeSegments(Text.Words(Text.JoinSpace(LookupAll(ps)))) == Text.Concat(KnownPairs(ps))
  {
    var codes := LookupAll(ps);
    forall k | 0 <= k < |codes|
      ensures |codes[k]| > 0 && Text.NoSpace(codes[k])
    {
      assert Text.IsBinary(Lookup(ps[k]));
    }
    Text.WordsOfJoin(codes);
    DecodeOfLookups(ps);
  }

  /** `str.split()` also cuts at Unicode spaces: `custom_decode` of `0100`
      and `0011` separated by a no-break space is `69` followed by `23`. */
  lemma DecodeAcrossNoBreakSpace()
    ensures DecodeSegments(Text.Words("0100" + ['\U{A0}'] + "0011")) == "6923"
  {
    Text.WordsAcrossNoBreakSpace("0100", "0011");
    DecodeTwoCodes();
  }

  lemma DecodeTwoCodes()
    ensures DecodeSegments(["0100", "0011"]) == "6923"
  {
    CodeFindsEntry(11);
    CodeFindsEntry(12);
    var segs := ["0100", "0011"];
    assert segs[1..] == ["0011"] && segs[1..][1..] == [];
  }

  // ------------------------------------------------------------ replacements

  /** `replacements`: the decode side's correction from a rounded note
      frequency back to the frequency `16 * n + 9` the encode side named. */
  const Replacements: map<nat, nat> := map[
    9 := 9, 24 := 25, 41 := 41, 58 := 57, 73 := 73, 87 := 89, 104 := 105, 123 := 121, 139 := 137,
    156 := 153, 165 := 169, 185 := 185, 196 := 201, 220 := 217, 233 := 233, 247 := 249
  ]

  /** The keys of `replacements`, in the order written. */
  const ReplacementKeys: seq<nat> := [9, 24, 41, 58, 73, 87, 104, 123, 139, 156, 165, 185, 196, 220, 233, 247]

  /** `replacements` has sixteen keys, written in increasing order, and the
      `n`-th of them maps to `16 * n + 9`: its values are the sixteen
      frequencies the encode side names, each once. */
  lemma ReplacementsShape()
    ensures |ReplacementKeys| == 16
    ensures forall n | 0 <= n < 15 :: ReplacementKeys[n] < ReplacementKeys[n + 1]
    ensures forall k :: k in Replacements <==> k in ReplacementKeys
    ensures forall n | 0 <= n < 16 :: Replacements[ReplacementKeys[n]] == 16 * n + 9
  {
    ReplacementKeysSorted();
    ReplacementKeysAreKeys();
    ReplacementValues();
  }

  lemma ReplacementKeysSorted()
    ensures |ReplacementKeys| == 16
    ensures forall n | 0 <= n < 15 :: ReplacementKeys[n] < ReplacementKeys[n + 1]
  {
  }

  lemma ReplacementKeysAreKeys()
    ensures forall k :: k in Replacements <==> k in ReplacementKeys
  {
  }

  lemma ReplacementValues()
    ensures forall n | 0 <= n < 16 :: ReplacementKeys[n] in Replacements && Replacements[ReplacementKeys[n]] == 16 * n + 9
  {
  }
}
