# v0xen codec, modelled in Dafny

v0xen hides a secret image in the two low bits of a cover image. The
encode side (`scripts/embed.py`) works in four steps:

1. It keeps the top four bits of every secret sample.
2. It names the note at `16 * msb + 9` Hz and turns that note name into three
   4-bit codes through a hex-pair table.
3. It replaces every group of three codes by its slot in a keyed permutation
   of sixteen fixed triples.
4. It splits every slot into two 2-bit fragments, complements the fragments
   in odd columns, and writes them into the low two bits of a copy of the
   cover.

The decode side (`scripts/extract.py`) masks the low two bits, undoes the
complement, recombines the fragment pairs into slots and looks each slot
up in the same keyed table to get the triples back.

This project models that codec: the integer part both sides share. Images
are numpy `(H, W, C)` `uint8` arrays, modelled as `array3<byte>` indexed
`[row, column, channel]`. Loops and in-place updates in the source are
methods with loops and `modifies` clauses. The methods that build whole rows
(`encode_msbs`, `process_array`, `reverse_to_original` and their per-row
loops) are proved against specification functions on rows (`Planes.Row`).
The sample-wise methods (`extract_top_4_msbs`, `extract_msb`, `embed`,
`encode_bits`) are specified sample by sample. The remaining loops
(`msb_to_encoded`, `generate_mapping`, `int_from_bin`, `custom_decode`) are
proved against functions on values.

Modules:

- `Bits`: Python's `&`, `|`, `^`, `>>` on naturals, and the numpy `uint8`
  `<<`. The lemmas turn each operator into arithmetic.
- `Text`: binary and hex formatting, `int(s, 2)`, `str.replace`, pair
  slicing and whitespace splitting.
- `NibbleCodec`: the note-name table (`mapping_table` / `mapping`), and
  what `msb_to_encoded` does after the note is named. It also covers
  `custom_decode` and the `replacements` table.
- `KeyedPermutation`: `generate_mapping` and the reverse search through
  its items.
- `Planes`: rows of a plane, and the odd-column complement that both
  `encode_bits` and `decodeBits` perform.
- `Embed` and `Extract`: the array operations of each side.
- `RoundTrip`: both sides composed. Every slot whose two fragment columns
  fit in the cover is recovered. Every group of three codes that is one of
  the sixteen triples comes back unchanged, provided it lies inside the
  cover: group `g < coverW // 2`, row `y < min(H, coverH)` and channel
  `c < C`.

The hash and the note naming are foreign calls, so they are parameters.
`digest: string -> nat` stands for `int(hashlib.sha256(s.encode()).hexdigest(), 16)`.
`noteOf: nat -> string` stands for `librosa.hz_to_note`.

## Model

| member | source | states |
|---|---|---|
| Bits.AndMasks | scripts/embed.py:32 | `a & 0b11` is `a % 4` and `a & 0b1111` is `a % 16` |
| Bits.AndLowMask | scripts/embed.py:32 | masking with `k` one-bits keeps the value modulo `2^k` |
| Bits.ShiftRightSmall | scripts/embed.py:32 | `a >> 2` is `a / 4` and `a >> 4` is `a / 16` |
| Bits.OrDisjoint | scripts/embed.py:45 | or-ing a value below `2^k` into `m` shifted left by `k` is addition |
| Bits.AndClearLow2 | scripts/embed.py:112 | `a & 0b11111100` is `a` with its two low bits cleared |
| Bits.XorThree | scripts/embed.py:104 | `a ^ 0b11` keeps `a / 4` and turns the low bits `b` into `3 - b` |
| Bits.XorInvolutive | scripts/extract.py:59 | xor-ing twice with the same value restores the original |
| Bits.FlipInvolutive | scripts/extract.py:59 | complementing the two low bits of a sample twice restores it |
| Bits.ShiftLeftByte | scripts/extract.py:68 | the `uint8` shift stays below 256 (it wraps) |
| Text.Format04bValue | scripts/embed.py:49 | `format(n, '04b')` reads back as `n` |
| Text.BinValueAppend | scripts/embed.py:50 | reading `a + b` in binary is `a` shifted by `len(b)` plus `b` |
| Text.Format02x | scripts/embed.py:52 | a character code below 256 renders as exactly two hex digits |
| Text.Format02xDigits | scripts/embed.py:52 | `f"{n:02x}"` for `n < 256` is the lower-case hex digit of `n // 16` followed by that of `n % 16`, and the two digits read back in base 16 as `n` |
| Text.PairsJoin | scripts/embed.py:54-55 | the pieces `hex_str[i:i+2]` join back to `hex_str`, and every piece but the last is exactly two characters |
| Text.PairsOfConcat | scripts/embed.py:52-55 | cutting a join of two-character strings into pairs gives the strings back |
| Text.Words | scripts/extract.py:37 | `str.split()` yields non-empty words free of every character `str.isspace()` accepts (ASCII whitespace, 0x1C-0x1F and the Unicode spaces and separators) |
| Text.WordsOfJoin | scripts/extract.py:37 | splitting a space-join of words free of that whitespace gives the words back |
| Text.WordsAcrossNoBreakSpace | scripts/extract.py:37 | a no-break space (U+00A0) between two words splits them like an ASCII space |
| NibbleCodec.EntryCode | scripts/embed.py:34-39 | every key of `mapping_table` is a two-character pair, and entry `i`'s code is four binary digits reading as `15 - i` |
| NibbleCodec.CodesDistinct | scripts/embed.py:34-39 | the fourteen codes are pairwise distinct, and none is `0000` or `0001` |
| NibbleCodec.CodeFindsEntry | scripts/extract.py:24-28 | searching the decode table by entry `i`'s code finds entry `i` |
| NibbleCodec.FillerIsNoCode | scripts/embed.py:55 | the filler `0001` is not a code of the table and reads as 1 |
| NibbleCodec.Lookup | scripts/embed.py:55 | `mapping_table.get(pair, '0001')` is four binary digits, and it is the filler exactly when the pair is not a key |
| NibbleCodec.LookupValue | scripts/embed.py:55 | a key's code reads as `15 - i` for its entry `i`, and any other pair's reads as 1 |
| NibbleCodec.PairCode | scripts/embed.py:55-58 | a pair's code is below 16; it is at least 2 exactly for keys and 1 exactly for non-keys |
| NibbleCodec.FrequencyOfNibble | scripts/embed.py:49-50 | `int(format(msb, '04b') + '1001', 2)` is `16 * msb + 9` |
| NibbleCodec.LookupAll | scripts/embed.py:54-55 | the loop's list holds one four-digit code per pair, in order |
| NibbleCodec.PadCodes | scripts/embed.py:56-57 | padding makes the list at least three long, keeps its prefix and fills with `0001` |
| NibbleCodec.PadCodesAt | scripts/embed.py:56-57 | position `j` of the padded list is the original code or the filler |
| NibbleCodec.NoteCodes | scripts/embed.py:58 | the result has exactly three codes, each below 16 |
| NibbleCodec.NoteCodesByPosition | scripts/embed.py:53-58 | code `j` is the code of hex pair `j`. Missing pairs become 1, and pairs past the third are dropped |
| NibbleCodec.MsbToEncoded | scripts/embed.py:48-58 | `msb_to_encoded(msb)` returns the three codes of the note named for `16 * msb + 9`, each below 16 |
| NibbleCodec.CharHex | scripts/embed.py:52 | `♯` renders as `266f`. Every other note character renders as two digits that cannot start a `266f` |
| NibbleCodec.ReplacePerChar | scripts/embed.py:52 | for a note name, rewriting `266f` to `69` in the joined hex equals rewriting character by character |
| NibbleCodec.HexPairsPerChar | scripts/embed.py:52-55 | for a note name, hex pair `k` is the pair of character `k` |
| NibbleCodec.NoteCodesPerChar | scripts/embed.py:48-58 | for a note name, code `j` is the code of character `j`'s pair, or 1 past the end of the name |
| NibbleCodec.FindCode | scripts/extract.py:40-43 | the inner search stops at the entry whose code is the segment, or runs off the end exactly when no entry has that code |
| NibbleCodec.CustomDecode | scripts/extract.py:35-44 | `custom_decode` concatenates, segment by segment, the key of each segment that is a code and drops the others |
| NibbleCodec.DecodeAcrossNoBreakSpace | scripts/extract.py:37-44 | an example of `Text.WordsAcrossNoBreakSpace` at work: `custom_decode("0100\u00a00011")` is `"6923"` |
| NibbleCodec.DecodeOfLookup | scripts/extract.py:35-44 | decoding a pair's code gives back the pair if it is a key, and nothing if the filler stood in for it |
| NibbleCodec.DecodeOfLookups | scripts/extract.py:35-44 | decoding the codes of a list of pairs gives back exactly its key pairs, in order |
| NibbleCodec.DecodeOfJoinedCodes | scripts/extract.py:35-44 | `custom_decode` of the space-joined codes of a pair list returns the key pairs in order: it inverts the lookup |
| NibbleCodec.ReplacementsShape | scripts/extract.py:30-33 | `replacements` has sixteen keys in increasing order, and key `n` maps to `16 * n + 9` |
| NibbleCodec.ReplacementValues | scripts/extract.py:30-33 | every listed key is in the table, and the `n`-th maps to `16 * n + 9` |
| KeyedPermutation.SortedTuplesSorted | scripts/embed.py:77 | the iteration order is strictly increasing in Python's tuple order |
| KeyedPermutation.SortedTuplesSameTriples | scripts/embed.py:70-77 | `sorted(tuples)` holds the same sixteen triples as `tuples` |
| KeyedPermutation.SortedTuplesOrdered | scripts/embed.py:77 | earlier sorted triples are smaller and distinct |
| KeyedPermutation.Range | scripts/embed.py:79-81 | the slot set `0..n-1` has exactly `n` members |
| KeyedPermutation.FreeSlot | scripts/embed.py:80-81 | with fewer than 16 slots used, some slot below 16 is free |
| KeyedPermutation.ProbeOffset | scripts/embed.py:80-81 | the probe passes only used slots and stops at the first free one |
| KeyedPermutation.ProbeStops | scripts/embed.py:80-81 | with a free slot, probing stops within sixteen steps |
| KeyedPermutation.HashSlot | scripts/embed.py:78-79 | the start slot `hval % 16` is below 16 |
| KeyedPermutation.ProbeLoop | scripts/embed.py:79-81 | the `while` loop returns the first free slot at or after the start, wrapping at 16 |
| KeyedPermutation.PlacedStep | scripts/embed.py:82-83 | placing the next triple in a free slot keeps the table injective, its keys the first triples, and `used` exactly its slots |
| KeyedPermutation.AssignPlaced | scripts/embed.py:75-83 | after `n` triples, the table holds exactly the first `n` sorted triples on `n` distinct slots, and `used` is those slots |
| KeyedPermutation.TableIsBijection | scripts/embed.py:69-84 | for every key and hash, the table's keys are the sixteen triples, each slot is below 16, no two share one and every slot 0..15 is used |
| KeyedPermutation.GenerateMapping | scripts/embed.py:69-84 | `generate_mapping(key)` returns the table of the key (the same function serves scripts/extract.py:7-22) |
| KeyedPermutation.FindSlotFrom | scripts/extract.py:81-84 | the items search returns a triple whose slot is `v`, or none when no later triple has it |
| KeyedPermutation.UnmapFinds | scripts/extract.py:81-84 | with the key's table, every value below 16 finds a triple |
| KeyedPermutation.UnmapInverts | scripts/extract.py:81-84 | searching for a triple's slot finds that same triple |
| KeyedPermutation.UnmapMisses | scripts/extract.py:81-84 | a value of 16 or more finds nothing |
| Planes.PutRow | scripts/extract.py:87 | assigning a whole row sets exactly that row |
| Planes.PutPrefix | scripts/embed.py:98 | `processed[y, :len(e), c] = e` sets that row's prefix and nothing else |
| Planes.FlipOdd | scripts/embed.py:104 | odd columns get their two low bits complemented and even ones stay, and the top six bits always stay |
| Planes.FlipOddTwice | scripts/extract.py:57-60 | complementing a column twice restores it |
| Planes.XorOddColumns | scripts/embed.py:101-105 | `encode_bits` xors `0b11` into every odd column in place, channel by channel (`decodeBits`, scripts/extract.py:57-60, is the same method) |
| Planes.XorOddColumnsTwice | scripts/extract.py:57-60 | `decodeBits(encode_bits(a))` restores every sample of `a` |
| Embed.Top4 | scripts/embed.py:32 | `(v >> 4) & 0b1111` is `v / 16`, below 16 |
| Embed.ExtractTop4Msbs | scripts/embed.py:31-32 | every sample of the new array is the input's `v / 16` |
| Embed.NoteTableShape | scripts/embed.py:58 | every sample value has exactly three codes, each below 16 |
| Embed.EncodeSample | scripts/embed.py:66 | `msb_to_encoded` for one sample gives that value's three codes |
| Embed.SpreadAt | scripts/embed.py:65-66 | columns `3x..3x+2` of a spread row hold the codes of sample `x` |
| Embed.EncodedRowAt | scripts/embed.py:60-67 | the encoded row is three times as wide, and column `3x + j` is code `j` of the note for sample `x` |
| Embed.EncodeMsbs | scripts/embed.py:60-67 | `encode_msbs` returns a new array of width `3W` whose every row is the encoded row of the input row |
| Embed.EncodeRow | scripts/embed.py:64-66 | the inner loop writes one row and leaves the others unchanged |
| Embed.PutCodes | scripts/embed.py:66 | `encoded[y, 3x:3x+3, c] = codes` extends the written prefix by the three codes |
| Embed.High | scripts/embed.py:97 | `(m >> 2) & 0b11` is `(m / 4) % 4` |
| Bits.LowTwo | scripts/embed.py:97 | `m & 0b11`, the low fragment of a slot, is `m % 4`. The same mask is `v & 0b00000011` in scripts/extract.py:55 |
| Embed.FragmentsOfSlot | scripts/embed.py:97 | a slot below 16 is `4 * high + low`, and both fragments are below 4 |
| Embed.Fragments | scripts/embed.py:95-97 | `expanded` holds two fragments per slot, each below 4 |
| Embed.FragmentsAt | scripts/embed.py:96-97 | positions `2i` and `2i+1` of `expanded` are the high and low fragments of slot `i` |
| Embed.ProcessedRow | scripts/embed.py:89-98 | a processed row is `(W // 3 + 1) * 2` wide with every entry below 4 |
| Embed.ProcessedRowAt | scripts/embed.py:89-98 | columns `2i` and `2i+1` hold the high and low fragments of group `i`'s slot. Every later column is 0 and every entry is below 4 |
| Embed.ProcessArray | scripts/embed.py:86-99 | `process_array` returns a new `(H, (W // 3 + 1) * 2, C)` array whose every row is the processed row of the input row under the key's table |
| Embed.ProcessRow | scripts/embed.py:93-98 | one row's loop writes the processed row into a zero row and leaves the other rows unchanged |
| Embed.Merge | scripts/embed.py:112 | the merged sample keeps the cover's top six bits and takes the encoded sample's two low bits |
| Embed.EmbedPlanes | scripts/embed.py:107-113 | `embed` returns a new array of the cover's shape. Inside `min(H, coverH)` × `min(W, coverW)` × `C` it keeps the cover's top six bits and the encoded low bits; every other sample is the cover's |
| Embed.IntFromBin | scripts/embed.py:41-46 | for a binary string the loop returns `int(bstr, 2)` |
| Extract.ExtractMsb | scripts/extract.py:51-55 | every sample of the new array is `v % 4` |
| Extract.ShiftByTwo | scripts/extract.py:68 | `uint8` `h << 2` is `4 * (h % 64)`: the two top bits fall off |
| Extract.ShiftedOr | scripts/extract.py:68-70 | `uint8` `h << 2` is `4 * (h % 64)`, and or-ing a two-bit `l` into it adds `l` |
| Extract.Combine | scripts/extract.py:68-70 | `h << 2` or-ed with `l` on `uint8` is `4 * (h % 64) + l` for `l < 4` |
| Extract.CombineSmall | scripts/extract.py:68-70 | two fragments below 4 combine to `4h + l`, below 16 |
| Extract.ConvertedRowSmall | scripts/extract.py:64-70 | for fragments below 4, entry `k` of the converted row is `4 * row[2k] + row[2k+1]`, below 16 |
| Extract.ArrayConversion | scripts/extract.py:62-71 | `array_conversion` returns a new `(H, W // 2, C)` array with `out[y, k, c]` combined from columns `2k` and `2k+1` |
| Extract.Fit | scripts/extract.py:85-87 | the padded and truncated row is exactly `n` long: the row's codes first, then zeros |
| Extract.TriplesSmall | scripts/extract.py:8-12 | every component of the sixteen triples is below 16, so it fits a `uint8` |
| Extract.SearchItems | scripts/extract.py:81-84 | the `for ... break` search returns the first triple in insertion order whose slot is the value |
| Extract.ReverseRow | scripts/extract.py:79-87 | the row built for `encoded_array[y, :, c]` expands every found value, skips the others and is fitted to `3W` |
| Extract.PadRow | scripts/extract.py:85-87 | zero-padding and then `row[:n]` give the row fitted to `n` |
| Extract.ReverseToOriginal | scripts/extract.py:73-88 | `reverse_to_original` returns a new `(H, 3W, C)` array whose every row is the expanded row of the input row, fitted to `3W` |
| Extract.ExpandLength | scripts/extract.py:80-84 | the expanded row is at most `3W` long, and exactly `3W` if and only if every value finds a triple |
| Extract.ExpandAt | scripts/extract.py:80-84 | when every value is found, codes `3i..3i+2` are the triple found for value `i` |
| Extract.ReverseRecovers | scripts/extract.py:73-88 | with the key's table and values below 16, no value is skipped, no padding is needed, and codes `3i..3i+2` are the triple whose slot is value `i` |
| RoundTrip.FragmentSurvives | scripts/embed.py:104 | a fragment complemented by `encode_bits` and complemented again by `decodeBits` comes back |
| RoundTrip.SlotSurvives | scripts/extract.py:68-70 | recombining the high and low fragment of a slot below 16 gives the slot |
| RoundTrip.SlotsBelow | scripts/embed.py:94 | every slot `process_array` maps a group to is below 16 |
| RoundTrip.SlotOfTriple | scripts/embed.py:94 | a group that is a key of the table maps to its table value |
| RoundTrip.EmbedSide | scripts/embed.py:86-113 | in the covered region, the low bits of `embed(encode_bits(process_array(e)), cover)` are the processed fragments, complemented in odd columns |
| RoundTrip.ExtractSide | scripts/extract.py:51-88 | `array_conversion(decodeBits(extract_msb(s)))` recombines the uncomplemented low bits of each column pair, below 16, and `reverse_to_original` expands those |
| RoundTrip.PairRecovered | scripts/extract.py:57-70 | the two complemented fragments of a slot recombine into the slot |
| RoundTrip.SlotRecovered | scripts/extract.py:57-70 | the decoded value at column `k` is the slot of group `k` whenever both fragment columns fit in the cover |
| RoundTrip.TripleRecovered | scripts/extract.py:73-88 | a group that is one of the sixteen triples and lies inside the cover (`g < coverW // 2`, `y < min(H, coverH)`, `c < C`) comes back unchanged at codes `3g..3g+2` |
| RoundTrip.RoundTrip | scripts/embed.py:86-113 | encoding and then decoding with the same key recovers every slot whose two fragment columns fit in the cover, and every group that is one of the sixteen triples and lies inside the cover (`g < coverW // 2`, `y < min(H, coverH)`, `c < C`) |

## Left out

- The command-line front end `v0xen.py` is not part of this model. Neither
  are the image file helpers: `load_image`, `save_image`, `resize_secret`
  (scripts/embed.py:7-29) and `crop` (scripts/extract.py:46-49). They are
  file I/O, resampling and floating-point aspect ratios. The `ndim == 2`
  `expand_dims` in `extract_msb` belongs to them: planes are always
  three-dimensional here.
- `librosa.hz_to_note` is floating-point and foreign, so it is the parameter
  `noteOf`. The rewrite of `266f` to `69` is proved per character only for
  names made of `A`–`G`, digits, `-` and `♯`. For other strings it is
  modelled as written.
- `hashlib.sha256` is foreign, so it is the parameter `digest`.
  `str(t)` for a triple is rendered as `(a, b, c)`.
- `decode_secret` (scripts/extract.py:90-157) is not modelled. It parses
  notes with regular expressions, calls `librosa.note_to_hz`, swallows
  errors with bare `except` and writes pixels through PIL. Only its
  `replacements` table is modelled.
- Embed.IntFromBin: `int_from_bin` is compiled by `@njit`, so its loop runs on
  64-bit integers and wraps once `bstr` is longer than 63 digits. The model
  gives Python's unbounded value. `int_from_bin` has no caller in the two
  scripts. The contract also speaks only of strings of `0` and `1`.
  The source's `int(c)` also accepts other decimal digits, and the value it
  then computes is not stated.
- Embed.EmbedPlanes: requires that the cover has at least as many channels
  as the encoded array. Otherwise numpy raises an index error, which is not
  modelled.
- `reverse_to_original` compares each value with the table entry by entry.
  The model computes the search result first and then extends the row by it
  (`Extract.SearchItems`, `Extract.ReverseRow`). The result is the same.
- Numpy's vectorised slice operations (`>>`, `&`, `^=`, slice assignment)
  are modelled as `forall` statements over the whole slice. The order in
  which numpy visits elements is not modelled.
- `process_array` maps a group that is not one of the sixteen triples to
  slot 0. So is the short last group when `W` is not a multiple of three.
  Decoding then yields the triple whose slot is 0, so
  `RoundTrip.RoundTrip` promises recovery only for groups that are triples.
