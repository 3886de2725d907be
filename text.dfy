/** The Python string primitives the codec is built from: binary and hex
    rendering, `int(s, 2)`, `str.replace`, two-character slicing and
    whitespace splitting. */
module Text {
  import Bits

  function Min(a: int, b: int): int { if a < b then a else b }

  // ---------------------------------------------------------------- binary

  predicate IsBinary(s: string)
  {
    forall i | 0 <= i < |s| :: s[i] == '0' || s[i] == '1'
  }

  function BitChar(b: bool): char { if b then '1' else '0' }

  /** `int(s, 2)` for a string of binary digits, read left to right (a
      character other than `1` counts as a zero digit). */
  function BinValue(s: string): (r: nat)
    ensures r < Bits.Pow2(|s|)
  {
    if s == [] then 0
    else 2 * BinValue(s[..|s| - 1]) + BitOf(s[|s| - 1])
  }

  /** `format(n, 'b')`: binary digits of `n` without leading zeros. */
  function BinDigits(n: nat): (s: string)
    ensures IsBinary(s) && |s| >= 1
  {
    if n < 2 then [BitChar(n == 1)]
    else BinDigits(n / 2) + [BitChar(n % 2 == 1)]
  }

  function Zeros(k: nat): (s: string)
    ensures |s| == k && IsBinary(s)
  {
    if k == 0 then [] else Zeros(k - 1) + ['0']
  }

  /** `format(n, '04b')`: binary digits, zero-padded on the left to at least four. */
  function Format04b(n: nat): (s: string)
    ensures IsBinary(s) && |s| >= 4
  {
    var d := BinDigits(n);
    if |d| < 4 then Zeros(4 - |d|) + d else d
  }

  /** Appending binary digits shifts the value left by their number. */
  lemma {:induction false} BinValueAppend(a: string, b: string)
    ensures BinValue(a + b) == BinValue(a) * Bits.Pow2(|b|) + BinValue(b)
    decreases |b|
  {
    if b == [] {
      assert a + b == a;
    } else {
      var b' := b[..|b| - 1];
      var last := BitOf(b[|b| - 1]);
      assert (a + b)[..|a + b| - 1] == a + b';
      assert (a + b)[|a + b| - 1] == b[|b| - 1];
      BinValueAppend(a, b');
      assert BinValue(a + b) == 2 * BinValue(a + b') + last;
      assert BinValue(b) == 2 * BinValue(b') + last;
      var x, p := BinValue(a), Bits.Pow2(|b'|);
      assert Bits.Pow2(|b|) == 2 * p;
      Distribute(x, p);
    }
  }

  lemma Distribute(x: int, p: int)
    ensures 2 * (x * p) == x * (2 * p)
  {
  }

  lemma {:induction false} ZerosValue(k: nat)
    ensures BinValue(Zeros(k)) == 0
  {
    if k > 0 {
      assert Zeros(k)[..k - 1] == Zeros(k - 1);
      ZerosValue(k - 1);
    }
  }

  lemma {:induction false} BinDigitsValue(n: nat)
    ensures BinValue(BinDigits(n)) == n
  {
    if n >= 2 {
      var d := BinDigits(n);
      assert d[..|d| - 1] == BinDigits(n / 2);
      BinDigitsValue(n / 2);
    }
  }

  /** The value of a four-digit binary string, digit by digit. */
  lemma BinValueOfFour(s: string)
    requires |s| == 4
    ensures BinValue(s) == 8 * BitOf(s[0]) + 4 * BitOf(s[1]) + 2 * BitOf(s[2]) + BitOf(s[3])
  {
    assert s[..4] == s;
    assert s[..3][..2] == s[..2];
    assert s[..2][..1] == s[..1];
    assert s[..1][..0] == [];
    assert BinValue(s[..1]) == BitOf(s[0]);
    assert BinValue(s[..2]) == 2 * BinValue(s[..1]) + BitOf(s[1]);
    assert BinValue(s[..3]) == 2 * BinValue(s[..2]) + BitOf(s[2]);
    assert BinValue(s) == 2 * BinValue(s[..3]) + BitOf(s[3]);
  }

  function BitOf(c: char): nat { if c == '1' then 1 else 0 }

  /** Four binary digits, and the value they read as. */
  lemma FourBits(a: char, b: char, c: char, d: char)
    requires (a == '0' || a == '1') && (b == '0' || b == '1')
    requires (c == '0' || c == '1') && (d == '0' || d == '1')
    ensures IsBinary([a, b, c, d])
    ensures BinValue([a, b, c, d]) == 8 * BitOf(a) + 4 * BitOf(b) + 2 * BitOf(c) + BitOf(d)
  {
    BinValueOfFour([a, b, c, d]);
  }

  /** Reading back a `'04b'` rendering gives the number rendered. */
  lemma Format04bValue(n: nat)
    ensures BinValue(Format04b(n)) == n
  {
    var d := BinDigits(n);
    BinDigitsValue(n);
    if |d| < 4 {
      var z := Zeros(4 - |d|);
      BinValueAppend(z, d);
      ZerosValue(4 - |d|);
      ZeroTimes(BinValue(z), Bits.Pow2(|d|));
    }
  }

  lemma ZeroTimes(x: int, p: int)
    requires x == 0
    ensures x * p == 0
  {
  }

  // ------------------------------------------------------------------- hex

  const HexAlphabet: string := "0123456789abcdef"

  /** `format(n, 'x')`: lower-case hex digits of `n` without leading zeros. */
  function Hex(n: nat): (s: string)
    ensures |s| >= 1
    ensures n < 16 <==> |s| == 1
    ensures n < 256 ==> |s| <= 2
  {
    if n < 16 then [HexAlphabet[n]] else Hex(n / 16) + [HexAlphabet[n % 16]]
  }

  /** `f"{n:02x}"`: hex digits zero-padded on the left to at least two. */
  function Format02x(n: nat): (s: string)
    ensures |s| >= 2
    ensures n < 256 ==> |s| == 2
  {
    var h := Hex(n);
    if |h| < 2 then "0" + h else h
  }

  /** The value of a lower-case hex digit, as `int(c, 16)` reads it. */
  function HexDigitValue(c: char): nat
  {
    if '0' <= c <= '9' then c as nat - '0' as nat
    else if 'a' <= c <= 'f' then c as nat - 'a' as nat + 10
    else 0
  }

  lemma HexDigitReadBack(d: nat)
    requires d < 16
    ensures HexDigitValue(HexAlphabet[d]) == d
  {
  }

  /** Below 256, `f"{n:02x}"` is the high and the low hex digit of `n`, and reading
      the two digits back in base 16 gives `n`. */
  lemma Format02xDigits(n: nat)
    requires n < 256
    ensures Format02x(n) == [HexAlphabet[n / 16], HexAlphabet[n % 16]]
    ensures 16 * HexDigitValue(Format02x(n)[0]) + HexDigitValue(Format02x(n)[1]) == n
  {
    if n >= 16 {
      assert Hex(n) == Hex(n / 16) + [HexAlphabet[n % 16]];
    }
    HexDigitReadBack(n / 16);
    HexDigitReadBack(n % 16);
  }

  /** `''.join(f"{ord(c):02x}" for c in s)` */
  function HexOfText(s: string): (h: string)
    ensures |h| >= 2 * |s|
  {
    if s == [] then "" else Format02x(s[0] as nat) + HexOfText(s[1..])
  }

  /** `str(n)`: decimal digits of `n` without leading zeros. */
  function Decimal(n: nat): (s: string)
    ensures |s| >= 1
    ensures forall k | 0 <= k < |s| :: '0' <= s[k] <= '9'
  {
    if n < 10 then [(48 + n) as char] else Decimal(n / 10) + [(48 + n % 10) as char]
  }

  // --------------------------------------------------------------- replace

  /** `s.replace(pat, rep)`: every non-overlapping occurrence, scanning from the left. */
  function Replace(s: string, pat: string, rep: string): string
    requires |pat| > 0
    decreases |s|
  {
    if |s| < |pat| then s
    else if s[..|pat|] == pat then rep + Replace(s[|pat|..], pat, rep)
    else [s[0]] + Replace(s[1..], pat, rep)
  }

  // ----------------------------------------------------------------- pairs

  /** `[s[i:i+2] for i in range(0, len(s), 2)]`: the last piece is one character long when `|s|` is odd. */
  function Pairs(s: string): (ps: seq<string>)
    ensures |ps| == (|s| + 1) / 2
    ensures forall k | 0 <= k < |ps| :: ps[k] == s[2 * k..Min(2 * k + 2, |s|)]
  {
    seq((|s| + 1) / 2, k requires 0 <= k < (|s| + 1) / 2 => s[2 * k..Min(2 * k + 2, |s|)])
  }

  function Concat(ss: seq<string>): string
  {
    if ss == [] then "" else ss[0] + Concat(ss[1..])
  }

  /** The pieces `Pairs` cuts a string into join back to the string; every
      piece but the last is two characters long, and the last one or two. */
  lemma {:induction false} PairsJoin(s: string)
    ensures Concat(Pairs(s)) == s
    ensures forall k | 0 <= k < |Pairs(s)| ::
      1 <= |Pairs(s)[k]| <= 2 && (k + 1 < |Pairs(s)| ==> |Pairs(s)[k]| == 2)
    decreases |s|
  {
    if |s| > 0 {
      var ps := Pairs(s);
      var n := Min(2, |s|);
      var rest := Pairs(s[n..]);
      PairsJoin(s[n..]);
      assert |ps| == 1 + |rest|;
      forall k | 1 <= k < |ps|
        ensures ps[k] == rest[k - 1]
      {
        var e := Min(2 * k + 2, |s|);
        assert n == 2 && Min(2 * (k - 1) + 2, |s| - n) == e - 2;
        SliceOfSuffix(s, 2, 2 * k - 2, e - 2);
      }
      assert ps == [s[..n]] + rest;
      assert Concat(ps) == s[..n] + Concat(rest);
    }
  }

  lemma SliceOfSuffix(s: string, n: nat, i: nat, j: nat)
    requires n <= |s| && i <= j <= |s| - n
    ensures s[n..][i..j] == s[n + i..n + j]
  {
  }

  /** A slice of `a + b` that lies in `a` or in `b`. */
  lemma SliceOfConcat(a: string, b: string, i: nat, j: nat)
    requires i <= j <= |a| + |b| && (j <= |a| || |a| <= i)
    ensures j <= |a| ==> (a + b)[i..j] == a[i..j]
    ensures |a| <= i ==> (a + b)[i..j] == b[i - |a|..j - |a|]
  {
  }

  /** A two-character string is its first character followed by its second. */
  lemma SplitTwo(h: string, r: string)
    requires |h| == 2
    ensures h + r == [h[0]] + ([h[1]] + r)
  {
  }

  /** Cutting a concatenation of two-character strings into pairs gives the strings back. */
  lemma {:induction false} PairsOfConcat(ss: seq<string>)
    requires forall i | 0 <= i < |ss| :: |ss[i]| == 2
    ensures |Concat(ss)| == 2 * |ss|
    ensures Pairs(Concat(ss)) == ss
  {
    if ss != [] {
      PairsOfConcat(ss[1..]);
      var c := Concat(ss);
      assert c == ss[0] + Concat(ss[1..]);
      forall k | 0 <= k < |ss|
        ensures Pairs(c)[k] == ss[k]
      {
        SliceOfConcat(ss[0], Concat(ss[1..]), 2 * k, 2 * k + 2);
        if k > 0 {
          assert Pairs(Concat(ss[1..]))[k - 1] == ss[1..][k - 1];
        }
      }
    }
  }

  // ----------------------------------------------------------------- split

  /** The characters for which `str.isspace()` holds, at which `str.split()`
      cuts: ASCII whitespace, the separators 0x1C to 0x1F, and the Unicode
      spaces and line and paragraph separators. */
  predicate IsSpace(c: char)
  {
    c == ' ' || c == '\t' || c == '\n' || c == '\r' || c == '\U{B}' || c == '\U{C}'
    || c == '\U{1C}' || c == '\U{1D}' || c == '\U{1E}' || c == '\U{1F}'
    || c == '\U{85}' || c == '\U{A0}' || c == '\U{1680}' || '\U{2000}' <= c <= '\U{200A}'
    || c == '\U{2028}' || c == '\U{2029}' || c == '\U{202F}' || c == '\U{205F}' || c == '\U{3000}'
  }

  predicate NoSpace(s: string)
  {
    forall i | 0 <= i < |s| :: !IsSpace(s[i])
  }

  /** Length of the longest prefix of `s` free of whitespace. */
  function WordLength(s: string): (n: nat)
    ensures n <= |s| && NoSpace(s[..n])
    ensures n < |s| ==> IsSpace(s[n])
  {
    if s == [] || IsSpace(s[0]) then 0
    else
      var n := 1 + WordLength(s[1..]);
      assert s[..n] == [s[0]] + s[1..][..n - 1];
      n
  }

  /** `s.split()`: the maximal runs of non-whitespace characters, in order. */
  function Words(s: string): (ws: seq<string>)
    ensures forall i | 0 <= i < |ws| :: |ws[i]| > 0 && NoSpace(ws[i])
    decreases |s|
  {
    if s == [] then []
    else if IsSpace(s[0]) then Words(s[1..])
    else
      var n := WordLength(s);
      [s[..n]] + Words(s[n..])
  }

  /** `' '.join(ws)` */
  function JoinSpace(ws: seq<string>): string
  {
    if ws == [] then ""
    else if |ws| == 1 then ws[0]
    else ws[0] + " " + JoinSpace(ws[1..])
  }

  lemma {:induction false} WordLengthOfWord(w: string, rest: string)
    requires NoSpace(w)
    requires rest == [] || IsSpace(rest[0])
    ensures WordLength(w + rest) == |w|
  {
    if w != [] {
      assert (w + rest)[1..] == w[1..] + rest;
      WordLengthOfWord(w[1..], rest);
    }
  }

  /** Splitting a space-joined list of non-empty, space-free words gives the list back. */
  lemma {:induction false} WordsOfJoin(ws: seq<string>)
    requires forall i | 0 <= i < |ws| :: |ws[i]| > 0 && NoSpace(ws[i])
    ensures Words(JoinSpace(ws)) == ws
  {
    if |ws| == 1 {
      WordsOfWord(ws[0], "");
      assert ws[0] + "" == ws[0];
    } else if |ws| > 1 {
      var tail := JoinSpace(ws[1..]);
      assert JoinSpace(ws) == ws[0] + (" " + tail);
      WordsOfJoin(ws[1..]);
      WordsOfWord(ws[0], " " + tail);
      assert (" " + tail)[1..] == tail;
    }
  }

  /** A word followed by nothing or by whitespace is split off whole. */
  lemma WordsOfWord(w: string, rest: string)
    requires |w| > 0 && NoSpace(w)
    requires rest == [] || IsSpace(rest[0])
    ensures Words(w + rest) == [w] + Words(rest)
  {
    var s := w + rest;
    WordLengthOfWord(w, rest);
    assert !IsSpace(s[0]);
    assert s[..|w|] == w;
    assert s[|w|..] == rest;
  }

  /** Two words separated by a no-break space split into those two words. */
  lemma WordsAcrossNoBreakSpace(a: string, b: string)
    requires |a| > 0 && NoSpace(a) && |b| > 0 && NoSpace(b)
    ensures Words(a + ['\U{A0}'] + b) == [a, b]
  {
    var tail := ['\U{A0}'] + b;
    assert a + ['\U{A0}'] + b == a + tail;
    WordsOfWord(a, tail);
    assert tail[1..] == b + [];
    WordsOfWord(b, []);
  }
}
