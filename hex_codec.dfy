/**
 * The hex byte codec of MainUUE without its file I/O: `encode` writes two
 * upper-case hex digits per byte, the high nibble first, and `decode` turns
 * each pair of characters back into one byte. A Java `byte` is a signed
 * integer from -128 to 127; its shifts, masks and casts are written out in
 * integer arithmetic.
 */
module HexCodec {

  /** A Java `byte`. */
  type Byte = b: int | -128 <= b < 128

  /** The HEX table: the one-character string of every nibble value. */
  const HEX: seq<string> := ["0", "1", "2", "3", "4", "5", "6", "7", "8", "9", "A", "B", "C", "D", "E", "F"]

  /** The characters `encode` can write. */
  predicate IsHexDigit(ch: char) {
    '0' <= ch <= '9' || 'A' <= ch <= 'F'
  }

  /**
   * `((b >> 4) & 0xF`: the high nibble of b as a table index. The arithmetic
   * shift of a negative b floors, as Dafny's division by 16 does, and the
   * mask keeps the remainder modulo 16.
   */
  function HighNibble(b: Byte): (n: int)
    ensures 0 <= n < 16
    ensures b >= 0 ==> n == b / 16
    ensures b < 0 ==> n == b / 16 + 16
  {
    (b / 16) % 16
  }

  /** `b & 0xF`: the low nibble of b as a table index, the remainder modulo 16. */
  function LowNibble(b: Byte): (n: int)
    ensures 0 <= n < 16 && b == b / 16 * 16 + n
  {
    b % 16
  }

  /**
   * `toByte`: the value of an upper-case hex digit; every other character
   * maps to 0.
   */
  function ToByte(ch: char): (v: int)
    ensures '0' <= ch <= '9' ==> v == ch as int - '0' as int
    ensures 'A' <= ch <= 'F' ==> v == ch as int - 'A' as int + 10
    ensures !IsHexDigit(ch) ==> v == 0
    ensures 0 <= v < 16
  {
    match ch
    case '0' => 0
    case '1' => 1
    case '2' => 2
    case '3' => 3
    case '4' => 4
    case '5' => 5
    case '6' => 6
    case '7' => 7
    case '8' => 8
    case '9' => 9
    case 'A' => 10
    case 'B' => 11
    case 'C' => 12
    case 'D' => 13
    case 'E' => 14
    case 'F' => 15
    case _ => 0
  }

  /** The digit of the nibble value n: '0' to '9', then 'A' to 'F'. */
  function HexChar(n: int): (ch: char)
    requires 0 <= n < 16
    ensures IsHexDigit(ch)
  {
    if n < 10 then ('0' as int + n) as char else ('A' as int + n - 10) as char
  }

  /** `toByte` gives back the value of every digit. */
  lemma HexCharValue(n: int)
    requires 0 <= n < 16
    ensures ToByte(HexChar(n)) == n
  {
  }

  /** The HEX table holds the digit of every nibble value, as a one-character string. */
  lemma HexTable(n: int)
    requires 0 <= n < 16
    ensures HEX[n] == [HexChar(n)]
  {
  }

  /**
   * `HEX[(b >> 4) & 0xF] + HEX[b & 0xF]`: two hex digits, whose values
   * under `toByte` are the high and the low nibble of b.
   */
  function HexPair(b: Byte): (p: string)
    ensures |p| == 2 && IsHexDigit(p[0]) && IsHexDigit(p[1])
  {
    [HexChar(HighNibble(b)), HexChar(LowNibble(b))]
  }

  /** The values of the two digits of b under `toByte` are the high and the low nibble of b. */
  lemma HexPairValue(b: Byte)
    ensures ToByte(HexPair(b)[0]) == HighNibble(b) && ToByte(HexPair(b)[1]) == LowNibble(b)
  {
    HexCharValue(HighNibble(b));
    HexCharValue(LowNibble(b));
  }

  /** What `encode` writes for the bytes bs: two hex digits per byte. */
  function Encoded(bs: seq<Byte>): (s: string)
    ensures |s| == 2 * |bs|
    decreases |bs|
  {
    if bs == [] then "" else Encoded(bs[..|bs| - 1]) + HexPair(bs[|bs| - 1])
  }

  /**
   * `(byte) (n << 4)` for a nibble value n: the values from 8 on shift into
   * the sign bit and come out negative. The low four bits are zero.
   */
  function ShiftedUp(n: int): (b: int)
    requires 0 <= n < 16
    ensures -128 <= b <= 112 && b % 16 == 0
    ensures b == 16 * n || b == 16 * n - 256
  {
    if n < 8 then 16 * n else 16 * n - 256
  }

  /**
   * `(byte) (hi | lo)` with `hi = (byte) (toByte(c0) << 4)` and
   * `lo = toByte(c1)`: the low four bits of hi are zero, so the or adds lo.
   */
  function PairByte(c0: char, c1: char): Byte {
    ShiftedUp(ToByte(c0)) + ToByte(c1)
  }

  /** What `decode` produces from an even-length text: one byte per pair of characters. */
  function Decoded(s: string): (bs: seq<Byte>)
    requires |s| % 2 == 0
    ensures |bs| == |s| / 2
    decreases |s|
  {
    if s == [] then [] else Decoded(s[..|s| - 2]) + [PairByte(s[|s| - 2], s[|s| - 1])]
  }

  /** The outcome of `decode`: the bytes, or the index `charAt` was called with out of range. */
  datatype Outcome = Bytes(bytes: seq<Byte>) | IndexOutOfRange(index: int)

  /** The loop of `encode`, writing the two digits of every byte to the output in turn. */
  method Encode(bytes: array<Byte>) returns (out: string)
    ensures out == Encoded(bytes[..])
  {
    out := "";
    var i := 0;
    while i < bytes.Length
      invariant 0 <= i <= bytes.Length
      invariant out == Encoded(bytes[..i])
    {
      var b := bytes[i];
      HexTable(HighNibble(b));
      HexTable(LowNibble(b));
      out := out + (HEX[HighNibble(b)] + HEX[LowNibble(b)]);
      assert out == Encoded(bytes[..i]) + HexPair(b);
      assert bytes[..i + 1][..i] == bytes[..i];
      i := i + 1;
    }
    assert bytes[..i] == bytes[..];
  }

  /**
   * The loop of `decode`: for every pair of characters, one byte of a new
   * array of length / 2. With an odd length the last pair has no second
   * character, and `charAt` fails at index `length`.
   */
  method Decode(content: string) returns (r: Outcome)
    ensures r.Bytes? <==> |content| % 2 == 0
    ensures r.Bytes? ==> r.bytes == Decoded(content)
    ensures r.IndexOutOfRange? ==> r.index == |content|
  {
    var length := |content|;
    var bytes := new Byte[length / 2];
    var i, k := 0, -1;
    while i < length
      invariant i == 2 * (k + 1) && 0 <= i <= length
      invariant forall j :: 0 <= j <= k ==> bytes[j] == PairByte(content[2 * j], content[2 * j + 1])
    {
      if i + 1 >= length {
        return IndexOutOfRange(i + 1);
      }
      var v := DecodePair(content[i], content[i + 1]);
      k := k + 1;
      bytes[k] := v;
      i := i + 2;
    }
    DecodedAt(content);
    assert bytes[..] == Decoded(content);
    return Bytes(bytes[..]);
  }

  /** The body of the loop of `decode`: the byte of the characters c0 and c1. */
  method DecodePair(c0: char, c1: char) returns (v: Byte)
    ensures v == PairByte(c0, c1)
  {
    var hi := ShiftedUp(ToByte(c0));
    var lo := ToByte(c1);
    v := hi + lo;
  }

  /** Byte j of the decoding of s is the byte of characters 2j and 2j + 1. */
  lemma {:induction false} DecodedAt(s: string)
    requires |s| % 2 == 0
    ensures forall j :: 0 <= j < |s| / 2 ==> Decoded(s)[j] == PairByte(s[2 * j], s[2 * j + 1])
    decreases |s|
  {
    if s != [] {
      var t := s[..|s| - 2];
      DecodedAt(t);
      forall j | 0 <= j < |t| / 2 ensures Decoded(s)[j] == PairByte(s[2 * j], s[2 * j + 1]) {
        assert Decoded(s)[j] == Decoded(t)[j];
        assert t[2 * j] == s[2 * j] && t[2 * j + 1] == s[2 * j + 1];
      }
    }
  }

  /** Byte j of bs becomes characters 2j and 2j + 1 of its encoding, so every character is a hex digit. */
  lemma {:induction false} EncodedAt(bs: seq<Byte>)
    ensures forall j :: 0 <= j < |bs| ==> Encoded(bs)[2 * j..2 * j + 2] == HexPair(bs[j])
    ensures forall i :: 0 <= i < |Encoded(bs)| ==> IsHexDigit(Encoded(bs)[i])
    decreases |bs|
  {
    if bs != [] {
      var n := |bs| - 1;
      EncodedAt(bs[..n]);
      var s, t, p := Encoded(bs), Encoded(bs[..n]), HexPair(bs[n]);
      assert s == t + p;
      forall j | 0 <= j < n ensures s[2 * j..2 * j + 2] == HexPair(bs[j]) {
        assert bs[..n][j] == bs[j];
        PrefixSlice(t, p, 2 * j, 2 * j + 2);
      }
      assert s[2 * n..2 * n + 2] == p;
      forall i | 0 <= i < |s| ensures IsHexDigit(s[i]) {
        if i >= 2 * n {
          assert s[i] == p[i - 2 * n];
        } else {
          assert s[i] == t[i];
        }
      }
    }
  }

  /** A slice of t is a slice of t + p. */
  lemma PrefixSlice(t: string, p: string, i: int, k: int)
    requires 0 <= i <= k <= |t|
    ensures (t + p)[i..k] == t[i..k]
  {
    assert (t + p)[..|t|] == t;
    assert (t + p)[i..k] == (t + p)[..|t|][i..k];
  }

  /** `toByte(HEX[n].charAt(0)) == n` for every nibble value n. */
  lemma HexDigitValue(n: int)
    requires 0 <= n < 16
    ensures |HEX[n]| == 1 && IsHexDigit(HEX[n][0])
    ensures ToByte(HEX[n][0]) == n
  {
    HexTable(n);
    HexCharValue(n);
  }

  /** A byte is its high nibble shifted up, cast to a byte, plus its low nibble. */
  lemma NibblesJoin(b: Byte)
    ensures ShiftedUp(HighNibble(b)) + LowNibble(b) == b
  {
  }

  /** Decoding the two digits of a byte gives the byte back, the negative ones included. */
  lemma PairRoundTrip(b: Byte)
    ensures PairByte(HexPair(b)[0], HexPair(b)[1]) == b
  {
    HexPairValue(b);
    NibblesJoin(b);
  }

  /** Decoding a text followed by one more pair appends that pair's byte. */
  lemma DecodedSnoc(t: string, p: string)
    requires |t| % 2 == 0 && |p| == 2
    ensures Decoded(t + p) == Decoded(t) + [PairByte(p[0], p[1])]
  {
    var s := t + p;
    assert s[..|s| - 2] == t;
    assert s[|s| - 2] == p[0] && s[|s| - 1] == p[1];
  }

  /** `decode(encode(bs)) == bs` for every byte sequence. */
  lemma {:induction false} RoundTrip(bs: seq<Byte>)
    ensures |Encoded(bs)| % 2 == 0 && Decoded(Encoded(bs)) == bs
    decreases |bs|
  {
    if bs != [] {
      var n := |bs| - 1;
      assert bs == bs[..n] + [bs[n]];
      var t, p := Encoded(bs[..n]), HexPair(bs[n]);
      assert Encoded(bs) == t + p;
      DecodedSnoc(t, p);
      RoundTrip(bs[..n]);
      PairRoundTrip(bs[n]);
    }
  }
}
