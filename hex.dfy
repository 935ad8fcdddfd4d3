module Wrappers {
  datatype Option<T> = None | Some(value: T)
}

/** Hexadecimal text as the tools produce it: `hex(n)[2:]` (lowercase digits, no
    leading zero), the two-digit byte format `{:02x}`, and the packing of two 4-bit
    colours into a byte as `(left << 4) | right`. */
module Hex {
  import opened Wrappers
  import opened Palette

  const HexChars: string := "0123456789abcdef"

  /** The numeric value of one lowercase hexadecimal digit. */
  function DigitValue(ch: char): Option<Colour> {
    if '0' <= ch <= '9' then Some(ch as int - '0' as int)
    else if 'a' <= ch <= 'f' then Some(ch as int - 'a' as int + 10)
    else None
  }

  /** The single lowercase digit that stands for a colour. */
  function HexDigit(d: Colour): (ch: char)
    ensures DigitValue(ch) == Some(d)
  {
    HexChars[d]
  }

  /** Different colours have different digits. */
  lemma HexDigitInjective(a: Colour, b: Colour)
    requires HexDigit(a) == HexDigit(b)
    ensures a == b
  {
    assert DigitValue(HexDigit(a)) == Some(a);
  }

  /** `hex(n)[2:]`: the lowercase hexadecimal digits of `n`, most significant first. */
  function HexDigits(n: nat): (s: string)
    ensures |s| >= 1
    ensures |s| == 1 <==> n < 16
    decreases n
  {
    if n < 16 then [HexDigit(n)] else HexDigits(n / 16) + [HexDigit(n % 16)]
  }

  /** Reads a string of lowercase hexadecimal digits back as a number. */
  function HexValue(s: string): Option<nat>
    decreases |s|
  {
    if s == [] then Some(0)
    else
      var prefix, last := HexValue(s[..|s| - 1]), DigitValue(s[|s| - 1]);
      if prefix.Some? && last.Some? then Some(16 * prefix.value + last.value) else None
  }

  /** Reading one more digit multiplies what was read so far by 16 and adds the digit. */
  lemma HexValueSnoc(p: string, d: Colour)
    requires HexValue(p).Some?
    ensures HexValue(p + [HexDigit(d)]) == Some(16 * HexValue(p).value + d)
  {
    assert (p + [HexDigit(d)])[..|p|] == p;
  }

  /** `hex(n)[2:]` can be read back: reading its digits gives `n` again. */
  lemma {:induction false} HexDigitsRoundTrip(n: nat)
    ensures HexValue(HexDigits(n)) == Some(n)
    decreases n
  {
    if n < 16 {
      HexValueSnoc([], n);
      assert [] + [HexDigit(n)] == HexDigits(n);
    } else {
      HexDigitsRoundTrip(n / 16);
      HexValueSnoc(HexDigits(n / 16), n % 16);
    }
  }

  /** `hex(n)[2:]` has no leading zero, except for `n == 0` itself. */
  lemma {:induction false} HexDigitsNoLeadingZero(n: nat)
    ensures HexDigits(n)[0] == '0' <==> n == 0
    decreases n
  {
    if n >= 16 {
      HexDigitsNoLeadingZero(n / 16);
    }
  }

  /** `f"{b:02x}"`: the hexadecimal digits of `b`, padded on the left with '0' to two characters. */
  function Hex2(b: nat): (s: string)
    ensures |s| >= 2
    ensures b < 256 ==> |s| == 2
  {
    var s := HexDigits(b);
    if |s| < 2 then "0" + s else s
  }

  /** Python's `|` on non-negative integers, one bit at a time from the least significant.
      The result has every bit of either operand, so it is at least each of them, and at
      most their sum (equal when no bit is set in both). */
  function BitOr(a: nat, b: nat): (r: nat)
    ensures a <= r && b <= r && r <= a + b
    decreases a + b
  {
    if a == 0 then b
    else if b == 0 then a
    else 2 * BitOr(a / 2, b / 2) + (if a % 2 == 1 || b % 2 == 1 then 1 else 0)
  }

  /** Or-ing into an even number: the lowest bit comes from `r` alone. */
  lemma BitOrEven(m: nat, r: nat)
    ensures BitOr(2 * m, r) == 2 * BitOr(m, r / 2) + r % 2
  {
  }

  /** `(left << 4) | right` for two colours: `left << 4` is `16 * left`, and the `|`
      only fills in the four low bits, which are zero. */
  function PackByte(left: Colour, right: Colour): (b: nat)
    ensures b == 16 * left + right
  {
    PackByteIsSum(left, right);
    BitOr(16 * left, right)
  }

  function Pow2(k: nat): (p: nat)
    ensures p >= 1
  {
    if k == 0 then 1 else 2 * Pow2(k - 1)
  }

  /** Or-ing a number below 2^k into a multiple of 2^k is addition: the bits do not meet. */
  lemma {:induction false} BitOrDisjoint(m: nat, r: nat, k: nat)
    requires r < Pow2(k)
    ensures BitOr(m * Pow2(k), r) == m * Pow2(k) + r
  {
    if k > 0 {
      var p := Pow2(k - 1);
      assert m * Pow2(k) == 2 * (m * p);
      BitOrEven(m * p, r);
      BitOrDisjoint(m, r / 2, k - 1);
    }
  }

  lemma PackByteIsSum(left: Colour, right: Colour)
    ensures BitOr(16 * left, right) == 16 * left + right
  {
    assert Pow2(4) == 16;
    BitOrDisjoint(left, right, 4);
  }

  /** The colours in the high and in the low four bits of a byte (`b >> 4`, `b & 15`). */
  function UnpackByte(b: nat): (pair: (Colour, Colour))
    requires b < 256
    ensures b == 16 * pair.0 + pair.1
  {
    (b / 16, b % 16)
  }

  /** Packing two colours into a byte and unpacking it gives the two colours back. */
  lemma PackRoundTrip(left: Colour, right: Colour)
    ensures UnpackByte(PackByte(left, right)) == (left, right)
  {
  }

  /** The two-digit form of a packed byte is the left colour's digit followed by the right one's. */
  lemma Hex2OfPacked(left: Colour, right: Colour)
    ensures Hex2(PackByte(left, right)) == [HexDigit(left), HexDigit(right)]
  {
    var b := PackByte(left, right);
    if left == 0 {
      assert HexDigits(b) == [HexDigit(right)];
      assert HexDigit(0) == '0';
    } else {
      assert b / 16 == left && b % 16 == right;
      assert HexDigits(b) == HexDigits(left) + [HexDigit(right)];
    }
  }

  /** Reads a two-digit byte back as the pair of colours it packs. */
  function DecodeByte(s: string): Option<(Colour, Colour)>
    requires |s| == 2
  {
    match (DigitValue(s[0]), DigitValue(s[1]))
    case (Some(hi), Some(lo)) => Some(UnpackByte(16 * hi + lo))
    case _ => None
  }

  /** Decoding the two digits written for a packed byte recovers the (left, right) pair. */
  lemma PackedByteDecodes(left: Colour, right: Colour)
    ensures DecodeByte(Hex2(PackByte(left, right))) == Some((left, right))
  {
    Hex2OfPacked(left, right);
    DecodeDigitPair(left, right);
  }

  lemma DecodeDigitPair(left: Colour, right: Colour)
    ensures DecodeByte([HexDigit(left), HexDigit(right)]) == Some((left, right))
  {
    var p := UnpackByte(16 * left + right);
    assert p == (left, right);
  }

  /** Reads a string of single-digit colours back as a row of colours. */
  function DecodeDigits(s: string): Option<seq<Colour>>
    decreases |s|
  {
    if s == [] then Some([])
    else
      match (DigitValue(s[0]), DecodeDigits(s[1..]))
      case (Some(d), Some(rest)) => Some([d] + rest)
      case _ => None
  }

  /** A string holding one digit per colour of a row decodes back to that row. */
  lemma {:induction false} DecodeDigitsOf(row: seq<Colour>, s: string)
    requires |s| == |row|
    requires forall j :: 0 <= j < |row| ==> s[j] == HexDigit(row[j])
    ensures DecodeDigits(s) == Some(row)
    decreases |s|
  {
    if s != [] {
      DecodeDigitsOf(row[1..], s[1..]);
      assert [row[0]] + row[1..] == row;
    }
  }

  // Text of rows

  /** A row of colours written one lowercase digit per colour, each as `hex(color)[2:]`
      writes it. */
  function HexLine(row: seq<Colour>): (line: string)
    ensures |line| == |row|
    ensures forall j :: 0 <= j < |row| ==> line[j] == HexDigit(row[j])
  {
    if row == [] then "" else HexDigits(row[0]) + HexLine(row[1..])
  }

  /** A hex line reads back as the row it was written from. */
  lemma HexLineDecodes(row: seq<Colour>)
    ensures DecodeDigits(HexLine(row)) == Some(row)
  {
    DecodeDigitsOf(row, HexLine(row));
  }

  /** Different rows give different hex lines. */
  lemma HexLineInjective(a: seq<Colour>, b: seq<Colour>)
    requires HexLine(a) == HexLine(b)
    ensures a == b
  {
    HexLineDecodes(a);
    HexLineDecodes(b);
  }

  /** `''.join(cells)` */
  function Concat(cells: seq<string>): string {
    if cells == [] then "" else cells[0] + Concat(cells[1..])
  }

  /** Joining cells of `n` characters each gives `n` characters per cell. */
  lemma {:induction false} ConcatLength(cells: seq<string>, n: nat)
    requires forall i :: 0 <= i < |cells| ==> |cells[i]| == n
    ensures |Concat(cells)| == n * |cells|
    decreases |cells|
  {
    if cells != [] {
      ConcatLength(cells[1..], n);
    }
  }

  /** Character j of cell i sits at position n * i + j of the joined line. */
  lemma {:induction false} ConcatAt(cells: seq<string>, n: nat, i: nat, j: nat)
    requires forall k :: 0 <= k < |cells| ==> |cells[k]| == n
    requires i < |cells| && j < n
    ensures n * i + j < |Concat(cells)| && Concat(cells)[n * i + j] == cells[i][j]
    decreases |cells|
  {
    ConcatLength(cells, n);
    if i > 0 {
      ConcatAt(cells[1..], n, i - 1, j);
      ConcatLength(cells[1..], n);
      assert n * i + j == n + (n * (i - 1) + j);
    }
  }

  /** Joining one more cell appends it. */
  lemma {:induction false} ConcatSnoc(cells: seq<string>, last: string)
    ensures Concat(cells + [last]) == Concat(cells) + last
    decreases |cells|
  {
    if cells == [] {
      assert [] + [last] == [last];
    } else {
      assert (cells + [last])[1..] == cells[1..] + [last];
      ConcatSnoc(cells[1..], last);
    }
  }
}
