/**
 * The JavaScript text primitives the two core files lean on: `Number.prototype.toString(16)`,
 * `padStart`, `slice(-2)`, `parseInt(c, 16)` for one character, `Array.prototype.join` and
 * `String.prototype.trim`, together with a parser for hex text that serves as their inverse.
 */
module Text {
  import opened Wrappers
  import opened Bytes

  /** The characters `toString(16)` writes: 0-9 and lowercase a-f. */
  predicate IsHexDigit(c: char) {
    '0' <= c <= '9' || 'a' <= c <= 'f'
  }

  /** The lowercase hex digit for a value below 16, as `toString(16)` writes it. */
  function Digit(n: nat): (c: char)
    requires n < 16
    ensures IsHexDigit(c)
  {
    if n < 10 then ('0' as int + n) as char else ('a' as int + n - 10) as char
  }

  /** `parseInt(c, 16)` for a one-character string `c`: a digit of either case, or NaN (None). */
  function DigitValue(c: char): (v: Option<nat>)
    ensures v.Some? <==> ('0' <= c <= '9' || 'a' <= c <= 'f' || 'A' <= c <= 'F')
    ensures v.Some? ==> v.value < 16
  {
    if '0' <= c <= '9' then Some(c as nat - '0' as nat)
    else if 'a' <= c <= 'f' then Some(c as nat - 'a' as nat + 10)
    else if 'A' <= c <= 'F' then Some(c as nat - 'A' as nat + 10)
    else None
  }

  lemma DigitRoundTrip(n: nat)
    requires n < 16
    ensures DigitValue(Digit(n)) == Some(n)
  {
  }

  /** `n.toString(16)`: the shortest lowercase hex numeral of `n`. */
  function Radix16(n: nat): (s: string)
    ensures 1 <= |s|
    decreases n
  {
    if n < 16 then [Digit(n)] else Radix16(n / 16) + [Digit(n % 16)]
  }

  /** `s.padStart(2, '0')`. */
  function PadStart2(s: string): string {
    if |s| >= 2 then s else seq(2 - |s|, _ => '0') + s
  }

  /** `s.slice(-2)`: the last two characters, or all of a shorter string. */
  function LastTwo(s: string): string {
    if |s| >= 2 then s[|s| - 2..] else s
  }

  /** Two hex digits read as one byte, high digit first. */
  function ParseHexByte(s: string): (r: Option<Byte>)
    requires |s| == 2
  {
    match (DigitValue(s[0]), DigitValue(s[1]))
    case (Some(hi), Some(lo)) => Some((hi * 16 + lo) as Byte)
    case _ => None
  }

  /** A byte as exactly two lowercase hex digits, high digit first. */
  function HexByte(b: Byte): (s: string)
    ensures |s| == 2
  {
    [Digit(b as nat / 16), Digit(b as nat % 16)]
  }

  /** Reading the two digits back gives the byte. */
  lemma HexByteRoundTrip(b: Byte)
    ensures ParseHexByte(HexByte(b)) == Some(b)
    ensures IsHexDigit(HexByte(b)[0]) && IsHexDigit(HexByte(b)[1])
  {
    DigitRoundTrip(b as nat / 16);
    DigitRoundTrip(b as nat % 16);
  }

  /** `b.toString(16).padStart(2, '0')` is the two-digit form of a byte. */
  lemma PaddedRadixIsHexByte(b: Byte)
    ensures PadStart2(Radix16(b as nat)) == HexByte(b)
  {
    var n := b as nat;
    if n >= 16 {
      assert n / 16 < 16;
      assert Radix16(n) == [Digit(n / 16), Digit(n % 16)];
    }
  }

  /** The two-digit form of the low byte of `n` is made of the two lowest hex digits of `n`. */
  lemma LowByteDigits(n: nat)
    ensures HexByte((n % 256) as Byte) == [Digit((n / 16) % 16), Digit(n % 16)]
  {
    var q, low := n / 256, n % 256;
    assert n == 256 * q + low;
    assert n / 16 == 16 * q + low / 16;
    assert low / 16 == (n / 16) % 16 && low % 16 == n % 16;
  }

  /** The last digit `toString(16)` writes is the lowest hex digit. */
  lemma RadixLastDigit(n: nat)
    ensures var s := Radix16(n); s[|s| - 1] == Digit(n % 16)
  {
  }

  lemma LastTwoOfSnoc(prefix: string, c: char)
    requires |prefix| >= 1
    ensures LastTwo(prefix + [c]) == [prefix[|prefix| - 1], c]
  {
    var r := prefix + [c];
    assert r[|r| - 2..] == [r[|r| - 2], r[|r| - 1]];
  }

  /** The last two characters of `'0' + n.toString(16)` are the two lowest hex digits of `n`. */
  lemma LastTwoDigits(n: nat)
    ensures LastTwo("0" + Radix16(n)) == [Digit((n / 16) % 16), Digit(n % 16)]
  {
    if n >= 16 {
      var high, low := Radix16(n / 16), Digit(n % 16);
      RadixLastDigit(n / 16);
      var prefix := "0" + high;
      assert "0" + Radix16(n) == prefix + [low];
      assert prefix[|prefix| - 1] == high[|high| - 1];
      LastTwoOfSnoc(prefix, low);
    } else {
      assert "0" + Radix16(n) == ['0', Digit(n)];
      assert (n / 16) % 16 == 0 && n % 16 == n;
      assert Digit(0) == '0';
    }
  }

  /** `('0' + n.toString(16)).slice(-2)` keeps the last two hex digits: the low byte of `n`. */
  lemma LastTwoRadixIsLowByte(n: nat)
    ensures LastTwo("0" + Radix16(n)) == HexByte((n % 256) as Byte)
  {
    LastTwoDigits(n);
    LowByteDigits(n);
  }

  /** `parts.join(delim)`. */
  function Join(parts: seq<string>, delim: string): string {
    if |parts| == 0 then ""
    else if |parts| == 1 then parts[0]
    else parts[0] + delim + Join(parts[1..], delim)
  }

  /** The length of `n` two-digit fields joined by a delimiter of length `d`. */
  function JoinedLength(n: nat, d: nat): nat {
    if n == 0 then 0 else 2 * n + (n - 1) * d
  }

  /** Bytes as two-digit lowercase hex fields joined by `delim`. */
  function HexJoin(bs: seq<Byte>, delim: string): string
    decreases |bs|
  {
    if |bs| == 0 then ""
    else if |bs| == 1 then HexByte(bs[0])
    else HexByte(bs[0]) + delim + HexJoin(bs[1..], delim)
  }

  /** A rendering of `n` bytes has `2n + (n - 1) * |delim|` characters. */
  lemma {:induction false} HexJoinLength(bs: seq<Byte>, delim: string)
    ensures |HexJoin(bs, delim)| == JoinedLength(|bs|, |delim|)
    decreases |bs|
  {
    if |bs| > 1 {
      HexJoinLength(bs[1..], delim);
      var n, d := |bs|, |delim|;
      assert (n - 1) * d == (n - 2) * d + d;
    }
  }

  /** One field per byte, the form `Join` expects. */
  function HexParts(bs: seq<Byte>): (parts: seq<string>)
    ensures |parts| == |bs|
  {
    seq(|bs|, i requires 0 <= i < |bs| => HexByte(bs[i]))
  }

  lemma {:induction false} JoinHexParts(bs: seq<Byte>, delim: string)
    ensures Join(HexParts(bs), delim) == HexJoin(bs, delim)
    decreases |bs|
  {
    if |bs| >= 2 {
      assert HexParts(bs)[1..] == HexParts(bs[1..]);
      JoinHexParts(bs[1..], delim);
    }
  }

  /** Where field `i` of a joined rendering starts, for fields of width `w` including the delimiter: `i * w`. */
  function FieldStart(i: nat, w: nat): nat {
    if i == 0 then 0 else FieldStart(i - 1, w) + w
  }

  /** Field `i` of a joined rendering is the two digits of byte `i`, and the delimiter follows it unless it is the last. */
  lemma {:induction false} HexJoinAt(bs: seq<Byte>, delim: string, i: nat)
    requires i < |bs|
    ensures var r, o := HexJoin(bs, delim), FieldStart(i, 2 + |delim|);
            o + 2 <= |r| &&
            r[o..o + 2] == HexByte(bs[i]) &&
            (i + 1 < |bs| ==> o + 2 + |delim| <= |r| && r[o + 2..o + 2 + |delim|] == delim)
    decreases |bs|
  {
    var r, w := HexJoin(bs, delim), 2 + |delim|;
    if |bs| >= 2 {
      var head, tail := HexByte(bs[0]) + delim, HexJoin(bs[1..], delim);
      assert r == head + tail && |head| == w;
      if i > 0 {
        HexJoinAt(bs[1..], delim, i - 1);
        var a := FieldStart(i - 1, w);
        assert FieldStart(i, w) == w + a;
        SliceOfSuffix(head, tail, a, a + 2);
        if i + 1 < |bs| {
          SliceOfSuffix(head, tail, a + 2, a + w);
        }
      } else {
        assert r[2..w] == head[2..w] == delim;
      }
    }
  }

  lemma SliceOfSuffix(x: string, y: string, k: nat, m: nat)
    requires k <= m <= |y|
    ensures (x + y)[|x| + k..|x| + m] == y[k..m]
  {
  }

  /** Appending a byte appends a delimiter and its field. */
  lemma {:induction false} HexJoinSnoc(bs: seq<Byte>, b: Byte, delim: string)
    requires |bs| > 0
    ensures HexJoin(bs + [b], delim) == HexJoin(bs, delim) + delim + HexByte(b)
    decreases |bs|
  {
    if |bs| > 1 {
      TailOfSnoc(bs, b);
      HexJoinSnoc(bs[1..], b, delim);
    }
  }

  /** A hex rendering never starts or ends with anything but a hex digit. */
  lemma {:induction false} HexJoinEnds(bs: seq<Byte>, delim: string)
    requires |bs| > 0
    ensures var r := HexJoin(bs, delim);
            IsHexDigit(r[0]) && IsHexDigit(r[|r| - 1])
    decreases |bs|
  {
    HexByteRoundTrip(bs[0]);
    HexByteRoundTrip(bs[|bs| - 1]);
    if |bs| > 1 {
      HexJoinEnds(bs[1..], delim);
    }
  }

  /** Reads back `delim`-separated two-digit fields; None on anything else. */
  function ParseHexJoin(s: string, delim: string): Option<seq<Byte>>
    decreases |s|
  {
    if |s| == 0 then Some([])
    else if |s| < 2 then None
    else match ParseHexByte(s[..2])
      case None => None
      case Some(b) =>
        if |s| == 2 then Some([b])
        else if |s| <= 2 + |delim| || s[2..2 + |delim|] != delim then None
        else match ParseHexJoin(s[2 + |delim|..], delim)
          case None => None
          case Some(rest) => Some([b] + rest)
  }

  /** Parsing a joined rendering gives back exactly the bytes rendered. */
  lemma {:induction false} ParseHexJoinRoundTrip(bs: seq<Byte>, delim: string)
    ensures ParseHexJoin(HexJoin(bs, delim), delim) == Some(bs)
    decreases |bs|
  {
    var s := HexJoin(bs, delim);
    if |bs| > 0 {
      HexByteRoundTrip(bs[0]);
    }
    if |bs| == 1 {
      assert s == HexByte(bs[0]) && s[..2] == s;
      assert ParseHexByte(s[..2]) == Some(bs[0]);
      assert [bs[0]] == bs;
    } else if |bs| > 1 {
      var tail := HexJoin(bs[1..], delim);
      assert s == HexByte(bs[0]) + delim + tail;
      assert s[..2] == HexByte(bs[0]);
      assert s[2..2 + |delim|] == delim;
      assert s[2 + |delim|..] == tail;
      ParseHexJoinRoundTrip(bs[1..], delim);
      assert [bs[0]] + bs[1..] == bs;
    }
  }

  /** The characters `String.prototype.trim` removes: WhiteSpace and LineTerminator of ECMAScript. */
  predicate IsWhitespace(c: char) {
    var n := c as int;
    n == 0x20 || 0x09 <= n <= 0x0D || n == 0xA0 || n == 0x1680 || 0x2000 <= n <= 0x200A ||
    n == 0x2028 || n == 0x2029 || n == 0x202F || n == 0x205F || n == 0x3000 || n == 0xFEFF
  }

  function TrimStart(s: string): string
    decreases |s|
  {
    if |s| > 0 && IsWhitespace(s[0]) then TrimStart(s[1..]) else s
  }

  function TrimEnd(s: string): string
    decreases |s|
  {
    if |s| > 0 && IsWhitespace(s[|s| - 1]) then TrimEnd(s[..|s| - 1]) else s
  }

  /** `s.trim()`. */
  function Trim(s: string): string {
    TrimStart(TrimEnd(s))
  }

  /** Trimming a string with no whitespace at either end, followed by one trailing space, gives the string. */
  lemma TrimTrailingSpace(s: string)
    requires s == [] || (!IsWhitespace(s[0]) && !IsWhitespace(s[|s| - 1]))
    ensures Trim(s + " ") == s && Trim(s) == s
  {
    var t := s + " ";
    assert t[..|t| - 1] == s;
    assert TrimEnd(t) == TrimEnd(s) == s;
    assert TrimStart(s) == s;
  }
}
