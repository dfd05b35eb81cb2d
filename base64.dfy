/**
 * Base64 in the standard alphabet of section 4 of RFC 4648, on PHP byte
 * strings (strings whose characters are all below 256). The decoder is
 * strict: the length is a multiple of four, `=` padding may only end the
 * final quantum, and the bits that padding leaves over must be zero
 * (section 3.5 of RFC 4648), so decoding accepts exactly what encoding
 * produces.
 *
 * The codec is built in two layers: characters and the codes they stand
 * for (a sextet, or padding), and the arithmetic between codes and byte
 * values. Each step of that arithmetic is a small lemma on integers, so
 * the lemmas about sequences only ever combine named values.
 */
module Base64 {
  import opened Wrappers

  /** What a base64 character stands for: six bits, or the padding `=`. */
  datatype Code = Pad | Sextet(bits: int)

  predicate IsCode(c: Code) { c.Sextet? ==> 0 <= c.bits < 64 }

  predicate IsByte(c: char) { c as int < 256 }

  predicate IsByteString(s: string) { forall i :: 0 <= i < |s| ==> IsByte(s[i]) }

  predicate IsByteValues(bs: seq<int>) { forall i :: 0 <= i < |bs| ==> 0 <= bs[i] < 256 }

  predicate IsCodes(cs: seq<Code>) { forall i :: 0 <= i < |cs| ==> IsCode(cs[i]) }

  // ---------------------------------------------------------------------
  // Codes and byte values

  /** The codes of a sequence of byte values, padded to whole quanta. */
  function EncodeBytes(bs: seq<int>): (cs: seq<Code>)
    requires IsByteValues(bs)
    ensures IsCodes(cs)
    decreases |bs|
  {
    if |bs| == 0 then []
    else if |bs| == 1 then [Sextet(bs[0] / 4), Sextet(bs[0] % 4 * 16), Pad, Pad]
    else if |bs| == 2 then [Sextet(bs[0] / 4), Sextet(bs[0] % 4 * 16 + bs[1] / 16), Sextet(bs[1] % 16 * 4), Pad]
    else SplitQuantum(bs[0], bs[1], bs[2]) + EncodeBytes(bs[3..])
  }

  /** Three byte values as four codes. */
  function SplitQuantum(x0: int, x1: int, x2: int): seq<Code>
  {
    [Sextet(x0 / 4), Sextet(x0 % 4 * 16 + x1 / 16), Sextet(x1 % 16 * 4 + x2 / 64), Sextet(x2 % 64)]
  }

  /** Four sextets as three byte values. */
  function JoinQuantum(a: int, b: int, c: int, d: int): seq<int>
  {
    [a * 4 + b / 16, b % 16 * 16 + c / 4, c % 4 * 64 + d]
  }

  /** The final quantum: full, or padded to one or two bytes with zero left-over bits. */
  function DecodeFinal(a: Code, b: Code, c: Code, d: Code): Option<seq<int>>
  {
    if a.Pad? || b.Pad? then None
    else if c.Pad? then
      if d.Pad? && b.bits % 16 == 0 then Some([a.bits * 4 + b.bits / 16]) else None
    else if d.Pad? then
      if c.bits % 4 == 0 then Some([a.bits * 4 + b.bits / 16, b.bits % 16 * 16 + c.bits / 4]) else None
    else Some(JoinQuantum(a.bits, b.bits, c.bits, d.bits))
  }

  /** The byte values that a sequence of codes stands for, if it is well formed. */
  function DecodeCodes(cs: seq<Code>): (r: Option<seq<int>>)
    decreases |cs|
  {
    if |cs| == 0 then Some([])
    else if |cs| < 4 then None
    else if |cs| == 4 then DecodeFinal(cs[0], cs[1], cs[2], cs[3])
    else if cs[0].Pad? || cs[1].Pad? || cs[2].Pad? || cs[3].Pad? then None
    else
      match DecodeCodes(cs[4..])
      case None => None
      case Some(rest) => Some(JoinQuantum(cs[0].bits, cs[1].bits, cs[2].bits, cs[3].bits) + rest)
  }

  // Arithmetic of one quantum, on integers only.

  lemma SplitJoinArith(x0: int, x1: int, x2: int)
    requires 0 <= x0 < 256 && 0 <= x1 < 256 && 0 <= x2 < 256
    ensures 0 <= x0 / 4 < 64 && 0 <= x0 % 4 * 16 + x1 / 16 < 64
    ensures 0 <= x1 % 16 * 4 + x2 / 64 < 64 && 0 <= x2 % 64 < 64
    ensures x0 / 4 * 4 + (x0 % 4 * 16 + x1 / 16) / 16 == x0
    ensures (x0 % 4 * 16 + x1 / 16) % 16 * 16 + (x1 % 16 * 4 + x2 / 64) / 4 == x1
    ensures (x1 % 16 * 4 + x2 / 64) % 4 * 64 + x2 % 64 == x2
  {
  }

  lemma OneByteSplitArith(x0: int)
    requires 0 <= x0 < 256
    ensures 0 <= x0 / 4 < 64 && 0 <= x0 % 4 * 16 < 64 && x0 % 4 * 16 % 16 == 0
    ensures x0 / 4 * 4 + x0 % 4 * 16 / 16 == x0
  {
  }

  lemma TwoBytesSplitArith(x0: int, x1: int)
    requires 0 <= x0 < 256 && 0 <= x1 < 256
    ensures 0 <= x0 / 4 < 64 && 0 <= x0 % 4 * 16 + x1 / 16 < 64 && 0 <= x1 % 16 * 4 < 64
    ensures x1 % 16 * 4 % 4 == 0
    ensures x0 / 4 * 4 + (x0 % 4 * 16 + x1 / 16) / 16 == x0
    ensures (x0 % 4 * 16 + x1 / 16) % 16 * 16 + x1 % 16 * 4 / 4 == x1
  {
  }

  lemma JoinSplitArith(a: int, b: int, c: int, d: int)
    requires 0 <= a < 64 && 0 <= b < 64 && 0 <= c < 64 && 0 <= d < 64
    ensures 0 <= a * 4 + b / 16 < 256 && 0 <= b % 16 * 16 + c / 4 < 256 && 0 <= c % 4 * 64 + d < 256
    ensures (a * 4 + b / 16) / 4 == a
    ensures (a * 4 + b / 16) % 4 * 16 + (b % 16 * 16 + c / 4) / 16 == b
    ensures (b % 16 * 16 + c / 4) % 16 * 4 + (c % 4 * 64 + d) / 64 == c
    ensures (c % 4 * 64 + d) % 64 == d
  {
  }

  lemma OneByteJoinArith(a: int, b: int)
    requires 0 <= a < 64 && 0 <= b < 64 && b % 16 == 0
    ensures var x := a * 4 + b / 16; 0 <= x < 256 && x / 4 == a && x % 4 * 16 == b
  {
  }

  lemma TwoBytesJoinArith(a: int, b: int, c: int)
    requires 0 <= a < 64 && 0 <= b < 64 && 0 <= c < 64 && c % 4 == 0
    ensures var x0, x1 := a * 4 + b / 16, b % 16 * 16 + c / 4;
      && 0 <= x0 < 256 && 0 <= x1 < 256
      && x0 / 4 == a && x0 % 4 * 16 + x1 / 16 == b && x1 % 16 * 4 == c
  {
  }

  // The codec functions on named byte values and sextets.

  lemma SplitQuantumOf(x0: int, x1: int, x2: int, a: int, b: int, c: int, d: int)
    requires x0 / 4 == a && x0 % 4 * 16 + x1 / 16 == b && x1 % 16 * 4 + x2 / 64 == c && x2 % 64 == d
    ensures SplitQuantum(x0, x1, x2) == [Sextet(a), Sextet(b), Sextet(c), Sextet(d)]
  {
  }

  lemma JoinQuantumOf(a: int, b: int, c: int, d: int, x0: int, x1: int, x2: int)
    requires a * 4 + b / 16 == x0 && b % 16 * 16 + c / 4 == x1 && c % 4 * 64 + d == x2
    ensures JoinQuantum(a, b, c, d) == [x0, x1, x2]
  {
  }

  lemma DecodeFinalOne(a: int, b: int, x0: int)
    requires b % 16 == 0 && a * 4 + b / 16 == x0
    ensures DecodeFinal(Sextet(a), Sextet(b), Pad, Pad) == Some([x0])
  {
  }

  lemma DecodeFinalTwo(a: int, b: int, c: int, x0: int, x1: int)
    requires c % 4 == 0 && a * 4 + b / 16 == x0 && b % 16 * 16 + c / 4 == x1
    ensures DecodeFinal(Sextet(a), Sextet(b), Sextet(c), Pad) == Some([x0, x1])
  {
  }

  lemma EncodeOneOf(x0: int, a: int, b: int)
    requires 0 <= x0 < 256 && x0 / 4 == a && x0 % 4 * 16 == b
    ensures EncodeBytes([x0]) == [Sextet(a), Sextet(b), Pad, Pad]
  {
  }

  lemma EncodeTwoOf(x0: int, x1: int, a: int, b: int, c: int)
    requires 0 <= x0 < 256 && 0 <= x1 < 256
    requires x0 / 4 == a && x0 % 4 * 16 + x1 / 16 == b && x1 % 16 * 4 == c
    ensures EncodeBytes([x0, x1]) == [Sextet(a), Sextet(b), Sextet(c), Pad]
  {
  }

  lemma EncodeThree(x0: int, x1: int, x2: int)
    requires 0 <= x0 < 256 && 0 <= x1 < 256 && 0 <= x2 < 256
    ensures EncodeBytes([x0, x1, x2]) == SplitQuantum(x0, x1, x2)
  {
    assert [x0, x1, x2][3..] == [];
  }

  /** Encoding three byte values in front of more gives their four codes in front. */
  lemma EncodeCons(x0: int, x1: int, x2: int, rest: seq<int>)
    requires 0 <= x0 < 256 && 0 <= x1 < 256 && 0 <= x2 < 256 && IsByteValues(rest)
    ensures IsByteValues([x0, x1, x2] + rest)
    ensures EncodeBytes([x0, x1, x2] + rest) == SplitQuantum(x0, x1, x2) + EncodeBytes(rest)
  {
    assert ([x0, x1, x2] + rest)[3..] == rest;
  }

  /** Four codes decode as the final quantum. */
  lemma DecodeCodesFinal(q: seq<Code>)
    requires |q| == 4
    ensures DecodeCodes(q) == DecodeFinal(q[0], q[1], q[2], q[3])
  {
  }

  /** An unpadded quantum in front of well-formed codes decodes to three bytes in front. */
  lemma DecodeCodesCons(q: seq<Code>, rest: seq<Code>, r: seq<int>)
    requires |q| == 4 && q[0].Sextet? && q[1].Sextet? && q[2].Sextet? && q[3].Sextet?
    requires DecodeCodes(rest) == Some(r)
    ensures DecodeCodes(q + rest) == Some(JoinQuantum(q[0].bits, q[1].bits, q[2].bits, q[3].bits) + r)
  {
    var cs := q + rest;
    assert cs[..4] == q && cs[4..] == rest;
    if |rest| == 0 {
      assert r == [];
      assert JoinQuantum(q[0].bits, q[1].bits, q[2].bits, q[3].bits) + r
          == JoinQuantum(q[0].bits, q[1].bits, q[2].bits, q[3].bits);
    }
  }

  // Decoding undoes encoding.

  lemma DecodeEncodeOne(x0: int)
    requires 0 <= x0 < 256
    ensures DecodeCodes(EncodeBytes([x0])) == Some([x0])
  {
    var a, b := x0 / 4, x0 % 4 * 16;
    OneByteSplitArith(x0);
    EncodeOneOf(x0, a, b);
    DecodeFinalOne(a, b, x0);
    DecodeCodesFinal([Sextet(a), Sextet(b), Pad, Pad]);
  }

  lemma DecodeEncodeTwo(x0: int, x1: int)
    requires 0 <= x0 < 256 && 0 <= x1 < 256
    ensures DecodeCodes(EncodeBytes([x0, x1])) == Some([x0, x1])
  {
    var a, b, c := x0 / 4, x0 % 4 * 16 + x1 / 16, x1 % 16 * 4;
    TwoBytesSplitArith(x0, x1);
    EncodeTwoOf(x0, x1, a, b, c);
    DecodeFinalTwo(a, b, c, x0, x1);
    DecodeCodesFinal([Sextet(a), Sextet(b), Sextet(c), Pad]);
  }

  /** Three bytes in front of codes that decode. */
  lemma DecodeEncodeQuantum(x0: int, x1: int, x2: int, rest: seq<Code>, r: seq<int>)
    requires 0 <= x0 < 256 && 0 <= x1 < 256 && 0 <= x2 < 256
    requires DecodeCodes(rest) == Some(r)
    ensures DecodeCodes(SplitQuantum(x0, x1, x2) + rest) == Some([x0, x1, x2] + r)
  {
    var a, b, c, d := x0 / 4, x0 % 4 * 16 + x1 / 16, x1 % 16 * 4 + x2 / 64, x2 % 64;
    SplitJoinArith(x0, x1, x2);
    SplitQuantumOf(x0, x1, x2, a, b, c, d);
    JoinQuantumOf(a, b, c, d, x0, x1, x2);
    DecodeCodesCons([Sextet(a), Sextet(b), Sextet(c), Sextet(d)], rest, r);
  }

  /** Decoding the codes undoes encoding the byte values. */
  lemma {:induction false} DecodeEncodeBytes(bs: seq<int>)
    requires IsByteValues(bs)
    ensures DecodeCodes(EncodeBytes(bs)) == Some(bs)
    decreases |bs|
  {
    if |bs| == 1 {
      DecodeEncodeOne(bs[0]);
      assert bs == [bs[0]];
    } else if |bs| == 2 {
      DecodeEncodeTwo(bs[0], bs[1]);
      assert bs == [bs[0], bs[1]];
    } else if |bs| >= 3 {
      DecodeEncodeBytes(bs[3..]);
      DecodeEncodeQuantum(bs[0], bs[1], bs[2], EncodeBytes(bs[3..]), bs[3..]);
      assert [bs[0], bs[1], bs[2]] + bs[3..] == bs;
    }
  }

  /** Encoding gives four codes for every three bytes or fewer. */
  lemma {:induction false} EncodeBytesLength(bs: seq<int>)
    requires IsByteValues(bs)
    ensures |EncodeBytes(bs)| == (|bs| + 2) / 3 * 4
    decreases |bs|
  {
    if |bs| >= 3 {
      EncodeBytesLength(bs[3..]);
    }
  }

  // Encoding undoes decoding.

  lemma EncodeDecodeOne(a: int, b: int)
    requires 0 <= a < 64 && 0 <= b < 64
    requires DecodeFinal(Sextet(a), Sextet(b), Pad, Pad).Some?
    ensures IsByteValues(DecodeFinal(Sextet(a), Sextet(b), Pad, Pad).value)
    ensures EncodeBytes(DecodeFinal(Sextet(a), Sextet(b), Pad, Pad).value) == [Sextet(a), Sextet(b), Pad, Pad]
  {
    var x0 := a * 4 + b / 16;
    OneByteJoinArith(a, b);
    DecodeFinalOne(a, b, x0);
    EncodeOneOf(x0, a, b);
  }

  lemma EncodeDecodeTwo(a: int, b: int, c: int)
    requires 0 <= a < 64 && 0 <= b < 64 && 0 <= c < 64
    requires DecodeFinal(Sextet(a), Sextet(b), Sextet(c), Pad).Some?
    ensures IsByteValues(DecodeFinal(Sextet(a), Sextet(b), Sextet(c), Pad).value)
    ensures EncodeBytes(DecodeFinal(Sextet(a), Sextet(b), Sextet(c), Pad).value)
         == [Sextet(a), Sextet(b), Sextet(c), Pad]
  {
    var x0, x1 := a * 4 + b / 16, b % 16 * 16 + c / 4;
    TwoBytesJoinArith(a, b, c);
    DecodeFinalTwo(a, b, c, x0, x1);
    EncodeTwoOf(x0, x1, a, b, c);
  }

  lemma EncodeDecodeThree(a: int, b: int, c: int, d: int)
    requires 0 <= a < 64 && 0 <= b < 64 && 0 <= c < 64 && 0 <= d < 64
    ensures IsByteValues(JoinQuantum(a, b, c, d))
    ensures EncodeBytes(JoinQuantum(a, b, c, d)) == [Sextet(a), Sextet(b), Sextet(c), Sextet(d)]
  {
    var x0, x1, x2 := a * 4 + b / 16, b % 16 * 16 + c / 4, c % 4 * 64 + d;
    JoinSplitArith(a, b, c, d);
    JoinQuantumOf(a, b, c, d, x0, x1, x2);
    SplitQuantumOf(x0, x1, x2, a, b, c, d);
    EncodeThree(x0, x1, x2);
  }

  lemma EncodeDecodeFinal(a: Code, b: Code, c: Code, d: Code)
    requires IsCode(a) && IsCode(b) && IsCode(c) && IsCode(d)
    requires DecodeFinal(a, b, c, d).Some?
    ensures IsByteValues(DecodeFinal(a, b, c, d).value)
    ensures EncodeBytes(DecodeFinal(a, b, c, d).value) == [a, b, c, d]
  {
    if c.Pad? {
      EncodeDecodeOne(a.bits, b.bits);
    } else if d.Pad? {
      EncodeDecodeTwo(a.bits, b.bits, c.bits);
    } else {
      EncodeDecodeThree(a.bits, b.bits, c.bits, d.bits);
    }
  }

  lemma EncodeJoinedQuantum(a: int, b: int, c: int, d: int, rest: seq<int>)
    requires 0 <= a < 64 && 0 <= b < 64 && 0 <= c < 64 && 0 <= d < 64
    requires IsByteValues(rest)
    ensures IsByteValues(JoinQuantum(a, b, c, d) + rest)
    ensures EncodeBytes(JoinQuantum(a, b, c, d) + rest)
         == [Sextet(a), Sextet(b), Sextet(c), Sextet(d)] + EncodeBytes(rest)
  {
    var x0, x1, x2 := a * 4 + b / 16, b % 16 * 16 + c / 4, c % 4 * 64 + d;
    JoinSplitArith(a, b, c, d);
    JoinQuantumOf(a, b, c, d, x0, x1, x2);
    SplitQuantumOf(x0, x1, x2, a, b, c, d);
    EncodeCons(x0, x1, x2, rest);
  }

  /** Encoding the byte values undoes decoding the codes. */
  lemma {:induction false} EncodeDecodeCodes(cs: seq<Code>)
    requires IsCodes(cs) && DecodeCodes(cs).Some?
    ensures IsByteValues(DecodeCodes(cs).value)
    ensures EncodeBytes(DecodeCodes(cs).value) == cs
    decreases |cs|
  {
    if |cs| == 4 {
      EncodeDecodeFinal(cs[0], cs[1], cs[2], cs[3]);
      assert cs == [cs[0], cs[1], cs[2], cs[3]];
    } else if |cs| > 4 {
      var rest := DecodeCodes(cs[4..]).value;
      assert IsCodes(cs[4..]);
      EncodeDecodeCodes(cs[4..]);
      EncodeJoinedQuantum(cs[0].bits, cs[1].bits, cs[2].bits, cs[3].bits, rest);
      assert cs == [cs[0], cs[1], cs[2], cs[3]] + cs[4..];
    }
  }

  // ---------------------------------------------------------------------
  // Characters and codes

  /** The code of a character: its 6-bit value in Table 1 of RFC 4648, or Pad for `=`. */
  function CodeOf(c: char): (r: Option<Code>)
    ensures r.Some? ==> IsCode(r.value)
  {
    if 'A' <= c <= 'Z' then Some(Sextet(c as int - 'A' as int))
    else if 'a' <= c <= 'z' then Some(Sextet(c as int - 'a' as int + 26))
    else if '0' <= c <= '9' then Some(Sextet(c as int - '0' as int + 52))
    else if c == '+' then Some(Sextet(62))
    else if c == '/' then Some(Sextet(63))
    else if c == '=' then Some(Pad)
    else None
  }

  /** The character of a code. */
  function CharOf(n: Code): (c: char)
    requires IsCode(n)
    ensures CodeOf(c) == Some(n)
  {
    match n
    case Pad => '='
    case Sextet(v) =>
      if v < 26 then ('A' as int + v) as char
      else if v < 52 then ('a' as int + (v - 26)) as char
      else if v < 62 then ('0' as int + (v - 52)) as char
      else if v == 62 then '+'
      else '/'
  }

  /** Each character that has a code is the character of that code. */
  lemma CharOfCodeOf(c: char)
    requires CodeOf(c).Some?
    ensures CharOf(CodeOf(c).value) == c
  {
  }

  function CodesToChars(cs: seq<Code>): (t: string)
    requires IsCodes(cs)
    ensures |t| == |cs| && forall i :: 0 <= i < |cs| ==> CodeOf(t[i]) == Some(cs[i])
  {
    seq(|cs|, i requires 0 <= i < |cs| => CharOf(cs[i]))
  }

  predicate AllCoded(t: string) { forall i :: 0 <= i < |t| ==> CodeOf(t[i]).Some? }

  /** The codes of a string, or None when a character is outside the alphabet and `=`. */
  function CharsToCodes(t: string): Option<seq<Code>>
  {
    if AllCoded(t) then Some(seq(|t|, i requires 0 <= i < |t| => CodeOf(t[i]).value)) else None
  }

  /** Reading the codes back from their characters gives the codes. */
  lemma CharsToCodesOfCodesToChars(cs: seq<Code>)
    requires IsCodes(cs)
    ensures CharsToCodes(CodesToChars(cs)) == Some(cs)
  {
    var t := CodesToChars(cs);
    assert AllCoded(t);
    assert CharsToCodes(t).value == cs;
  }

  /** Writing the codes of a string as characters gives the string. */
  lemma CodesToCharsOfCharsToCodes(t: string)
    requires CharsToCodes(t).Some?
    ensures IsCodes(CharsToCodes(t).value)
    ensures CodesToChars(CharsToCodes(t).value) == t
  {
    var cs := CharsToCodes(t).value;
    forall i | 0 <= i < |t| ensures CodesToChars(cs)[i] == t[i] {
      CharOfCodeOf(t[i]);
    }
  }

  /** The byte values of a byte string. */
  function BytesOf(s: string): seq<int>
    requires IsByteString(s)
  {
    seq(|s|, i requires 0 <= i < |s| => s[i] as int)
  }

  /** The byte string of a sequence of byte values. */
  function CharsOf(bs: seq<int>): string
    requires IsByteValues(bs)
  {
    seq(|bs|, i requires 0 <= i < |bs| => bs[i] as char)
  }

  /** `BytesOf` and `CharsOf` are inverse to each other. */
  lemma BytesCharsRoundTrip(s: string, bs: seq<int>)
    requires IsByteString(s) && IsByteValues(bs)
    ensures IsByteValues(BytesOf(s)) && CharsOf(BytesOf(s)) == s
    ensures IsByteString(CharsOf(bs)) && BytesOf(CharsOf(bs)) == bs
  {
  }

  // ---------------------------------------------------------------------
  // The codec on strings

  /** The base64 encoding of a byte string. */
  function Encode(s: string): (t: string)
    requires IsByteString(s)
    ensures |t| == (|s| + 2) / 3 * 4
  {
    BytesCharsRoundTrip(s, []);
    EncodeBytesLength(BytesOf(s));
    CodesToChars(EncodeBytes(BytesOf(s)))
  }

  /** Strict base64 decoding; None for every string that encoding does not produce. */
  function Decode(t: string): (r: Option<string>)
    ensures r.Some? ==> IsByteString(r.value)
  {
    match CharsToCodes(t)
    case None => None
    case Some(cs) =>
      CodesToCharsOfCharsToCodes(t);
      match DecodeCodes(cs)
      case None => None
      case Some(bs) =>
        EncodeDecodeCodes(cs);
        BytesCharsRoundTrip("", bs);
        Some(CharsOf(bs))
  }

  /** Decoding undoes encoding on every byte string. */
  lemma DecodeEncode(s: string)
    requires IsByteString(s)
    ensures Decode(Encode(s)) == Some(s)
  {
    BytesCharsRoundTrip(s, []);
    var bs := BytesOf(s);
    CharsToCodesOfCodesToChars(EncodeBytes(bs));
    DecodeEncodeBytes(bs);
  }

  /** Encoding undoes decoding: the decoder accepts only what the encoder writes. */
  lemma EncodeDecode(t: string)
    requires Decode(t).Some?
    ensures Encode(Decode(t).value) == t
  {
    CodesToCharsOfCharsToCodes(t);
    var cs := CharsToCodes(t).value;
    var bs := DecodeCodes(cs).value;
    EncodeDecodeCodes(cs);
    BytesCharsRoundTrip("", bs);
  }

  /** A string with a character outside the alphabet and `=` is not base64. */
  lemma DecodeRejectsForeignCharacter(t: string, i: int)
    requires 0 <= i < |t| && CodeOf(t[i]).None?
    ensures Decode(t).None?
  {
  }
}
