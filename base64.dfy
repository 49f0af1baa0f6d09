/**
  Base64 as in section 4 of RFC 4648: `b64encode` writes the padded
  encoding, and `b64decode` of a `str` runs binascii.a2b_base64 in its
  non-strict mode (Python 3.11 and later), which skips characters outside
  the alphabet and stops at the first complete padding.
 */
module Base64 {
  import opened Bytes
  import opened Wrappers

  const Pad := '='

  /** The character for a 6-bit value (Table 1 of RFC 4648). */
  function Alphabet(v: int): (c: char)
    requires 0 <= v < 64
    ensures c as int < 0x80 && c != Pad
  {
    if v < 26 then ('A' as int + v) as char
    else if v < 52 then ('a' as int + v - 26) as char
    else if v < 62 then ('0' as int + v - 52) as char
    else if v == 62 then '+'
    else '/'
  }

  /** table_a2b_base64: the value of an alphabet character, -1 for every other character. */
  function SextetValue(c: char): (v: int)
    ensures -1 <= v < 64
  {
    if 'A' <= c <= 'Z' then c as int - 'A' as int
    else if 'a' <= c <= 'z' then c as int - 'a' as int + 26
    else if '0' <= c <= '9' then c as int - '0' as int + 52
    else if c == '+' then 62
    else if c == '/' then 63
    else -1
  }

  lemma SextetOfAlphabet(v: int)
    requires 0 <= v < 64
    ensures SextetValue(Alphabet(v)) == v
  {
  }

  /** Every three bytes become four characters; a final one or two bytes are padded to four. */
  function Encode(b: seq<byte>): (s: string)
    ensures |s| == 4 * ((|b| + 2) / 3)
    ensures forall i :: 0 <= i < |s| ==> s[i] as int < 0x80
  {
    if |b| == 0 then ""
    else if |b| == 1 then
      [Alphabet(b[0] / 4), Alphabet((b[0] % 4) * 16), Pad, Pad]
    else if |b| == 2 then
      [Alphabet(b[0] / 4), Alphabet((b[0] % 4) * 16 + b[1] / 16), Alphabet((b[1] % 16) * 4), Pad]
    else
      [Alphabet(b[0] / 4), Alphabet((b[0] % 4) * 16 + b[1] / 16),
       Alphabet((b[1] % 16) * 4 + b[2] / 64), Alphabet(b[2] % 64)] + Encode(b[3..])
  }

  datatype DecodeError =
    | NonAscii            // a `str` argument with a non-ASCII character (ValueError)
    | ExcessDataCharacter // one data character more than a multiple of four (binascii.Error)
    | IncorrectPadding    // the input ends inside a quantum (binascii.Error)

  /** The bits a quantum position carries forward: none at 0, then 6, 4 and 2 bits. */
  predicate Carry(quad: nat, left: int)
  {
    && quad <= 3
    && 0 <= left
    && left < (if quad == 0 then 1 else if quad == 1 then 64 else if quad == 2 then 16 else 4)
  }

  /**
    The loop of a2b_base64 over the characters still to read.  `quad` is
    the position in the current four-character quantum, `left` the bits
    carried from its previous character, `pads` the '=' seen since the last
    data character (counted only from position 2 on), `out` the bytes so far.
   */
  function A2b(s: string, quad: nat, left: int, pads: nat, out: seq<byte>): (r: Result<seq<byte>, DecodeError>)
    requires Carry(quad, left)
    decreases |s|
  {
    if |s| == 0 then
      if quad == 0 then Ok(out)
      else if quad == 1 then Err(ExcessDataCharacter)
      else Err(IncorrectPadding)
    else if s[0] == Pad then
      if quad >= 2 && quad + pads + 1 >= 4 then Ok(out)
      else A2b(s[1..], quad, left, if quad >= 2 then pads + 1 else pads, out)
    else
      var v := SextetValue(s[0]);
      if v < 0 then A2b(s[1..], quad, left, pads, out)
      else if quad == 0 then A2b(s[1..], 1, v, 0, out)
      else if quad == 1 then A2b(s[1..], 2, v % 16, 0, out + [left * 4 + v / 16])
      else if quad == 2 then A2b(s[1..], 3, v % 4, 0, out + [left * 16 + v / 4])
      else A2b(s[1..], 0, 0, 0, out + [left * 64 + v])
  }

  /** base64.b64decode of a `str`. */
  function Decode(s: string): (r: Result<seq<byte>, DecodeError>)
    ensures r == Err(NonAscii) <==> exists i :: 0 <= i < |s| && s[i] as int >= 0x80
  {
    if exists i :: 0 <= i < |s| && s[i] as int >= 0x80 then Err(NonAscii)
    else
      A2bNeverNonAscii(s, 0, 0, 0, []);
      A2b(s, 0, 0, 0, [])
  }

  lemma A2bNeverNonAscii(s: string, quad: nat, left: int, pads: nat, out: seq<byte>)
    requires Carry(quad, left)
    ensures A2b(s, quad, left, pads, out) != Err(NonAscii)
    decreases |s|
  {
    if |s| > 0 {
      var v := SextetValue(s[0]);
      if s[0] == Pad {
        A2bNeverNonAscii(s[1..], quad, left, if quad >= 2 then pads + 1 else pads, out);
      } else if v < 0 {
        A2bNeverNonAscii(s[1..], quad, left, pads, out);
      } else if quad == 0 {
        A2bNeverNonAscii(s[1..], 1, v, 0, out);
      } else if quad == 1 {
        A2bNeverNonAscii(s[1..], 2, v % 16, 0, out + [left * 4 + v / 16]);
      } else if quad == 2 {
        A2bNeverNonAscii(s[1..], 3, v % 4, 0, out + [left * 16 + v / 4]);
      } else {
        A2bNeverNonAscii(s[1..], 0, 0, 0, out + [left * 64 + v]);
      }
    }
  }

  /** One data character read at position `quad`. */
  lemma A2bData(c: char, rest: string, quad: nat, left: int, pads: nat, out: seq<byte>)
    requires Carry(quad, left) && c != Pad && SextetValue(c) >= 0
    ensures var v := SextetValue(c);
      A2b([c] + rest, quad, left, pads, out) ==
        if quad == 0 then A2b(rest, 1, v, 0, out)
        else if quad == 1 then A2b(rest, 2, v % 16, 0, out + [left * 4 + v / 16])
        else if quad == 2 then A2b(rest, 3, v % 4, 0, out + [left * 16 + v / 4])
        else A2b(rest, 0, 0, 0, out + [left * 64 + v])
  {
    assert ([c] + rest)[1..] == rest;
  }

  /** The sextets of three bytes, and the bytes the decoder rebuilds from them. */
  lemma GroupBits(x: byte, y: byte, z: byte)
    ensures var v1, v2 := (x % 4) * 16 + y / 16, (y % 16) * 4 + z / 64;
      && (x / 4) * 4 + v1 / 16 == x
      && (v1 % 16) * 16 + v2 / 4 == y
      && (v2 % 4) * 64 + z % 64 == z
  {
  }

  /** Four characters encoding three bytes are decoded to those bytes. */
  lemma DecodeGroup(x: byte, y: byte, z: byte, rest: string, out: seq<byte>)
    ensures A2b([Alphabet(x / 4), Alphabet((x % 4) * 16 + y / 16), Alphabet((y % 16) * 4 + z / 64), Alphabet(z % 64)] + rest, 0, 0, 0, out)
      == A2b(rest, 0, 0, 0, out + [x, y, z])
  {
    var v0, v1, v2, v3 := x / 4, (x % 4) * 16 + y / 16, (y % 16) * 4 + z / 64, z % 64;
    var c0, c1, c2, c3 := Alphabet(v0), Alphabet(v1), Alphabet(v2), Alphabet(v3);
    SextetOfAlphabet(v0);
    SextetOfAlphabet(v1);
    SextetOfAlphabet(v2);
    SextetOfAlphabet(v3);
    GroupBits(x, y, z);
    var r3 := [c3] + rest;
    var r2 := [c2] + r3;
    var r1 := [c1] + r2;
    assert [c0, c1, c2, c3] + rest == [c0] + r1;
    A2bData(c0, r1, 0, 0, 0, out);
    A2bData(c1, r2, 1, v0, 0, out);
    A2bData(c2, r3, 2, v1 % 16, 0, out + [x]);
    A2bData(c3, rest, 3, v2 % 4, 0, out + [x] + [y]);
    assert out + [x] + [y] + [z] == out + [x, y, z];
  }

  /** A final byte is written as two characters and "==". */
  lemma DecodeLastOne(x: byte, out: seq<byte>)
    ensures A2b(Encode([x]), 0, 0, 0, out) == Ok(out + [x])
  {
    var v0, v1 := x / 4, (x % 4) * 16;
    var c0, c1 := Alphabet(v0), Alphabet(v1);
    SextetOfAlphabet(v0);
    SextetOfAlphabet(v1);
    assert v0 * 4 + v1 / 16 == x && v1 % 16 == 0;
    var p2: string := [Pad, Pad];
    assert Encode([x]) == [c0] + ([c1] + p2);
    A2bData(c0, [c1] + p2, 0, 0, 0, out);
    A2bData(c1, p2, 1, v0, 0, out);
    assert p2[1..] == [Pad];
    assert A2b(p2, 2, 0, 0, out + [x]) == A2b([Pad], 2, 0, 1, out + [x]);
  }

  /** A final two bytes are written as three characters and "=". */
  lemma DecodeLastTwo(x: byte, y: byte, out: seq<byte>)
    ensures A2b(Encode([x, y]), 0, 0, 0, out) == Ok(out + [x, y])
  {
    var v0, v1, v2 := x / 4, (x % 4) * 16 + y / 16, (y % 16) * 4;
    var c0, c1, c2 := Alphabet(v0), Alphabet(v1), Alphabet(v2);
    SextetOfAlphabet(v0);
    SextetOfAlphabet(v1);
    SextetOfAlphabet(v2);
    GroupBits(x, y, 0);
    var p1: string := [Pad];
    assert Encode([x, y]) == [c0] + ([c1] + ([c2] + p1));
    A2bData(c0, [c1] + ([c2] + p1), 0, 0, 0, out);
    A2bData(c1, [c2] + p1, 1, v0, 0, out);
    A2bData(c2, p1, 2, v1 % 16, 0, out + [x]);
    assert out + [x] + [y] == out + [x, y];
  }

  lemma {:induction false} DecodeEncodeFrom(b: seq<byte>, out: seq<byte>)
    ensures A2b(Encode(b), 0, 0, 0, out) == Ok(out + b)
    decreases |b|
  {
    if |b| == 0 {
      assert out + b == out;
    } else if |b| == 1 {
      DecodeLastOne(b[0], out);
      assert [b[0]] == b;
    } else if |b| == 2 {
      DecodeLastTwo(b[0], b[1], out);
      assert [b[0], b[1]] == b;
    } else {
      DecodeGroup(b[0], b[1], b[2], Encode(b[3..]), out);
      DecodeEncodeFrom(b[3..], out + [b[0], b[1], b[2]]);
      assert out + [b[0], b[1], b[2]] + b[3..] == out + b;
    }
  }

  /** Decoding an encoding gives the bytes back, for every byte string. */
  lemma DecodeEncode(b: seq<byte>)
    ensures Decode(Encode(b)) == Ok(b)
  {
    var s := Encode(b);
    assert !exists i :: 0 <= i < |s| && s[i] as int >= 0x80;
    DecodeEncodeFrom(b, []);
    assert [] + b == b;
  }
}
