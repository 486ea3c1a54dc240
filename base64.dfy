/**
 * `Convert.ToBase64String`: the padded Base64 of section 4 of RFC 4648, with no line
 * breaks, and a strict decoder that reads it back.
 */
module Base64 {
  import opened Wrappers
  import opened Bytes

  /** The character for a six-bit value: A-Z, a-z, 0-9, '+', '/'. */
  function CharOf(i: int): (c: char)
    requires 0 <= i < 64
    ensures c != '='
  {
    if i < 26 then ('A' as int + i) as char
    else if i < 52 then ('a' as int + (i - 26)) as char
    else if i < 62 then ('0' as int + (i - 52)) as char
    else if i == 62 then '+'
    else '/'
  }

  /** The six-bit value a character of the alphabet stands for. */
  function IndexOf(c: char): (r: Option<int>)
    ensures r.Some? ==> 0 <= r.value < 64 && CharOf(r.value) == c
  {
    if 'A' <= c <= 'Z' then Some(c as int - 'A' as int)
    else if 'a' <= c <= 'z' then Some(c as int - 'a' as int + 26)
    else if '0' <= c <= '9' then Some(c as int - '0' as int + 52)
    else if c == '+' then Some(62)
    else if c == '/' then Some(63)
    else None
  }

  /** Every six-bit value is read back from its character. */
  lemma IndexOfCharOf(i: int)
    requires 0 <= i < 64
    ensures IndexOf(CharOf(i)) == Some(i)
  {
  }

  predicate InAlphabet(c: char) {
    IndexOf(c).Some?
  }

  /** Three bytes as four characters. */
  function EncodeBlock(x: byte, y: byte, z: byte): (s: string)
    ensures |s| == 4 && forall i :: 0 <= i < 4 ==> InAlphabet(s[i])
  {
    IndexOfCharOf(x / 4);
    IndexOfCharOf(x % 4 * 16 + y / 16);
    IndexOfCharOf(y % 16 * 4 + z / 64);
    IndexOfCharOf(z % 64);
    [CharOf(x / 4), CharOf(x % 4 * 16 + y / 16), CharOf(y % 16 * 4 + z / 64), CharOf(z % 64)]
  }

  /** Whole blocks of three bytes, then one or two trailing bytes padded with '='. */
  function Encode(b: seq<byte>): (s: string)
    ensures |s| == 4 * ((|b| + 2) / 3)
    decreases |b|
  {
    if |b| == 0 then ""
    else if |b| == 1 then [CharOf(b[0] / 4), CharOf(b[0] % 4 * 16), '=', '=']
    else if |b| == 2 then [CharOf(b[0] / 4), CharOf(b[0] % 4 * 16 + b[1] / 16), CharOf(b[1] % 16 * 4), '=']
    else EncodeBlock(b[0], b[1], b[2]) + Encode(b[3..])
  }

  /**
   * Four characters back to bytes. Padding is allowed only in the last block, and the
   * bits it leaves over must be zero, so that every byte string has one encoding.
   */
  function DecodeBlock(a: char, b: char, c: char, d: char, last: bool): (r: Option<seq<byte>>)
    ensures r.Some? ==> 1 <= |r.value| <= 3
    ensures r.Some? && |r.value| < 3 ==> last
  {
    if IndexOf(a).None? || IndexOf(b).None? then None
    else
      var w, x := IndexOf(a).value, IndexOf(b).value;
      if c == '=' then
        if last && d == '=' && x % 16 == 0 then Some([w * 4 + x / 16]) else None
      else if IndexOf(c).None? then None
      else
        var y := IndexOf(c).value;
        if d == '=' then
          if last && y % 4 == 0 then Some([w * 4 + x / 16, x % 16 * 16 + y / 4]) else None
        else if IndexOf(d).None? then None
        else
          var z := IndexOf(d).value;
          Some([w * 4 + x / 16, x % 16 * 16 + y / 4, y % 4 * 64 + z])
  }

  /** `Convert.FromBase64String` on unbroken, padded input: `None` where it would throw. */
  function Decode(s: string): (r: Option<seq<byte>>)
    decreases |s|
  {
    if s == [] then Some([])
    else if |s| < 4 then None
    else
      match DecodeBlock(s[0], s[1], s[2], s[3], |s| == 4)
      case None => None
      case Some(block) =>
        match Decode(s[4..])
        case None => None
        case Some(rest) => Some(block + rest)
  }

  /** A value below `16 * h + 16` split into its high and low four bits. */
  lemma Split16(h: int, l: int)
    requires 0 <= h && 0 <= l < 16
    ensures (h * 16 + l) / 16 == h && (h * 16 + l) % 16 == l
  {
  }

  lemma Split4(h: int, l: int)
    requires 0 <= h && 0 <= l < 4
    ensures (h * 4 + l) / 4 == h && (h * 4 + l) % 4 == l
  {
  }

  lemma DecodeEncodeBlock(x: byte, y: byte, z: byte, last: bool)
    ensures var s := EncodeBlock(x, y, z); DecodeBlock(s[0], s[1], s[2], s[3], last) == Some([x, y, z])
  {
    var w, u, v, t := x / 4, x % 4 * 16 + y / 16, y % 16 * 4 + z / 64, z % 64;
    IndexOfCharOf(w);
    IndexOfCharOf(u);
    IndexOfCharOf(v);
    IndexOfCharOf(t);
    Split16(x % 4, y / 16);
    Split4(y % 16, z / 64);
    assert w * 4 + u / 16 == x;
    assert u % 16 * 16 + v / 4 == y;
    assert v % 4 * 64 + t == z;
  }

  lemma DecodeEncodeOne(x: byte)
    ensures var s := Encode([x]); DecodeBlock(s[0], s[1], s[2], s[3], true) == Some([x])
  {
    var w, u := x / 4, x % 4 * 16;
    IndexOfCharOf(w);
    IndexOfCharOf(u);
    Split16(x % 4, 0);
    assert w * 4 + u / 16 == x;
  }

  lemma DecodeEncodeTwo(x: byte, y: byte)
    ensures var s := Encode([x, y]); DecodeBlock(s[0], s[1], s[2], s[3], true) == Some([x, y])
  {
    var w, u, v := x / 4, x % 4 * 16 + y / 16, y % 16 * 4;
    IndexOfCharOf(w);
    IndexOfCharOf(u);
    IndexOfCharOf(v);
    Split16(x % 4, y / 16);
    Split4(y % 16, 0);
    assert w * 4 + u / 16 == x;
    assert u % 16 * 16 + v / 4 == y;
  }

  /** Decoding undoes encoding: the evaluation file gives back exactly the stored bytes. */
  lemma {:induction false} DecodeEncode(b: seq<byte>)
    ensures Decode(Encode(b)) == Some(b)
    decreases |b|
  {
    if |b| == 1 || |b| == 2 {
      DecodeEncodeShort(b);
    } else if |b| >= 3 {
      DecodeEncode(b[3..]);
      DecodeEncodeStep(b);
    }
  }

  /** One or two bytes make a single padded block that decodes back to them. */
  lemma DecodeEncodeShort(b: seq<byte>)
    requires |b| == 1 || |b| == 2
    ensures Decode(Encode(b)) == Some(b)
  {
    var s := Encode(b);
    var block := if |b| == 1 then [b[0]] else [b[0], b[1]];
    assert block == b;
    if |b| == 1 {
      DecodeEncodeOne(b[0]);
    } else {
      DecodeEncodeTwo(b[0], b[1]);
    }
    DecodeSingleBlock(s, block);
  }

  /** Four characters forming a valid last block decode to that block. */
  lemma DecodeSingleBlock(s: string, block: seq<byte>)
    requires |s| == 4 && DecodeBlock(s[0], s[1], s[2], s[3], true) == Some(block)
    ensures Decode(s) == Some(block)
  {
    assert s[4..] == [];
    assert block + [] == block;
  }

  /** A valid block that is not the last, in front of a decodable text. */
  lemma DecodeCons(s: string, block: seq<byte>, rest: seq<byte>)
    requires |s| > 4 && DecodeBlock(s[0], s[1], s[2], s[3], false) == Some(block)
    requires Decode(s[4..]) == Some(rest)
    ensures Decode(s) == Some(block + rest)
  {
  }

  lemma SplitBlock(b: seq<byte>)
    requires |b| >= 3
    ensures [b[0], b[1], b[2]] + b[3..] == b
  {
  }

  /** The encoding of three bytes or more opens with their block, and the rest follows. */
  lemma EncodeSplit(b: seq<byte>)
    requires |b| >= 3
    ensures var s, head := Encode(b), EncodeBlock(b[0], b[1], b[2]);
      && |s| >= 4 && s[0] == head[0] && s[1] == head[1] && s[2] == head[2] && s[3] == head[3]
      && s[4..] == Encode(b[3..])
  {
    var s := Encode(b);
    var head := EncodeBlock(b[0], b[1], b[2]);
    assert s == head + Encode(b[3..]);
  }

  /** A whole block in front of an encoding that decodes back decodes back too. */
  lemma DecodeEncodeStep(b: seq<byte>)
    requires |b| >= 3 && Decode(Encode(b[3..])) == Some(b[3..])
    ensures Decode(Encode(b)) == Some(b)
  {
    var s := Encode(b);
    var tail := Encode(b[3..]);
    EncodeSplit(b);
    SplitBlock(b);
    if tail == [] {
      DecodeEncodeBlock(b[0], b[1], b[2], true);
      DecodeSingleBlock(s, [b[0], b[1], b[2]]);
    } else {
      DecodeEncodeBlock(b[0], b[1], b[2], false);
      DecodeCons(s, [b[0], b[1], b[2]], b[3..]);
    }
  }

  /** The encoding uses only the alphabet and the padding character, which comes last. */
  lemma {:induction false} EncodeAlphabet(b: seq<byte>)
    ensures forall i :: 0 <= i < |Encode(b)| ==> InAlphabet(Encode(b)[i]) || Encode(b)[i] == '='
    ensures forall i :: 0 <= i < |Encode(b)| && Encode(b)[i] == '=' ==> i >= |Encode(b)| - 2
    decreases |b|
  {
    if |b| == 1 {
      IndexOfCharOf(b[0] / 4);
      IndexOfCharOf(b[0] % 4 * 16);
    } else if |b| == 2 {
      IndexOfCharOf(b[0] / 4);
      IndexOfCharOf(b[0] % 4 * 16 + b[1] / 16);
      IndexOfCharOf(b[1] % 16 * 4);
    } else if |b| >= 3 {
      var head := EncodeBlock(b[0], b[1], b[2]);
      var tail := Encode(b[3..]);
      EncodeAlphabet(b[3..]);
      assert Encode(b) == head + tail;
      forall i | 0 <= i < |Encode(b)| ensures InAlphabet(Encode(b)[i]) || Encode(b)[i] == '=' {
        if i >= 4 { assert Encode(b)[i] == tail[i - 4]; }
      }
    }
  }
}
