/** Base 64 encoding as in section 4 of RFC 4648 (alphabet of table 1, `=` padding),
    the encoding `base64.b64encode(data).decode('utf-8')` produces, with its inverse. */
module Base64 {
  import opened Wrappers

  newtype byte = x: int | 0 <= x < 256

  /** A value of one encoded character: six bits. */
  type Sextet = v: int | 0 <= v < 64

  /** Table 1 of RFC 4648: `A`..`Z`, `a`..`z`, `0`..`9`, `+`, `/`. */
  function Symbol(v: Sextet): char
  {
    if v < 26 then ('A' as int + v) as char
    else if v < 52 then ('a' as int + (v - 26)) as char
    else if v < 62 then ('0' as int + (v - 52)) as char
    else if v == 62 then '+'
    else '/'
  }

  /** The inverse of table 1; `None` for a character outside the alphabet (including `=`). */
  function SymbolValue(c: char): Option<Sextet>
  {
    if 'A' <= c <= 'Z' then Some(c as int - 'A' as int)
    else if 'a' <= c <= 'z' then Some(c as int - 'a' as int + 26)
    else if '0' <= c <= '9' then Some(c as int - '0' as int + 52)
    else if c == '+' then Some(62)
    else if c == '/' then Some(63)
    else None
  }

  /** A character an encoding may contain: an alphabet symbol or the pad character. */
  predicate IsEncodingChar(c: char)
  {
    SymbolValue(c).Some? || c == '='
  }

  lemma SymbolRoundTrip(v: Sextet)
    ensures SymbolValue(Symbol(v)) == Some(v)
    ensures Symbol(v) != '='
  {
  }

  /** Three bytes (24 bits) as four six-bit symbols, most significant bits first. */
  function EncodeGroup(a: byte, b: byte, c: byte): string
  {
    [Symbol(a as int / 4), Symbol((a as int % 4) * 16 + b as int / 16),
     Symbol((b as int % 16) * 4 + c as int / 64), Symbol(c as int % 64)]
  }

  /** Encodes groups of three bytes; a final group of one or two bytes is padded with `=`
      (section 4 of RFC 4648, cases (2) and (3)). */
  function Encode(bs: seq<byte>): string
    decreases |bs|
  {
    if |bs| == 0 then ""
    else if |bs| == 1 then
      [Symbol(bs[0] as int / 4), Symbol((bs[0] as int % 4) * 16), '=', '=']
    else if |bs| == 2 then
      [Symbol(bs[0] as int / 4), Symbol((bs[0] as int % 4) * 16 + bs[1] as int / 16),
       Symbol((bs[1] as int % 16) * 4), '=']
    else
      EncodeGroup(bs[0], bs[1], bs[2]) + Encode(bs[3..])
  }

  /** Decodes one quantum of four characters; padding is accepted only in the final one. */
  function DecodeQuantum(q: string, final: bool): Option<seq<byte>>
    requires |q| == 4
  {
    match (SymbolValue(q[0]), SymbolValue(q[1]))
    case (Some(v0), Some(v1)) =>
      if final && q[2] == '=' && q[3] == '=' then
        Some([(v0 * 4 + v1 / 16) as byte])
      else if SymbolValue(q[2]).None? then None
      else
        var v2 := SymbolValue(q[2]).value;
        if final && q[3] == '=' then
          Some([(v0 * 4 + v1 / 16) as byte, ((v1 % 16) * 16 + v2 / 4) as byte])
        else if SymbolValue(q[3]).None? then None
        else
          var v3 := SymbolValue(q[3]).value;
          Some([(v0 * 4 + v1 / 16) as byte, ((v1 % 16) * 16 + v2 / 4) as byte, ((v2 % 4) * 64 + v3) as byte])
    case _ => None
  }

  /** Strict decoding: a whole number of quanta over the alphabet, padding only at the end. */
  function Decode(s: string): Option<seq<byte>>
    decreases |s|
  {
    if s == "" then Some([])
    else if |s| < 4 then None
    else
      match DecodeQuantum(s[..4], |s| == 4)
      case None => None
      case Some(head) =>
        match Decode(s[4..])
        case None => None
        case Some(rest) => Some(head + rest)
  }

  /** The bit arithmetic of one group: the bytes can be read back from the six-bit pieces. */
  lemma GroupArithmetic(a: int, b: int, c: int)
    requires 0 <= a < 256 && 0 <= b < 256 && 0 <= c < 256
    ensures (a / 4) * 4 + ((a % 4) * 16 + b / 16) / 16 == a
    ensures (((a % 4) * 16 + b / 16) % 16) * 16 + ((b % 16) * 4 + c / 64) / 4 == b
    ensures (((b % 16) * 4 + c / 64) % 4) * 64 + c % 64 == c
  {
    assert ((a % 4) * 16 + b / 16) / 16 == a % 4;
    assert ((a % 4) * 16 + b / 16) % 16 == b / 16;
    assert ((b % 16) * 4 + c / 64) / 4 == b % 16;
    assert ((b % 16) * 4 + c / 64) % 4 == c / 64;
  }

  /** One step of `Encode`: a full group followed by the encoding of the rest. */
  lemma EncodeStep(bs: seq<byte>)
    requires |bs| >= 3
    ensures Encode(bs) == EncodeGroup(bs[0], bs[1], bs[2]) + Encode(bs[3..])
  {
  }

  lemma EncodeTailLength(bs: seq<byte>)
    requires |bs| < 3
    ensures |Encode(bs)| == 4 * ((|bs| + 2) / 3)
  {
  }

  /** Every encoding has length `4 * ceil(n / 3)`. */
  lemma {:induction false} EncodeLength(bs: seq<byte>)
    ensures |Encode(bs)| == 4 * ((|bs| + 2) / 3)
    decreases |bs|
  {
    if |bs| >= 3 {
      EncodeStep(bs);
      EncodeLength(bs[3..]);
      assert (|bs| + 2) / 3 == (|bs[3..]| + 2) / 3 + 1;
    } else {
      EncodeTailLength(bs);
    }
  }

  /** Every character of `s` may occur in an encoding. */
  predicate IsEncoding(s: string)
  {
    forall i :: 0 <= i < |s| ==> IsEncodingChar(s[i])
  }

  /** A short tail encodes to alphabet symbols and padding. */
  lemma EncodeTailAlphabet(bs: seq<byte>)
    requires |bs| < 3
    ensures IsEncoding(Encode(bs))
  {
    if |bs| == 1 {
      SymbolRoundTrip(bs[0] as int / 4);
      SymbolRoundTrip((bs[0] as int % 4) * 16);
    } else if |bs| == 2 {
      SymbolRoundTrip(bs[0] as int / 4);
      SymbolRoundTrip((bs[0] as int % 4) * 16 + bs[1] as int / 16);
      SymbolRoundTrip((bs[1] as int % 16) * 4);
    }
  }

  /** A full group encodes to four alphabet symbols. */
  lemma GroupAlphabet(a: byte, b: byte, c: byte)
    ensures IsEncoding(EncodeGroup(a, b, c))
  {
    SymbolRoundTrip(a as int / 4);
    SymbolRoundTrip((a as int % 4) * 16 + b as int / 16);
    SymbolRoundTrip((b as int % 16) * 4 + c as int / 64);
    SymbolRoundTrip(c as int % 64);
  }

  lemma ConcatEncoding(s: string, t: string)
    requires IsEncoding(s) && IsEncoding(t)
    ensures IsEncoding(s + t)
  {
    assert forall i :: 0 <= i < |s + t| ==> (s + t)[i] == if i < |s| then s[i] else t[i - |s|];
  }

  /** An encoding consists of alphabet symbols and `=` only; in particular it holds no comma. */
  lemma {:induction false} EncodeAlphabet(bs: seq<byte>)
    ensures forall i :: 0 <= i < |Encode(bs)| ==> IsEncodingChar(Encode(bs)[i])
    ensures ',' !in Encode(bs)
    decreases |bs|
  {
    if |bs| >= 3 {
      EncodeStep(bs);
      EncodeAlphabet(bs[3..]);
      GroupAlphabet(bs[0], bs[1], bs[2]);
      ConcatEncoding(EncodeGroup(bs[0], bs[1], bs[2]), Encode(bs[3..]));
    } else {
      EncodeTailAlphabet(bs);
    }
    assert IsEncoding(Encode(bs));
  }

  /** The final quantum of a one-byte tail decodes to that byte. */
  lemma DecodeOne(a: byte)
    ensures DecodeQuantum(Encode([a]), true) == Some([a])
  {
    var v0, v1 := a as int / 4, (a as int % 4) * 16;
    var q := Encode([a]);
    assert q == [Symbol(v0), Symbol(v1), '=', '='];
    SymbolRoundTrip(v0);
    SymbolRoundTrip(v1);
    assert v0 * 4 + v1 / 16 == a as int;
  }

  /** The final quantum of a two-byte tail decodes to those bytes. */
  lemma DecodeTwo(a: byte, b: byte)
    ensures DecodeQuantum(Encode([a, b]), true) == Some([a, b])
  {
    var v0, v1, v2 := a as int / 4, (a as int % 4) * 16 + b as int / 16, (b as int % 16) * 4;
    var q := Encode([a, b]);
    assert q == [Symbol(v0), Symbol(v1), Symbol(v2), '='];
    SymbolRoundTrip(v0);
    SymbolRoundTrip(v1);
    SymbolRoundTrip(v2);
    GroupArithmetic(a as int, b as int, 0);
    assert v0 * 4 + v1 / 16 == a as int;
    assert (v1 % 16) * 16 + v2 / 4 == b as int;
    assert DecodeQuantum(q, true) == Some([(v0 * 4 + v1 / 16) as byte, ((v1 % 16) * 16 + v2 / 4) as byte]);
  }

  /** A full quantum decodes to its three bytes, final or not. */
  lemma DecodeThree(a: byte, b: byte, c: byte, final: bool)
    ensures DecodeQuantum(EncodeGroup(a, b, c), final) == Some([a, b, c])
  {
    var v0, v1 := a as int / 4, (a as int % 4) * 16 + b as int / 16;
    var v2, v3 := (b as int % 16) * 4 + c as int / 64, c as int % 64;
    var q := EncodeGroup(a, b, c);
    SymbolRoundTrip(v0);
    SymbolRoundTrip(v1);
    SymbolRoundTrip(v2);
    SymbolRoundTrip(v3);
    GroupArithmetic(a as int, b as int, c as int);
    assert DecodeQuantum(q, final)
        == Some([(v0 * 4 + v1 / 16) as byte, ((v1 % 16) * 16 + v2 / 4) as byte, ((v2 % 4) * 64 + v3) as byte]);
  }

  /** `Decode` reads a leading quantum and then the rest. */
  lemma DecodeConcat(q: string, rest: string, head: seq<byte>, tail: seq<byte>)
    requires |q| == 4
    requires DecodeQuantum(q, rest == "") == Some(head)
    requires Decode(rest) == Some(tail)
    ensures Decode(q + rest) == Some(head + tail)
  {
    var s := q + rest;
    assert s[..4] == q && s[4..] == rest;
  }

  /** A solver hint only: the sequence regrouping `DecodeEncodeStep` needs, kept apart because in
      that lemma's context it is expensive to prove. */
  lemma SplitGroup(bs: seq<byte>)
    requires |bs| >= 3
    ensures [bs[0], bs[1], bs[2]] + bs[3..] == bs
  {
  }

  /** Decoding a full group followed by the encoding of the rest. */
  lemma DecodeEncodeStep(bs: seq<byte>)
    requires |bs| >= 3
    requires Decode(Encode(bs[3..])) == Some(bs[3..])
    ensures Decode(Encode(bs)) == Some(bs)
  {
    var rest := Encode(bs[3..]);
    EncodeStep(bs);
    DecodeThree(bs[0], bs[1], bs[2], rest == "");
    DecodeConcat(EncodeGroup(bs[0], bs[1], bs[2]), rest, [bs[0], bs[1], bs[2]], bs[3..]);
    SplitGroup(bs);
  }

  /** A one- or two-byte input decodes back from its single final quantum. */
  lemma DecodeEncodeTail(bs: seq<byte>)
    requires 1 <= |bs| <= 2
    ensures Decode(Encode(bs)) == Some(bs)
  {
    var s := Encode(bs);
    if |bs| == 1 {
      assert [bs[0]] == bs;
      DecodeOne(bs[0]);
    } else {
      assert [bs[0], bs[1]] == bs;
      DecodeTwo(bs[0], bs[1]);
    }
    DecodeConcat(s, "", bs, []);
    assert s + "" == s && bs + [] == bs;
  }

  /** Decoding an encoding gives the original bytes back. */
  lemma {:induction false} DecodeEncode(bs: seq<byte>)
    ensures Decode(Encode(bs)) == Some(bs)
    decreases |bs|
  {
    if 1 <= |bs| <= 2 {
      DecodeEncodeTail(bs);
    } else if |bs| >= 3 {
      DecodeEncode(bs[3..]);
      DecodeEncodeStep(bs);
    }
  }
}
