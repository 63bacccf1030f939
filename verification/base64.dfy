/**
 * The base64 encoding of section 4 of RFC 4648 (alphabet A-Z, a-z, 0-9,
 * '+', '/', with '=' padding), which the wire format uses for BYTES
 * values. Decoding is strict: the length must be a multiple of four,
 * padding may only close the last quantum, and the unused bits before the
 * padding must be zero (section 3.5 of RFC 4648), so that decoding is the
 * exact inverse of encoding in both directions.
 */
module Base64 {
  import opened Wrappers

  type byte = x: int | 0 <= x < 256

  /** The message every decoding failure carries. */
  const InvalidBase64: string := "Invalid base64"

  predicate IsBase64Char(c: char) {
    ('A' <= c <= 'Z') || ('a' <= c <= 'z') || ('0' <= c <= '9') || c == '+' || c == '/'
  }

  /** The alphabet character of a 6-bit value. */
  function CharOf(i: int): (c: char)
    requires 0 <= i < 64
    ensures IsBase64Char(c)
  {
    if i < 26 then ('A' as int + i) as char
    else if i < 52 then ('a' as int + (i - 26)) as char
    else if i < 62 then ('0' as int + (i - 52)) as char
    else if i == 62 then '+'
    else '/'
  }

  /** The 6-bit value of an alphabet character; the inverse of `CharOf`. */
  function IndexOf(c: char): (i: int)
    requires IsBase64Char(c)
    ensures 0 <= i < 64 && CharOf(i) == c
  {
    if 'A' <= c <= 'Z' then c as int - 'A' as int
    else if 'a' <= c <= 'z' then c as int - 'a' as int + 26
    else if '0' <= c <= '9' then c as int - '0' as int + 52
    else if c == '+' then 62
    else 63
  }

  lemma IndexOfCharOf(i: int)
    requires 0 <= i < 64
    ensures IndexOf(CharOf(i)) == i
  {
  }

  /** Three bytes as four characters. */
  function EncodeTriple(b0: byte, b1: byte, b2: byte): string
  {
    [CharOf(b0 / 4), CharOf((b0 % 4) * 16 + b1 / 16), CharOf((b1 % 16) * 4 + b2 / 64), CharOf(b2 % 64)]
  }

  /** A final pair of bytes: three characters and one '='. */
  function EncodePair(b0: byte, b1: byte): string
  {
    [CharOf(b0 / 4), CharOf((b0 % 4) * 16 + b1 / 16), CharOf((b1 % 16) * 4), '=']
  }

  /** A final single byte: two characters and "==". */
  function EncodeSingle(b0: byte): string
  {
    [CharOf(b0 / 4), CharOf((b0 % 4) * 16), '=', '=']
  }

  function Encode(bs: seq<byte>): (s: string)
    ensures |s| % 4 == 0
    ensures |s| == 0 <==> |bs| == 0
    decreases |bs|
  {
    if |bs| == 0 then ""
    else if |bs| == 1 then EncodeSingle(bs[0])
    else if |bs| == 2 then EncodePair(bs[0], bs[1])
    else EncodeTriple(bs[0], bs[1], bs[2]) + Encode(bs[3..])
  }

  function DecodeTriple(i0: int, i1: int, i2: int, i3: int): seq<byte>
    requires 0 <= i0 < 64 && 0 <= i1 < 64 && 0 <= i2 < 64 && 0 <= i3 < 64
  {
    [i0 * 4 + i1 / 16, (i1 % 16) * 16 + i2 / 4, (i2 % 4) * 64 + i3]
  }

  /** A quantum of four alphabet characters, which is not the last one. */
  function DecodeFullQuantum(q: string): Result<seq<byte>, string>
    requires |q| == 4
  {
    if IsBase64Char(q[0]) && IsBase64Char(q[1]) && IsBase64Char(q[2]) && IsBase64Char(q[3]) then
      Success(DecodeTriple(IndexOf(q[0]), IndexOf(q[1]), IndexOf(q[2]), IndexOf(q[3])))
    else Failure(InvalidBase64)
  }

  /** The last quantum, which may end in "=" or "==". */
  function DecodeFinalQuantum(q: string): Result<seq<byte>, string>
    requires |q| == 4
  {
    if !IsBase64Char(q[0]) || !IsBase64Char(q[1]) then Failure(InvalidBase64)
    else
      var i0, i1 := IndexOf(q[0]), IndexOf(q[1]);
      if q[2] == '=' && q[3] == '=' then
        if i1 % 16 == 0 then Success([i0 * 4 + i1 / 16]) else Failure(InvalidBase64)
      else if IsBase64Char(q[2]) && q[3] == '=' then
        var i2 := IndexOf(q[2]);
        if i2 % 4 == 0 then Success([i0 * 4 + i1 / 16, (i1 % 16) * 16 + i2 / 4]) else Failure(InvalidBase64)
      else DecodeFullQuantum(q)
  }

  function Decode(s: string): Result<seq<byte>, string>
    decreases |s|
  {
    if |s| == 0 then Success([])
    else if |s| < 4 then Failure(InvalidBase64)
    else if |s| == 4 then DecodeFinalQuantum(s)
    else
      var head :- DecodeFullQuantum(s[..4]);
      var rest :- Decode(s[4..]);
      Success(head + rest)
  }

  lemma TripleRoundTrip(b0: byte, b1: byte, b2: byte)
    ensures var q := EncodeTriple(b0, b1, b2);
      DecodeTriple(IndexOf(q[0]), IndexOf(q[1]), IndexOf(q[2]), IndexOf(q[3])) == [b0, b1, b2]
  {
    var i0, i1, i2, i3 := b0 / 4, (b0 % 4) * 16 + b1 / 16, (b1 % 16) * 4 + b2 / 64, b2 % 64;
    IndexOfCharOf(i0); IndexOfCharOf(i1); IndexOfCharOf(i2); IndexOfCharOf(i3);
    assert i1 / 16 == b0 % 4 && i1 % 16 == b1 / 16;
    assert i2 / 4 == b1 % 16 && i2 % 4 == b2 / 64;
  }

  /** Splitting `hi * k + lo` back into its two parts, for the three radixes used here. */
  lemma Split4(hi: int, lo: int)
    requires 0 <= lo < 4
    ensures (hi * 4 + lo) / 4 == hi && (hi * 4 + lo) % 4 == lo
  {
  }

  lemma Split16(hi: int, lo: int)
    requires 0 <= lo < 16
    ensures (hi * 16 + lo) / 16 == hi && (hi * 16 + lo) % 16 == lo
  {
  }

  lemma Split64(hi: int, lo: int)
    requires 0 <= lo < 64
    ensures (hi * 64 + lo) / 64 == hi && (hi * 64 + lo) % 64 == lo
  {
  }

  lemma SextetsRoundTrip(i0: int, i1: int, i2: int, i3: int)
    requires 0 <= i0 < 64 && 0 <= i1 < 64 && 0 <= i2 < 64 && 0 <= i3 < 64
    ensures var b := DecodeTriple(i0, i1, i2, i3);
      EncodeTriple(b[0], b[1], b[2]) == [CharOf(i0), CharOf(i1), CharOf(i2), CharOf(i3)]
  {
    var b0: byte, b1: byte, b2: byte := i0 * 4 + i1 / 16, (i1 % 16) * 16 + i2 / 4, (i2 % 4) * 64 + i3;
    assert DecodeTriple(i0, i1, i2, i3) == [b0, b1, b2];
    Split4(i0, i1 / 16);
    Split16(i1 % 16, i2 / 4);
    Split64(i2 % 4, i3);
    Split16(i1 / 16, i1 % 16);
    Split4(i2 / 4, i2 % 4);
    assert b0 / 4 == i0;
    assert (b0 % 4) * 16 + b1 / 16 == i1;
    assert (b1 % 16) * 4 + b2 / 64 == i2;
    assert b2 % 64 == i3;
  }

  lemma DecodeFullOfTriple(b0: byte, b1: byte, b2: byte)
    ensures DecodeFullQuantum(EncodeTriple(b0, b1, b2)) == Success([b0, b1, b2])
  {
    TripleRoundTrip(b0, b1, b2);
  }

  lemma DecodeLastTriple(b0: byte, b1: byte, b2: byte)
    ensures Decode(EncodeTriple(b0, b1, b2)) == Success([b0, b1, b2])
  {
    TripleRoundTrip(b0, b1, b2);
  }


  lemma DecodeSingle(b0: byte)
    ensures Decode(EncodeSingle(b0)) == Success([b0])
  {
    var i0, i1 := b0 / 4, (b0 % 4) * 16;
    IndexOfCharOf(i0); IndexOfCharOf(i1);
    Split16(b0 % 4, 0);
    Split4(i0, b0 % 4);
    var q := EncodeSingle(b0);
    assert DecodeFinalQuantum(q) == Success([i0 * 4 + i1 / 16]);
  }

  lemma DecodePair(b0: byte, b1: byte)
    ensures Decode(EncodePair(b0, b1)) == Success([b0, b1])
  {
    var i0, i1, i2 := b0 / 4, (b0 % 4) * 16 + b1 / 16, (b1 % 16) * 4;
    IndexOfCharOf(i0); IndexOfCharOf(i1); IndexOfCharOf(i2);
    Split4(i0, b0 % 4);
    Split16(b0 % 4, b1 / 16);
    Split4(b1 % 16, 0);
    Split16(b1 / 16, b1 % 16);
    var q := EncodePair(b0, b1);
    assert q[2] != '=' && IsBase64Char(q[2]);
    assert i0 * 4 + i1 / 16 == b0;
    assert (i1 % 16) * 16 + i2 / 4 == b1;
    assert DecodeFinalQuantum(q) == Success([b0, b1]);
  }

  lemma EncodeShort(bs: seq<byte>)
    requires 1 <= |bs| <= 2
    ensures |bs| == 1 ==> bs == [bs[0]] && Encode(bs) == EncodeSingle(bs[0])
    ensures |bs| == 2 ==> bs == [bs[0], bs[1]] && Encode(bs) == EncodePair(bs[0], bs[1])
  {
  }

  lemma DecodeThree(b0: byte, b1: byte, b2: byte)
    ensures Decode(Encode([b0, b1, b2])) == Success([b0, b1, b2])
  {
    EncodeOfThree([b0, b1, b2]);
    DecodeLastTriple(b0, b1, b2);
  }

  lemma EncodeOfThree(bs: seq<byte>)
    requires |bs| == 3
    ensures Encode(bs) == EncodeTriple(bs[0], bs[1], bs[2])
  {
    assert |bs[3..]| == 0;
    assert Encode(bs[3..]) == "";
  }

  /** Decoding a full quantum followed by more input. */
  lemma DecodeAppend(q: string, r: string, b: seq<byte>, rest: seq<byte>)
    requires |q| == 4 && |r| > 0
    requires DecodeFullQuantum(q) == Success(b) && Decode(r) == Success(rest)
    ensures Decode(q + r) == Success(b + rest)
  {
    var s := q + r;
    assert s[..4] == q && s[4..] == r;
  }


  lemma SplitThree<T>(s: seq<T>)
    requires |s| >= 3
    ensures s == [s[0], s[1], s[2]] + s[3..]
  {
  }

  lemma EncodeUnfold(bs: seq<byte>)
    requires |bs| >= 3
    ensures Encode(bs) == EncodeTriple(bs[0], bs[1], bs[2]) + Encode(bs[3..])
  {
  }

  /** One step of the round trip: a leading triple in front of bytes that already round-trip. */
  lemma DecodeEncodeStep(bs: seq<byte>, rest: seq<byte>, tail: string)
    requires |bs| > 3 && rest == bs[3..] && tail == Encode(rest)
    requires Decode(tail) == Success(rest)
    ensures Decode(Encode(bs)) == Success(bs)
  {
    var head := EncodeTriple(bs[0], bs[1], bs[2]);
    EncodeUnfold(bs);
    DecodeFullOfTriple(bs[0], bs[1], bs[2]);
    DecodeAppend(head, tail, [bs[0], bs[1], bs[2]], rest);
    SplitThree(bs);
  }

  /** Round trip: decoding what `Encode` wrote gives back the bytes. */
  lemma {:induction false} DecodeEncode(bs: seq<byte>)
    ensures Decode(Encode(bs)) == Success(bs)
    decreases |bs|
  {
    if |bs| == 1 {
      EncodeShort(bs);
      DecodeSingle(bs[0]);
    } else if |bs| == 2 {
      EncodeShort(bs);
      DecodePair(bs[0], bs[1]);
    } else if |bs| == 3 {
      assert bs == [bs[0], bs[1], bs[2]];
      DecodeThree(bs[0], bs[1], bs[2]);
    } else if |bs| > 3 {
      DecodeEncode(bs[3..]);
      DecodeEncodeStep(bs, bs[3..], Encode(bs[3..]));
    }
  }

  lemma FullQuantumRenders(q: string)
    requires |q| == 4 && DecodeFullQuantum(q).Success?
    ensures var b := DecodeFullQuantum(q).value; |b| == 3 && EncodeTriple(b[0], b[1], b[2]) == q
  {
    SextetsRoundTrip(IndexOf(q[0]), IndexOf(q[1]), IndexOf(q[2]), IndexOf(q[3]));
  }

  lemma FinalQuantumRenders(q: string)
    requires |q| == 4 && DecodeFinalQuantum(q).Success?
    ensures 1 <= |DecodeFinalQuantum(q).value| <= 3
    ensures Encode(DecodeFinalQuantum(q).value) == q
  {
    var b := DecodeFinalQuantum(q).value;
    var i0, i1 := IndexOf(q[0]), IndexOf(q[1]);
    if q[2] == '=' && q[3] == '=' {
      assert b == [i0 * 4 + i1 / 16];
      assert (i0 * 4 + i1 / 16) / 4 == i0 && ((i0 * 4 + i1 / 16) % 4) * 16 == i1;
    } else if IsBase64Char(q[2]) && q[3] == '=' {
      var i2 := IndexOf(q[2]);
      var b0, b1 := i0 * 4 + i1 / 16, (i1 % 16) * 16 + i2 / 4;
      assert b == [b0, b1];
      assert b0 / 4 == i0 && (b0 % 4) * 16 + b1 / 16 == i1 && (b1 % 16) * 4 == i2;
    } else {
      FullQuantumRenders(q);
      assert Encode(b) == EncodeTriple(b[0], b[1], b[2]) + Encode(b[3..]);
    }
  }

  /** Converse round trip: any string `Decode` accepts is exactly the encoding of what it returns. */
  lemma {:induction false} EncodeDecode(s: string)
    requires Decode(s).Success?
    ensures Encode(Decode(s).value) == s
    decreases |s|
  {
    if |s| == 4 {
      FinalQuantumRenders(s);
    } else if |s| > 4 {
      var head := DecodeFullQuantum(s[..4]).value;
      var rest := Decode(s[4..]).value;
      FullQuantumRenders(s[..4]);
      EncodeDecode(s[4..]);
      assert |rest| > 0 by {
        assert |Encode(rest)| > 0;
      }
      var b := head + rest;
      assert b[3..] == rest;
      assert Encode(b) == EncodeTriple(b[0], b[1], b[2]) + Encode(b[3..]);
      assert s == s[..4] + s[4..];
    }
  }

  /** Text that is not base64, such as ordinary prose, is rejected with the "Invalid base64" message. */
  lemma RejectsProse()
    ensures Decode("not base64 encoded data") == Failure(InvalidBase64)
  {
    var s := "not base64 encoded data";
    assert !IsBase64Char(s[3]);
    assert s[..4][3] == s[3];
  }
}
