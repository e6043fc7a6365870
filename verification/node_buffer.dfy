/** The pieces of Node's `Buffer`, `Number` and `String` behaviour that the
    upload decoder touches: `readUInt32BE`, `Number.prototype.toString(16)` and
    `String.fromCharCode` applied to single bytes. */
module NodeBuffer {
  import opened Wrappers

  /** One octet of a `Buffer`. */
  type Byte = b: int | 0 <= b < 256

  const TwoTo32: nat := 0x1_0000_0000

  /** The four bytes `writeUInt32BE(v)` would store, most significant first. */
  function BytesOfUInt32(v: nat): (bs: seq<Byte>)
    requires v < TwoTo32
    ensures |bs| == 4
  {
    [((v / 256) / 256) / 256, ((v / 256) / 256) % 256, (v / 256) % 256, v % 256]
  }

  /** `buf.readUInt32BE(offset)`: the big-endian unsigned value of the four
      bytes at `offset`; a range error (`None`) when fewer than four remain. */
  function ReadUInt32BE(buf: seq<Byte>, offset: nat): (r: Option<nat>)
    ensures r.Some? <==> offset + 4 <= |buf|
    ensures r.Some? ==> r.value < TwoTo32 && BytesOfUInt32(r.value) == buf[offset..offset + 4]
  {
    if |buf| < offset + 4 then None
    else
      DigitsOfBase256(buf[offset], buf[offset + 1], buf[offset + 2], buf[offset + 3]);
      Some(UInt32Of(buf[offset], buf[offset + 1], buf[offset + 2], buf[offset + 3]))
  }

  /** The value of four bytes read most significant first. */
  function UInt32Of(b0: Byte, b1: Byte, b2: Byte, b3: Byte): nat
  {
    ((b0 as int * 256 + b1) * 256 + b2) * 256 + b3
  }

  /** Base-256 digits can be read back from the value they build. */
  lemma DigitsOfBase256(b0: Byte, b1: Byte, b2: Byte, b3: Byte)
    ensures UInt32Of(b0, b1, b2, b3) < TwoTo32
    ensures BytesOfUInt32(UInt32Of(b0, b1, b2, b3)) == [b0, b1, b2, b3]
  {
    var x1 := b0 as int * 256 + b1;
    var x2 := x1 * 256 + b2;
    var v := x2 * 256 + b3;
    DivModDigit(x2, b3);
    DivModDigit(x1, b2);
    DivModDigit(b0, b1);
    assert x1 < 256 * 256;
    assert x2 < 256 * 256 * 256;
  }

  lemma DivModDigit(hi: nat, lo: Byte)
    ensures (hi * 256 + lo) / 256 == hi && (hi * 256 + lo) % 256 == lo
  {
  }

  /** The lower-case hexadecimal digit for `d`. */
  function HexDigit(d: nat): (c: char)
    requires d < 16
  {
    if d < 10 then ('0' as int + d) as char else ('a' as int + d - 10) as char
  }

  predicate IsHexDigit(c: char)
  {
    '0' <= c <= '9' || 'a' <= c <= 'f'
  }

  /** The value of a lower-case hexadecimal digit. */
  function HexValue(c: char): (d: nat)
    requires IsHexDigit(c)
    ensures d < 16 && HexDigit(d) == c
    ensures forall e :: 0 <= e < 16 && HexDigit(e) == c ==> e == d
  {
    if c <= '9' then c as int - '0' as int else c as int - 'a' as int + 10
  }

  /** `n.toString(16)` for a non-negative integer: lower-case digits, most
      significant first, without leading zeros. */
  function ToHex(n: nat): (s: string)
    decreases n
    ensures 1 <= |s|
    ensures forall k :: 0 <= k < |s| ==> IsHexDigit(s[k])
    ensures s[0] == '0' ==> n == 0
  {
    if n < 16 then [HexDigit(n)] else ToHex(n / 16) + [HexDigit(n % 16)]
  }

  /** The value denoted by a string of lower-case hexadecimal digits. */
  function FromHex(s: string): (n: nat)
    requires forall k :: 0 <= k < |s| ==> IsHexDigit(s[k])
    decreases |s|
  {
    if |s| == 0 then 0 else FromHex(s[..|s| - 1]) * 16 + HexValue(s[|s| - 1])
  }

  /** Appending a digit multiplies by sixteen and adds the digit. */
  lemma FromHexAppend(s: string, c: char)
    requires forall k :: 0 <= k < |s| ==> IsHexDigit(s[k])
    requires IsHexDigit(c)
    ensures FromHex(s + [c]) == FromHex(s) * 16 + HexValue(c)
  {
    assert (s + [c])[..|s|] == s;
  }

  /** Reading the hexadecimal text back gives the number it was printed from,
      so two numbers with the same `toString(16)` are equal. */
  lemma {:induction false} FromHexToHex(n: nat)
    ensures FromHex(ToHex(n)) == n
    decreases n
  {
    if 16 <= n {
      var q, d := n / 16, n % 16;
      FromHexToHex(q);
      FromHexAppend(ToHex(q), HexDigit(d));
      assert ToHex(n) == ToHex(q) + [HexDigit(d)];
    }
  }

  /** The hexadecimal text the scan compares against. */
  const TerminatorHex: string := "d0a0d0a"

  /** The big-endian value of the bytes CR LF CR LF. */
  const TerminatorValue: nat := 0x0D0A0D0A

  /** `toString(16)` drops leading zeros, so comparing it with "d0a0d0a"
      accepts exactly one 32-bit value. */
  lemma HexMatchesExactly(v: nat)
    ensures ToHex(v) == TerminatorHex <==> v == TerminatorValue
  {
    if ToHex(v) == TerminatorHex {
      FromHexToHex(v);
      FromHexOfTerminatorHex();
    }
    if v == TerminatorValue {
      ToHexOfTerminatorValue();
    }
  }

  lemma FromHexOfTerminatorHex()
    ensures FromHex(TerminatorHex) == TerminatorValue
  {
    FromHexAppend("", 'd');
    assert "d" == "" + ['d'];
    FromHexAppend("d", '0');
    assert "d0" == "d" + ['0'];
    FromHexAppend("d0", 'a');
    assert "d0a" == "d0" + ['a'];
    FromHexAppend("d0a", '0');
    assert "d0a0" == "d0a" + ['0'];
    FromHexAppend("d0a0", 'd');
    assert "d0a0d" == "d0a0" + ['d'];
    FromHexAppend("d0a0d", '0');
    assert "d0a0d0" == "d0a0d" + ['0'];
    FromHexAppend("d0a0d0", 'a');
    assert "d0a0d0a" == "d0a0d0" + ['a'];
  }

  lemma ToHexOfTerminatorValue()
    ensures ToHex(TerminatorValue) == TerminatorHex
  {
    assert ToHex(0xd) == "d";
    assert ToHex(0xd0) == "d" + "0";
    assert ToHex(0xd0a) == "d0" + "a";
    assert ToHex(0xd0a0) == "d0a" + "0";
    assert ToHex(0xd0a0d) == "d0a0" + "d";
    assert ToHex(0xd0a0d0) == "d0a0d" + "0";
    assert ToHex(0xd0a0d0a) == "d0a0d0" + "a";
  }

  /** The four terminator bytes CR LF CR LF. */
  const Terminator: seq<Byte> := [13, 10, 13, 10]

  /** The source's window test `readUInt32BE(i).toString(16) == 'd0a0d0a'`
      holds exactly when the four bytes at `i` are CR LF CR LF. */
  lemma WindowTestExact(buf: seq<Byte>, i: nat)
    requires i + 4 <= |buf|
    ensures ToHex(ReadUInt32BE(buf, i).value) == TerminatorHex <==> buf[i..i + 4] == Terminator
  {
    var v := ReadUInt32BE(buf, i).value;
    assert v == UInt32Of(buf[i], buf[i + 1], buf[i + 2], buf[i + 3]);
    HexMatchesExactly(v);
    if v == TerminatorValue {
      TerminatorDigits();
    }
    if buf[i..i + 4] == Terminator {
      assert buf[i] == 13 && buf[i + 1] == 10 && buf[i + 2] == 13 && buf[i + 3] == 10;
    }
  }

  lemma TerminatorDigits()
    ensures BytesOfUInt32(TerminatorValue) == Terminator
  {
  }

  /** `String.fromCharCode(b)` for a byte: the character whose code is `b`. */
  function FromCharCode(b: Byte): (c: char)
    ensures c as int == b
  {
    b as char
  }

  /** A string every character of which is a single byte. */
  predicate IsLatin1(s: string)
  {
    forall k :: 0 <= k < |s| ==> s[k] as int < 256
  }

  /** The byte-for-byte decoding of a buffer into text. */
  function Latin1Decode(bytes: seq<Byte>): (s: string)
    ensures |s| == |bytes|
    ensures forall k :: 0 <= k < |bytes| ==> s[k] as int == bytes[k]
  {
    seq(|bytes|, k requires 0 <= k < |bytes| => FromCharCode(bytes[k]))
  }

  /** The inverse of `Latin1Decode` on single-byte text. */
  function Latin1Encode(s: string): (bytes: seq<Byte>)
    requires IsLatin1(s)
    ensures |bytes| == |s|
    ensures forall k :: 0 <= k < |s| ==> bytes[k] == s[k] as int
  {
    seq(|s|, k requires 0 <= k < |s| => s[k] as int)
  }

  lemma Latin1DecodeEncode(s: string)
    requires IsLatin1(s)
    ensures Latin1Decode(Latin1Encode(s)) == s
  {
    var t := Latin1Decode(Latin1Encode(s));
    assert forall k :: 0 <= k < |s| ==> t[k] as int == s[k] as int;
  }

  lemma Latin1EncodeDecode(bytes: seq<Byte>)
    ensures IsLatin1(Latin1Decode(bytes))
    ensures Latin1Encode(Latin1Decode(bytes)) == bytes
  {
  }

  /** Decoding distributes over concatenation. */
  lemma Latin1DecodeAppend(a: seq<Byte>, b: seq<Byte>)
    ensures Latin1Decode(a + b) == Latin1Decode(a) + Latin1Decode(b)
  {
    var l, r := Latin1Decode(a + b), Latin1Decode(a) + Latin1Decode(b);
    assert forall k :: 0 <= k < |l| ==> l[k] as int == r[k] as int;
  }
}
