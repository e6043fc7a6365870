/** What the upload decoder promises its callers: where the file name comes
    from, that the payload is exactly what follows the first terminator, and
    that framing a name and a payload the way the device client does and then
    decoding gives both back. */
module UploadProperties {
  import opened Wrappers
  import opened JsString
  import opened NodeBuffer
  import opened UploadDecoder

  /** There is at most one first occurrence. */
  lemma FirstFromUnique(s: string, pat: string, from: int, k1: int, k2: int)
    requires FirstFrom(s, pat, from, k1) && FirstFrom(s, pat, from, k2)
    ensures k1 == k2
  {
  }

  /** `indexOf` returns the first occurrence at or after a non-negative
      `from`, whatever clamping it does. */
  lemma IndexOfFinds(s: string, pat: string, from: nat, k: int)
    requires FirstFrom(s, pat, from, k)
    ensures IndexOf(s, pat, from) == k
  {
    var r := IndexOf(s, pat, from);
    assert from <= |s|;
    FirstFromUnique(s, pat, from, r, k);
  }

  /** `indexOf` returns -1 when nothing occurs at or after `from`. */
  lemma IndexOfMisses(s: string, pat: string, from: nat)
    requires 0 < |pat|
    requires AbsentFrom(s, pat, from)
    ensures IndexOf(s, pat, from) == -1
  {
    forall k | Clamp(from, |s|) <= k
      ensures !OccursAt(s, pat, k)
    {
      if k < from {
        assert |s| < k + |pat|;
      }
    }
  }

  /** With `filename=` first at `f` and the next `"` from `f + 10` at `e`,
      the file name is the text strictly between them and holds no `"`. */
  lemma FileNameBetweenQuotes(header: string, f: nat, e: nat)
    requires FirstFrom(header, FileNameKey, 0, f)
    requires FirstFrom(header, "\"", f + FileNameSkip, e)
    ensures f + FileNameSkip <= e
    ensures FileName(header) == header[f + FileNameSkip..e]
    ensures '"' !in FileName(header)
  {
    IndexOfFinds(header, FileNameKey, 0, f);
    IndexOfFinds(header, "\"", f + FileNameSkip, e);
    var name := header[f + FileNameSkip..e];
    forall k | 0 <= k < |name|
      ensures name[k] != '"'
    {
      OccursAtChar(header, '"', f + FileNameSkip + k);
    }
  }

  /** With `filename=` first at `f` but no `"` after it, `substring(start, -1)`
      swaps its arguments and yields the header up to `f + 10`. */
  lemma FileNameUnclosed(header: string, f: nat)
    requires FirstFrom(header, FileNameKey, 0, f)
    requires AbsentFrom(header, "\"", f + FileNameSkip)
    ensures FileName(header) == header[..Clamp(f + FileNameSkip, |header|)]
  {
    IndexOfFinds(header, FileNameKey, 0, f);
    IndexOfMisses(header, "\"", f + FileNameSkip);
  }

  /** Without `filename=` the name starts at index 9 (-1 + 10) and runs to
      the first `"` from there. */
  lemma FileNameWithoutKey(header: string, e: nat)
    requires AbsentFrom(header, FileNameKey, 0)
    requires FirstFrom(header, "\"", FileNameSkip - 1, e)
    ensures FileName(header) == header[FileNameSkip - 1..e]
  {
    IndexOfMisses(header, FileNameKey, 0);
    IndexOfFinds(header, "\"", FileNameSkip - 1, e);
  }

  /** Without `filename=` and without a `"` from index 9 on, the name is the
      header's first nine characters. */
  lemma FileNameWithoutKeyUnclosed(header: string)
    requires AbsentFrom(header, FileNameKey, 0)
    requires AbsentFrom(header, "\"", FileNameSkip - 1)
    ensures FileName(header) == header[..Clamp(FileNameSkip - 1, |header|)]
  {
    IndexOfMisses(header, FileNameKey, 0);
    IndexOfMisses(header, "\"", FileNameSkip - 1);
  }

  /** The header text a client writes: anything, then `filename="`, the name,
      a closing `"`, then anything. */
  function FramedHeader(prefix: string, name: string, rest: string): string
  {
    prefix + FileNameKey + "\"" + name + "\"" + rest
  }

  /** The upload body a client sends: the header text byte for byte, the
      terminator, then the payload. */
  function Frame(prefix: string, name: string, rest: string, payload: seq<Byte>): seq<Byte>
    requires IsLatin1(FramedHeader(prefix, name, rest))
  {
    Latin1Encode(FramedHeader(prefix, name, rest)) + Terminator + payload
  }

  /** `filename=` contains the only `=` of `filename="`, so an occurrence
      starting inside the prefix lies wholly inside it. */
  lemma {:induction false} KeyFirstAfterPrefix(prefix: string, name: string, rest: string)
    requires AbsentFrom(prefix, FileNameKey, 0)
    ensures FirstFrom(FramedHeader(prefix, name, rest), FileNameKey, 0, |prefix|)
  {
    var h := FramedHeader(prefix, name, rest);
    assert h[|prefix|..|prefix| + 9] == FileNameKey;
    forall j | 0 <= j < |prefix|
      ensures !OccursAt(h, FileNameKey, j)
    {
      if j + 9 <= |prefix| {
        assert h[j..j + 9] == prefix[j..j + 9];
        assert !OccursAt(prefix, FileNameKey, j);
      } else {
        assert h[j + 8] == FileNameKey[j + 8 - |prefix|];
        assert h[j + 8] != '=';
        assert h[j..j + 9][8] == h[j + 8];
      }
    }
  }

  /** Framing a name that holds no `"` and reading it back gives the name. */
  lemma {:induction false} FileNameOfFramedHeader(prefix: string, name: string, rest: string)
    requires AbsentFrom(prefix, FileNameKey, 0)
    requires '"' !in name
    ensures FileName(FramedHeader(prefix, name, rest)) == name
  {
    var h := FramedHeader(prefix, name, rest);
    var start := |prefix| + FileNameSkip;
    var end := start + |name|;
    KeyFirstAfterPrefix(prefix, name, rest);
    assert h[start..end] == name;
    OccursAtChar(h, '"', end);
    forall j | start <= j < end
      ensures !OccursAt(h, "\"", j)
    {
      OccursAtChar(h, '"', j);
      assert h[j] == name[j - start];
    }
    assert FirstFrom(h, "\"", start, end);
    FileNameBetweenQuotes(h, |prefix|, end);
  }

  /** If no window starts inside `a`, the payload of `a ++ CR LF CR LF ++ b`
      is exactly `b`, whatever `b` holds, further terminators included. */
  lemma {:induction false} PayloadAfterTerminator(a: seq<Byte>, b: seq<Byte>)
    requires NoMatchBetween(a + Terminator + b, 0, |a|)
    ensures var header := Latin1Decode(a) + "\r\n\r\n";
      Decode(a + Terminator + b) == Some(Upload(header, FileName(header), DeviceId(FileName(header)), b))
  {
    var buf := a + Terminator + b;
    ScanFindsFirstWindow(buf, |a|);
    assert buf[|a| + 4..] == b;
    assert buf[..|a| + 4] == a + Terminator;
    DecodeAt(buf, |a| + 4);
    Latin1DecodeAppend(a, Terminator);
    assert Latin1Decode(Terminator) == "\r\n\r\n";
  }

  /** The scan stops at the first window and nowhere else. */
  lemma ScanFindsFirstWindow(buf: seq<Byte>, m: nat)
    requires m + 4 <= |buf| && buf[m..m + 4] == Terminator
    requires NoMatchBetween(buf, 0, m)
    ensures Scan(buf) == Some(m + 4)
  {
    assert MatchAt(buf, m);
    var offset := Scan(buf).value;
    assert !(offset - 4 < m);
    assert !MatchAt(buf, m) || !(m < offset - 4);
  }

  /** Decoding once the payload start is known. */
  lemma DecodeAt(buf: seq<Byte>, offset: nat)
    requires Scan(buf) == Some(offset)
    ensures offset <= |buf|
    ensures Decode(buf) ==
      var header := Latin1Decode(buf[..offset]);
      Some(Upload(header, FileName(header), DeviceId(FileName(header)), buf[offset..]))
  {
    if 0 < |buf| {
      assert offset <= |buf|;
    }
  }

  /** Header text without a carriage return cannot start a window. */
  lemma NoCarriageReturnNoMatch(text: string, rest: seq<Byte>)
    requires IsLatin1(text)
    requires '\r' !in text
    ensures NoMatchBetween(Latin1Encode(text) + rest, 0, |text|)
  {
    var buf := Latin1Encode(text) + rest;
    forall j | 0 <= j < |text|
      ensures !MatchAt(buf, j)
    {
      assert buf[j] == text[j] as int;
      assert text[j] != '\r';
      assert buf[j] != 13;
      if j + 4 <= |buf| {
        assert buf[j..j + 4][0] == buf[j];
      }
    }
  }

  /** Framing a file name and a payload and decoding the result gives back
      the name, its device identifier and the payload byte for byte. */
  lemma {:induction false} UploadRoundTrip(prefix: string, name: string, rest: string, payload: seq<Byte>)
    requires IsLatin1(FramedHeader(prefix, name, rest))
    requires AbsentFrom(prefix, FileNameKey, 0)
    requires '"' !in name
    requires NoMatchBetween(Frame(prefix, name, rest, payload), 0, |FramedHeader(prefix, name, rest)|)
    ensures Decode(Frame(prefix, name, rest, payload)) ==
      Some(Upload(FramedHeader(prefix, name, rest) + "\r\n\r\n", name, DeviceId(name), payload))
  {
    var text := FramedHeader(prefix, name, rest);
    var bytes := Latin1Encode(text);
    PayloadAfterTerminator(bytes, payload);
    Latin1DecodeEncode(text);
    FramedHeaderAppend(prefix, name, rest, "\r\n\r\n");
    FileNameOfFramedHeader(prefix, name, rest + "\r\n\r\n");
  }

  /** Text appended after a framed header belongs to its trailing part. */
  lemma FramedHeaderAppend(prefix: string, name: string, rest: string, tail: string)
    ensures FramedHeader(prefix, name, rest) + tail == FramedHeader(prefix, name, rest + tail)
  {
  }

  /** The terminator is found at any byte position, not only at multiples of
      four: here it starts at index 1. */
  lemma UnalignedTerminator()
    ensures Scan([65, 13, 10, 13, 10, 66]) == Some(5)
  {
    var buf: seq<Byte> := [65, 13, 10, 13, 10, 66];
    assert buf[0..4][0] == 65;
    ScanFindsFirstWindow(buf, 1);
  }

  /** A non-empty body without a terminator makes `readUInt32BE` throw. */
  lemma MissingTerminatorFails()
    ensures Decode([13, 10, 13]) == None
  {
  }

  /** An empty body never enters the scan loop and decodes to empty fields. */
  lemma EmptyBodyDecodes()
    ensures Decode([]) == Some(Upload("", "", "", []))
  {
  }

  /** A name with an underscore yields the part before it. */
  lemma DeviceIdBeforeUnderscore()
    ensures DeviceId("device42_photo.png") == "device42"
  {
    var n := "device42_photo.png";
    assert n[8] == '_';
    assert '_' !in n[..8] by {
      forall k | 0 <= k < 8
        ensures n[..8][k] != '_'
      {
      }
    }
    var d := DeviceId(n);
    assert 8 <= |d|;
    assert n[..8] == "device42";
  }

  /** A name without an underscore, such as the one in the handler's header
      comment, yields the empty identifier rather than the whole name. */
  lemma DeviceIdWithoutUnderscore()
    ensures DeviceId("EDU-43E028C7-c4-b3-01-8d-9b-8c") == ""
  {
    var n := "EDU-43E028C7-c4-b3-01-8d-9b-8c";
    assert '_' !in n by {
      forall k | 0 <= k < |n|
        ensures n[k] != '_'
      {
      }
    }
  }
}
