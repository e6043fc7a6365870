/** The byte-level decoder of the image upload handler: find the first
    CR LF CR LF window, decode everything up to and including it as header
    text, keep the rest as the payload, and read the file name and device
    identifier out of the header. */
module UploadDecoder {
  import opened Wrappers
  import opened JsString
  import opened NodeBuffer

  /** The result of decoding one upload body. */
  datatype Upload = Upload(header: string, fileName: string, deviceId: string, payload: seq<Byte>)

  /** The four bytes at `i` are CR LF CR LF. */
  predicate MatchAt(buf: seq<Byte>, i: int)
  {
    0 <= i && i + 4 <= |buf| && buf[i..i + 4] == Terminator
  }

  /** No terminator window starts in `[from, to)`. */
  ghost predicate NoMatchBetween(buf: seq<Byte>, from: int, to: int)
  {
    forall j :: from <= j < to ==> !MatchAt(buf, j)
  }

  /** The scan loop entered with `offset == from`: the payload start after the
      first window at or after `from`, `from` itself once the loop condition
      fails, and `None` where `readUInt32BE` throws because fewer than four
      bytes remain. */
  function ScanFrom(buf: seq<Byte>, from: nat): (r: Option<nat>)
    requires from <= |buf|
    decreases |buf| - from
    ensures r.Some? ==>
      (from == |buf| && r.value == from) ||
      (from + 4 <= r.value <= |buf| && MatchAt(buf, r.value - 4) && NoMatchBetween(buf, from, r.value - 4))
    ensures r.None? ==> from < |buf| && NoMatchBetween(buf, from, |buf|)
  {
    if from == |buf| then Some(from)
    else match ReadUInt32BE(buf, from)
      case None => None
      case Some(v) =>
        WindowTestExact(buf, from);
        if ToHex(v) == TerminatorHex then Some(from + 4)
        else ScanFrom(buf, from + 1)
  }

  /** The payload start: four past the first CR LF CR LF window, found with a
      stride of one byte. An empty buffer never enters the loop and yields 0;
      a non-empty buffer without a window fails. */
  function Scan(buf: seq<Byte>): (r: Option<nat>)
    ensures |buf| == 0 ==> r == Some(0)
    ensures 0 < |buf| ==> (r.Some? <==> exists m :: MatchAt(buf, m))
    ensures 0 < |buf| && r.Some? ==>
      4 <= r.value <= |buf| && MatchAt(buf, r.value - 4) && NoMatchBetween(buf, 0, r.value - 4)
  {
    ScanFrom(buf, 0)
  }

  /** The scan as the source writes it, a while loop over `offset`. */
  method FindPayloadStart(buf: seq<Byte>) returns (r: Option<nat>)
    ensures r == Scan(buf)
  {
    var offset: nat := 0;
    while offset < |buf|
      invariant offset <= |buf|
      invariant ScanFrom(buf, offset) == Scan(buf)
      decreases |buf| - offset
    {
      var fourBytes := ReadUInt32BE(buf, offset);
      if fourBytes.None? {
        return None;
      }
      if ToHex(fourBytes.value) == TerminatorHex {
        return Some(offset + 4);
      }
      offset := offset + 1;
    }
    return Some(offset);
  }

  /** The header loop: one `String.fromCharCode` per byte before `offset`. */
  method DecodeHeader(buf: seq<Byte>, offset: nat) returns (header: string)
    requires offset <= |buf|
    ensures |header| == offset
    ensures forall k :: 0 <= k < offset ==> header[k] as int == buf[k]
  {
    header := "";
    var i := 0;
    while i < offset
      invariant i <= offset
      invariant |header| == i
      invariant forall k :: 0 <= k < i ==> header[k] as int == buf[k]
    {
      header := header + [FromCharCode(buf[i])];
      i := i + 1;
    }
  }

  /** The attribute the file name is read from, and the length skipped over
      (`filename="` including the opening quote). */
  const FileNameKey: string := "filename="
  const FileNameSkip: nat := 10

  /** The file name: from ten characters past the first `filename=` up to
      the next `"`, with JavaScript's clamping of the -1 results of
      `indexOf`. */
  function FileName(header: string): (r: string)
    ensures |r| <= |header|
  {
    var fn := IndexOf(header, FileNameKey, 0);
    var start := fn + FileNameSkip;
    var end := IndexOf(header, "\"", start);
    Substring(header, start, end)
  }

  /** The device identifier: the file name up to its first `_`. */
  function DeviceId(fileName: string): (r: string)
    ensures '_' in fileName ==>
      |r| < |fileName| && r == fileName[..|r|] && fileName[|r|] == '_' && '_' !in r
    ensures '_' !in fileName ==> r == ""
  {
    var end := IndexOf(fileName, "_", 0);
    if end == -1 then
      assert forall k :: 0 <= k < |fileName| ==> fileName[k] != '_' by {
        forall k | 0 <= k < |fileName| {
          OccursAtChar(fileName, '_', k);
        }
      }
      Substring(fileName, 0, end)
    else
      OccursAtChar(fileName, '_', end);
      assert forall k :: 0 <= k < end ==> fileName[k] != '_' by {
        forall k | 0 <= k < end {
          OccursAtChar(fileName, '_', k);
        }
      }
      Substring(fileName, 0, end)
  }

  /** The whole decoder, lines 110-142 of the handler. */
  function Decode(buf: seq<Byte>): (r: Option<Upload>)
    ensures r.Some? <==> |buf| == 0 || exists m :: MatchAt(buf, m)
    ensures r.Some? ==> IsLatin1(r.value.header) && Latin1Encode(r.value.header) + r.value.payload == buf
    ensures r.Some? ==> forall k :: 0 <= k < |r.value.header| ==> r.value.header[k] as int == buf[k]
    ensures r.Some? && 0 < |buf| ==>
      4 <= |r.value.header| && r.value.header[|r.value.header| - 4..] == "\r\n\r\n" &&
      NoMatchBetween(buf, 0, |r.value.header| - 4)
    ensures r.Some? ==> r.value.fileName == FileName(r.value.header)
    ensures r.Some? ==> r.value.deviceId == DeviceId(r.value.fileName)
  {
    match Scan(buf)
    case None => None
    case Some(offset) =>
      var header := Latin1Decode(buf[..offset]);
      var fileName := FileName(header);
      SplitIsLossless(buf, offset);
      Some(Upload(header, fileName, DeviceId(fileName), buf[offset..]))
  }

  /** The handler's decoding steps in the source's order: the scan loop, the
      header loop, the slice, then the two metadata reads. */
  method DecodeUpload(buf: seq<Byte>) returns (r: Option<Upload>)
    ensures r == Decode(buf)
  {
    var start := FindPayloadStart(buf);
    if start.None? {
      return None;
    }
    var offset := start.value;
    var header := DecodeHeader(buf, offset);
    assert header == Latin1Decode(buf[..offset]);
    var fileName := FileName(header);
    var deviceId := DeviceId(fileName);
    r := Some(Upload(header, fileName, deviceId, buf[offset..]));
  }

  /** Re-encoding the header text and appending the payload gives back the
      buffer; when the header ends at a window, it ends with CR LF CR LF. */
  lemma SplitIsLossless(buf: seq<Byte>, offset: nat)
    requires offset <= |buf|
    ensures IsLatin1(Latin1Decode(buf[..offset]))
    ensures Latin1Encode(Latin1Decode(buf[..offset])) + buf[offset..] == buf
    ensures 4 <= offset && MatchAt(buf, offset - 4) ==> Latin1Decode(buf[..offset])[offset - 4..] == "\r\n\r\n"
  {
    var header := Latin1Decode(buf[..offset]);
    Latin1EncodeDecode(buf[..offset]);
    assert buf[..offset] + buf[offset..] == buf;
    if 4 <= offset && MatchAt(buf, offset - 4) {
      assert buf[offset - 4..offset] == Terminator;
      var tail := header[offset - 4..];
      assert tail[0] as int == 13 && tail[1] as int == 10 && tail[2] as int == 13 && tail[3] as int == 10;
    }
  }
}
