/** bfe_log_reader/pb_buff_parse.go: frames to records. Protobuf decoding is a partial function
    that the theorems leave arbitrary. */
module PbParse {
  import opened Sequences
  import opened Framing

  /** The records of the frames that decode; the others are skipped. */
  function Records<R>(f: Framer, decode: Bytes -> Option<R>, buf: Bytes): seq<R> {
    FilterMap(decode, f.Frames(buf))
  }

  lemma RecordsAppend<R>(f: Framer, decode: Bytes -> Option<R>, a: Bytes, b: Bytes)
    requires f.Lawful()
    ensures Records(f, decode, a + b) == Records(f, decode, a) + Records(f, decode, f.Rest(a) + b)
  {
    f.Append(a, b);
    FilterMapAppend(decode, f.Frames(a), f.Frames(f.Rest(a) + b));
  }

  /** Decodes the frames of a buffer one after the other, counting those that fail. */
  method PbBuffParse<R>(f: Framer, decode: Bytes -> Option<R>, buffer: Bytes)
      returns (records: seq<R>, rest: Bytes, failures: nat)
    ensures records == Records(f, decode, buffer)
    ensures rest == f.Rest(buffer)
    ensures failures + |records| == |f.Frames(buffer)|
  {
    var parsed := f.parse(buffer);
    rest := parsed.rest;
    records, failures := [], 0;
    for i := 0 to |parsed.frames|
      invariant records == FilterMap(decode, parsed.frames[..i])
      invariant failures + |records| == i
    {
      assert parsed.frames[..i + 1] == parsed.frames[..i] + [parsed.frames[i]];
      FilterMapAppend(decode, parsed.frames[..i], [parsed.frames[i]]);
      match decode(parsed.frames[i])
      case None => failures := failures + 1;
      case Some(r) => records := records + [r];
    }
    assert parsed.frames[..|parsed.frames|] == parsed.frames;
  }
}
