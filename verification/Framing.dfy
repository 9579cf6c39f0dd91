/** What the readers need to know about the framing of a log: a framer turns a buffer into the
    payloads of its complete frames and the bytes to keep for the next call. Everything the
    readers do with it rests on two laws, which the b2log framing obeys (module B2log). */
module Framing {
  import opened Sequences

  type Byte = x: int | 0 <= x < 256
  type Bytes = seq<Byte>

  /** A frame announces at most this many bytes, header included. */
  const MAX_FRAME: nat := 102424

  datatype Parsed = Parsed(frames: seq<Bytes>, rest: Bytes)

  datatype Framer = Framer(parse: Bytes -> Parsed) {
    function Frames(b: Bytes): seq<Bytes> {
      parse(b).frames
    }

    function Rest(b: Bytes): Bytes {
      parse(b).rest
    }

    /** Parsing `a + b` is parsing `a`, then parsing what was left followed by `b`. */
    ghost predicate SplitsAt(a: Bytes, b: Bytes) {
      parse(a + b) == Parsed(Frames(a) + Frames(Rest(a) + b), Rest(Rest(a) + b))
    }

    /** What is left is the end of the buffer, less than one frame, and shorter than the buffer
        if a frame was found. */
    ghost predicate KeepsTail(b: Bytes) {
      && |Rest(b)| <= |b| && Rest(b) == b[|b| - |Rest(b)|..]
      && |Rest(b)| < MAX_FRAME
      && (Frames(b) != [] ==> |Rest(b)| < |b|)
    }

    ghost predicate Lawful() {
      && (forall a: Bytes, b: Bytes :: SplitsAt(a, b))
      && (forall b: Bytes :: KeepsTail(b))
    }

    lemma Append(a: Bytes, b: Bytes)
      requires Lawful()
      ensures Frames(a + b) == Frames(a) + Frames(Rest(a) + b)
      ensures Rest(a + b) == Rest(Rest(a) + b)
    {
      assert SplitsAt(a, b);
    }

    /** Parsing the leftover again finds nothing and leaves it as it is. */
    lemma RestIsIdle(b: Bytes)
      requires Lawful()
      ensures Frames(Rest(b)) == [] && Rest(Rest(b)) == Rest(b)
      ensures |Rest(b)| <= |b|
      ensures |Rest(b)| < MAX_FRAME
    {
      assert KeepsTail(b);
      var none: Bytes := [];
      assert b + none == b && Rest(b) + none == Rest(b);
      assert SplitsAt(b, none);
      assert |Frames(b)| == |Frames(b) + Frames(Rest(b))|;
    }

    lemma NothingToParse()
      requires Lawful()
      ensures parse([]) == Parsed([], [])
    {
      assert KeepsTail([]);
    }

    /** A parser that starts empty at the end of `a` finds what one parse of the whole stream
        finds there, whatever follows. */
    ghost predicate SeamlessAt(a: Bytes) {
      forall b: Bytes :: Frames(a + b) == Frames(a) + Frames(b)
    }

    /** The end of a frame is such a place. */
    lemma BoundaryIsSeamless(a: Bytes)
      requires Lawful() && Rest(a) == []
      ensures SeamlessAt(a)
    {
      forall b: Bytes
        ensures Frames(a + b) == Frames(a) + Frames(b)
      {
        Append(a, b);
        assert Rest(a) + b == b;
      }
    }

    /** Feeding the framer one slice at a time: each slice goes behind what the last call left. */
    function Feed(rest: Bytes, slices: seq<Bytes>): Parsed
      decreases |slices|
    {
      if slices == [] then Parsed([], rest)
      else
        var now := parse(rest + slices[0]);
        var later := Feed(now.rest, slices[1..]);
        Parsed(now.frames + later.frames, later.rest)
    }

    /** However a stream is cut into slices, the frames that come out and the bytes that stay
        behind are those of one parse of the whole stream. */
    lemma {:induction false} SlicingDoesNotMatter(rest: Bytes, slices: seq<Bytes>)
      requires Lawful()
      requires parse(rest) == Parsed([], rest)
      ensures Feed(rest, slices) == parse(rest + Flatten(slices))
      decreases |slices|
    {
      if slices == [] {
        assert rest + Flatten(slices) == rest;
      } else {
        var tail := Flatten(slices[1..]);
        assert rest + Flatten(slices) == (rest + slices[0]) + tail;
        Append(rest + slices[0], tail);
        RestIsIdle(rest + slices[0]);
        SlicingDoesNotMatter(Rest(rest + slices[0]), slices[1..]);
      }
    }
  }
}
