/** Length-prefixed framing: a 32-bit little-endian payload length, then the
    payload. The payload codec is a parameter, known only to decode what it
    encoded. */
module Codec {
  import opened Prelude

  type Byte = b: int | 0 <= b < 256
  type Bytes = seq<Byte>

  const U32: nat := 0x1_0000_0000

  const CONTROL_MAGIC: Bytes := [0x45, 0x54, 0x55, 0x4e]
  const PROTOCOL_VERSION: nat := 3

  /** A payload codec: encoding may fail, decoding inverts encoding. */
  ghost predicate LeftInverse<T(!new)>(enc: T -> Option<Bytes>, dec: Bytes -> Option<T>) {
    forall x :: enc(x).Some? ==> dec(enc(x).value) == Some(x)
  }

  // ----- little-endian integers -----

  /** The low 32 bits of `n`, least significant byte first. */
  function Le32(n: nat): (b: Bytes)
    ensures |b| == 4
  {
    [n % 256, n / 256 % 256, n / 0x1_0000 % 256, n / 0x100_0000 % 256]
  }

  function FromLe32(b: Bytes): (n: nat)
    requires |b| == 4
    ensures n < U32
  {
    b[0] as int + 256 * (b[1] as int) + 0x1_0000 * (b[2] as int) + 0x100_0000 * (b[3] as int)
  }

  function FromLe16(b: Bytes): (n: nat)
    requires |b| == 2
    ensures n < 0x1_0000
  {
    b[0] as int + 256 * (b[1] as int)
  }

  /** The prefix carries the length modulo 2^32, as the cast to 32 bits does. */
  lemma Le32Inverse(n: nat)
    ensures FromLe32(Le32(n)) == n % U32
  {
    var q := n / 0x100_0000;
    assert n / 0x1_0000 / 256 == q && n / 256 / 256 == n / 0x1_0000;
    assert n == 0x100_0000 * q + 0x1_0000 * (n / 0x1_0000 % 256) + 256 * (n / 256 % 256) + n % 256;
    assert q == 256 * (q / 256) + q % 256;
    assert n == U32 * (q / 256) + FromLe32(Le32(n));
  }

  // ----- one frame -----

  datatype WriteResult = Written(bytes: Bytes) | WriteTooLarge | Unencodable

  function WriteFrame<T>(enc: T -> Option<Bytes>, x: T, max: nat): WriteResult {
    var payload := enc(x);
    if payload.None? then Unencodable
    else if |payload.value| > max then WriteTooLarge
    else Written(Le32(|payload.value|) + payload.value)
  }

  datatype ReadResult<T> =
    | Frame(value: T, rest: Bytes)
    | Eof
    | ReadTooLarge(rest: Bytes)
    | BadPayload(rest: Bytes)

  function ReadFrame<T>(dec: Bytes -> Option<T>, max: nat, input: Bytes): ReadResult<T> {
    if |input| < 4 then Eof
    else
      var len := FromLe32(input[..4]);
      if len > max then ReadTooLarge(input[4..])
      else if |input| < 4 + len then Eof
      else
        var value := dec(input[4..4 + len]);
        if value.None? then BadPayload(input[4 + len..]) else Frame(value.value, input[4 + len..])
  }

  /** A frame is written exactly if its payload encodes and is within the limit;
      the two failures are told apart. */
  lemma WriteFrameIff<T>(enc: T -> Option<Bytes>, x: T, max: nat)
    ensures var w := WriteFrame(enc, x, max);
            && (w.Unencodable? <==> enc(x).None?)
            && (w.WriteTooLarge? <==> enc(x).Some? && |enc(x).value| > max)
            && (w.Written? ==> |w.bytes| == 4 + |enc(x).value| && w.bytes[4..] == enc(x).value)
  {
  }

  /** A whole frame whose payload does not decode is refused and used up, so that
      whatever follows it is next. */
  lemma UndecodableIsUsedUp<T>(dec: Bytes -> Option<T>, max: nat, payload: Bytes, after: Bytes)
    requires |payload| <= max && |payload| < U32 && dec(payload).None?
    ensures ReadFrame(dec, max, Le32(|payload|) + payload + after) == BadPayload(after)
  {
    Le32Inverse(|payload|);
    var input := Le32(|payload|) + payload + after;
    assert input[..4] == Le32(|payload|);
    assert input[4..4 + |payload|] == payload && input[4 + |payload|..] == after;
  }

  /** `frame` is a length prefix followed by a payload of that length. */
  predicate IsFrame(frame: Bytes, payload: Bytes) {
    |frame| == 4 + |payload| && FromLe32(frame[..4]) == |payload| && frame[4..] == payload
  }

  lemma WrittenIsFrame<T>(enc: T -> Option<Bytes>, x: T, max: nat)
    requires WriteFrame(enc, x, max).Written? && |enc(x).value| < U32
    ensures IsFrame(WriteFrame(enc, x, max).bytes, enc(x).value) && |enc(x).value| <= max
  {
    PrefixReadsBack(|enc(x).value|);
    PrefixedIsFrame(Le32(|enc(x).value|), enc(x).value);
  }

  lemma PrefixReadsBack(n: nat)
    requires n < U32
    ensures FromLe32(Le32(n)) == n
  {
    Le32Inverse(n);
  }

  lemma PrefixedIsFrame(prefix: Bytes, payload: Bytes)
    requires |prefix| == 4 && FromLe32(prefix) == |payload|
    ensures IsFrame(prefix + payload, payload)
  {
  }

  lemma ReadsFrame<T>(dec: Bytes -> Option<T>, max: nat, frame: Bytes, payload: Bytes, after: Bytes)
    requires IsFrame(frame, payload) && |payload| <= max && dec(payload).Some?
    ensures ReadFrame(dec, max, frame + after) == Frame(dec(payload).value, after)
  {
  }

  lemma TruncatedIsEof<T>(dec: Bytes -> Option<T>, max: nat, frame: Bytes, payload: Bytes, n: nat)
    requires IsFrame(frame, payload) && |payload| <= max && n < |frame|
    ensures ReadFrame(dec, max, frame[..n]) == Eof
  {
  }

  /** A written frame followed by anything reads back as its value, leaving
      exactly what followed. */
  lemma FrameReadsBack<T(!new)>(enc: T -> Option<Bytes>, dec: Bytes -> Option<T>, x: T, max: nat, after: Bytes)
    requires LeftInverse(enc, dec) && WriteFrame(enc, x, max).Written? && |enc(x).value| < U32
    ensures ReadFrame(dec, max, WriteFrame(enc, x, max).bytes + after) == Frame(x, after)
  {
    WrittenIsFrame(enc, x, max);
    ReadsFrame(dec, max, WriteFrame(enc, x, max).bytes, enc(x).value, after);
  }

  /** The round trip of one frame holds exactly for payloads below 2^32 bytes;
      a longer one leaves bytes behind. A caller whose maximum is below 2^32, as
      all of the relay's are, never meets the other case. */
  lemma FrameRoundTripIff<T(!new)>(enc: T -> Option<Bytes>, dec: Bytes -> Option<T>, x: T, max: nat)
    requires LeftInverse(enc, dec) && WriteFrame(enc, x, max).Written?
    ensures ReadFrame(dec, max, WriteFrame(enc, x, max).bytes) == Frame(x, []) <==> |enc(x).value| < U32
  {
    var payload := enc(x).value;
    var input := WriteFrame(enc, x, max).bytes;
    if |payload| < U32 {
      assert input + [] == input;
      FrameReadsBack(enc, dec, x, max, []);
    } else {
      Le32Inverse(|payload|);
      assert input[..4] == Le32(|payload|);
      assert |input[4 + |payload| % U32..]| > 0;
    }
  }

  /** A payload codec that writes a number as that many zero bytes. */
  function Unary(n: nat): Option<Bytes> {
    Some(seq(n, i => 0))
  }

  function CountBytes(b: Bytes): Option<nat> {
    Some(|b|)
  }

  /** One such payload: 2^32 zero bytes are accepted under a maximum of 2^32, get
      a prefix of zero, and read back as the empty payload with every byte left
      behind. */
  lemma LongFrameReadsWrong()
    ensures LeftInverse(Unary, CountBytes)
    ensures WriteFrame(Unary, U32, U32).Written?
    ensures ReadFrame(CountBytes, U32, WriteFrame(Unary, U32, U32).bytes) == Frame(0, Unary(U32).value)
  {
    var payload := Unary(U32).value;
    var input := WriteFrame(Unary, U32, U32).bytes;
    Le32Inverse(U32);
    assert input[..4] == Le32(U32);
    assert input[4..] == payload;
    assert input[4..4] == [];
  }

  /** A proper truncation of a frame reads as end of stream, never as a frame. */
  lemma TruncatedFrameIsEof<T(!new)>(enc: T -> Option<Bytes>, dec: Bytes -> Option<T>, x: T, max: nat, n: nat)
    requires WriteFrame(enc, x, max).Written? && |enc(x).value| < U32
    requires n < |WriteFrame(enc, x, max).bytes|
    ensures ReadFrame(dec, max, WriteFrame(enc, x, max).bytes[..n]) == Eof
  {
    WrittenIsFrame(enc, x, max);
    TruncatedIsEof(dec, max, WriteFrame(enc, x, max).bytes, enc(x).value, n);
  }

  /** An oversize prefix is rejected on the length alone: the body is not looked
      at, and exactly four bytes are consumed. */
  lemma OversizeIsRejectedOnPrefix<T>(dec: Bytes -> Option<T>, max: nat, len: nat, body: Bytes)
    requires max < len < U32
    ensures ReadFrame(dec, max, Le32(len) + body) == ReadTooLarge(body)
  {
    Le32Inverse(len);
    assert (Le32(len) + body)[..4] == Le32(len);
    assert (Le32(len) + body)[4..] == body;
  }

  // ----- streams of frames -----

  ghost predicate AllWritten<T>(enc: T -> Option<Bytes>, xs: seq<T>, max: nat) {
    forall i :: 0 <= i < |xs| ==> WriteFrame(enc, xs[i], max).Written? && |enc(xs[i]).value| < U32
  }

  /** The frames written for a list of values, one after the other. */
  ghost function Frames<T>(enc: T -> Option<Bytes>, xs: seq<T>, max: nat): (frames: seq<Bytes>)
    requires AllWritten(enc, xs, max)
    ensures |frames| == |xs|
  {
    seq(|xs|, i requires 0 <= i < |xs| && AllWritten(enc, xs, max) => WriteFrame(enc, xs[i], max).bytes)
  }

  function Concat(frames: seq<Bytes>): Bytes {
    if frames == [] then [] else frames[0] + Concat(frames[1..])
  }

  datatype ReadAll<T> = ReadAll(values: seq<T>, stop: ReadResult<T>, left: Bytes)

  /** Read frames until one cannot be read; `left` is the input at that point. */
  function ReadFrames<T>(dec: Bytes -> Option<T>, max: nat, input: Bytes): ReadAll<T>
    decreases |input|
  {
    var r := ReadFrame(dec, max, input);
    if !r.Frame? then ReadAll([], r, input)
    else
      var more := ReadFrames(dec, max, r.rest);
      more.(values := [r.value] + more.values)
  }

  /** How many whole frames of the stream fit in its first `n` bytes. */
  function WholeFrames(frames: seq<Bytes>, n: nat): (k: nat)
    ensures k <= |frames|
  {
    if frames == [] || n < |frames[0]| then 0 else 1 + WholeFrames(frames[1..], n - |frames[0]|)
  }

  /** Each frame carries the payload of the value in the same place. */
  ghost predicate Carry<T>(dec: Bytes -> Option<T>, max: nat, frames: seq<Bytes>, payloads: seq<Bytes>, xs: seq<T>) {
    |frames| == |payloads| == |xs| &&
    forall i :: 0 <= i < |xs| ==> IsFrame(frames[i], payloads[i]) && |payloads[i]| <= max && dec(payloads[i]) == Some(xs[i])
  }

  lemma {:induction false} CutFramesRead<T>(dec: Bytes -> Option<T>, max: nat, frames: seq<Bytes>, payloads: seq<Bytes>, xs: seq<T>, n: nat)
    requires Carry(dec, max, frames, payloads, xs) && n <= |Concat(frames)|
    ensures var r := ReadFrames(dec, max, Concat(frames)[..n]);
            && r.values == xs[..WholeFrames(frames, n)] && r.stop == Eof
            && (n == |Concat(frames)| ==> r.values == xs && r.left == [])
    decreases |frames|
  {
    if frames == [] {
    } else {
      var first, rest := frames[0], Concat(frames[1..]);
      if n < |first| {
        CutInFirstFrame(dec, max, first, payloads[0], rest, n);
      } else {
        assert Carry(dec, max, frames[1..], payloads[1..], xs[1..]);
        CutFramesRead(dec, max, frames[1..], payloads[1..], xs[1..], n - |first|);
        NextFrame(dec, max, first, payloads[0], rest, n, xs[0]);
        PrependValue(xs, WholeFrames(frames[1..], n - |first|));
      }
    }
  }

  lemma PrependValue<T>(xs: seq<T>, k: nat)
    requires xs != [] && k < |xs|
    ensures [xs[0]] + xs[1..][..k] == xs[..k + 1] && [xs[0]] + xs[1..] == xs
  {
  }

  /** Cut a stream of written frames anywhere: reading it gives exactly the
      values whose frames lie wholly before the cut, in order, and then end of
      stream; uncut, it gives all of them with no byte left over. */
  lemma CutStreamReadsWholeFrames<T(!new)>(enc: T -> Option<Bytes>, dec: Bytes -> Option<T>, xs: seq<T>, max: nat, n: nat)
    requires LeftInverse(enc, dec) && AllWritten(enc, xs, max) && n <= |Concat(Frames(enc, xs, max))|
    ensures var stream := Concat(Frames(enc, xs, max));
            var r := ReadFrames(dec, max, stream[..n]);
            && r.values == xs[..WholeFrames(Frames(enc, xs, max), n)]
            && r.stop == Eof
            && (n == |stream| ==> r.values == xs && r.left == [])
  {
    var frames := Frames(enc, xs, max);
    var payloads := seq(|xs|, i requires 0 <= i < |xs| && AllWritten(enc, xs, max) => enc(xs[i]).value);
    forall i | 0 <= i < |xs|
      ensures IsFrame(frames[i], payloads[i]) && |payloads[i]| <= max && dec(payloads[i]) == Some(xs[i])
    {
      WrittenIsFrame(enc, xs[i], max);
    }
    CutFramesRead(dec, max, frames, payloads, xs, n);
  }

  /** A cut inside the first frame leaves nothing to read. */
  lemma CutInFirstFrame<T>(dec: Bytes -> Option<T>, max: nat, first: Bytes, payload: Bytes, rest: Bytes, n: nat)
    requires IsFrame(first, payload) && |payload| <= max && n < |first|
    ensures ReadFrames(dec, max, (first + rest)[..n]) == ReadAll([], Eof, first[..n])
  {
  }

  /** Reading past one whole frame of a cut stream. */
  lemma NextFrame<T>(dec: Bytes -> Option<T>, max: nat, first: Bytes, payload: Bytes, rest: Bytes, n: nat, x: T)
    requires IsFrame(first, payload) && |payload| <= max && dec(payload) == Some(x)
    requires |first| <= n <= |first| + |rest|
    ensures var more := ReadFrames(dec, max, rest[..n - |first|]);
            ReadFrames(dec, max, (first + rest)[..n]) == ReadAll([x] + more.values, more.stop, more.left)
  {
    assert (first + rest)[..n] == first + rest[..n - |first|];
    ReadsFrame(dec, max, first, payload, rest[..n - |first|]);
  }

  // ----- the control-stream preamble -----

  datatype PreambleResult = Version(version: nat, rest: Bytes) | PreambleEof | BadMagic(rest: Bytes)

  function Preamble(): Bytes {
    CONTROL_MAGIC + [PROTOCOL_VERSION % 256, PROTOCOL_VERSION / 256]
  }

  function ReadPreamble(input: Bytes): PreambleResult {
    if |input| < 4 then PreambleEof
    else if input[..4] != CONTROL_MAGIC then BadMagic(input[4..])
    else if |input| < 6 then PreambleEof
    else Version(FromLe16(input[4..6]), input[6..])
  }

  /** A peer of any version is understood: the magic and a 16-bit version read back
      as that version. */
  lemma AnyVersionReadsBack(version: nat, after: Bytes)
    requires version < 0x1_0000
    ensures ReadPreamble(CONTROL_MAGIC + [version % 256, version / 256] + after) == Version(version, after)
  {
    var input: Bytes := CONTROL_MAGIC + [version % 256, version / 256] + after;
    assert input[..4] == CONTROL_MAGIC && input[4..6] == [version % 256, version / 256] && input[6..] == after;
  }

  /** The preamble reads back as this build's version, every truncation of it is
      end of stream, and any other first four bytes are refused and used up. */
  lemma PreambleRoundTrip(after: Bytes, n: nat)
    requires n < |Preamble()|
    ensures ReadPreamble(Preamble() + after) == Version(PROTOCOL_VERSION, after)
    ensures ReadPreamble(Preamble()[..n]) == PreambleEof
    ensures forall input: Bytes :: |input| >= 4 ==> (ReadPreamble(input) == BadMagic(input[4..]) <==> input[..4] != CONTROL_MAGIC)
  {
  }

  // ----- over a stream, step by step -----

  /** The readable side of a byte stream whose peer has written `input` and
      closed. */
  class ByteSource {
    var input: Bytes

    constructor (input: Bytes)
      ensures this.input == input
    {
      this.input := input;
    }

    /** Fill a buffer of `n` bytes, or fail at end of stream. */
    method ReadExact(n: nat) returns (buf: Option<Bytes>)
      modifies this
      ensures |old(input)| >= n ==> buf == Some(old(input)[..n]) && input == old(input)[n..]
      ensures |old(input)| < n ==> buf == None && input == []
    {
      if |input| < n {
        input := [];
        return None;
      }
      buf := Some(input[..n]);
      input := input[n..];
    }

    method Read<T>(dec: Bytes -> Option<T>, max: nat) returns (r: ReadResult<T>)
      modifies this
      ensures r == ReadFrame(dec, max, old(input))
      ensures input == if r.Eof? then [] else r.rest
    {
      var prefix := ReadExact(4);
      if prefix.None? {
        return Eof;
      }
      var len := FromLe32(prefix.value);
      if len > max {
        return ReadTooLarge(input);
      }
      if |old(input)| >= 4 + len {
        assert old(input)[4..][..len] == old(input)[4..4 + len];
        assert old(input)[4..][len..] == old(input)[4 + len..];
      }
      var payload := ReadExact(len);
      if payload.None? {
        return Eof;
      }
      var value := dec(payload.value);
      return if value.None? then BadPayload(input) else Frame(value.value, input);
    }

    method ReadVersion() returns (r: PreambleResult)
      modifies this
      ensures r == ReadPreamble(old(input))
    {
      var magic := ReadExact(4);
      if magic.None? {
        return PreambleEof;
      }
      if magic.value != CONTROL_MAGIC {
        return BadMagic(input);
      }
      var ver := ReadExact(2);
      if ver.None? {
        return PreambleEof;
      }
      return Version(FromLe16(ver.value), input);
    }
  }

  class ByteSink {
    var output: Bytes

    constructor ()
      ensures output == []
    {
      output := [];
    }

    method Write<T>(enc: T -> Option<Bytes>, x: T, max: nat) returns (r: WriteResult)
      modifies this
      ensures r == WriteFrame(enc, x, max)
      ensures output == old(output) + (if r.Written? then r.bytes else [])
    {
      var payload := enc(x);
      if payload.None? {
        return Unencodable;
      }
      if |payload.value| > max {
        return WriteTooLarge;
      }
      output := output + Le32(|payload.value|);
      output := output + payload.value;
      return Written(Le32(|payload.value|) + payload.value);
    }
  }
}
