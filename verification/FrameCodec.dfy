/**
 The length-prefixed frames between host and runtime: four bytes of length, big
 end first, then the JSON of one frame. JSON is an encoder and a decoder that
 undoes it.
 */
module FrameCodec {
  import opened Wrappers
  import opened Bytes

  const PROTOCOL_VERSION: nat := 1
  const MAX_FRAME_BYTES: nat := 1024 * 1024
  const HEADER_BYTES: nat := 4

  datatype CodecError = UnexpectedEnd | TooLarge | InvalidJson | UnsupportedVersion

  datatype Json<!F> = Json(encode: F -> seq<Byte>, decode: seq<Byte> -> Option<F>, version: F -> nat)

  ghost predicate IsLawful<F(!new)>(json: Json<F>)
  {
    forall frame: F :: json.decode(json.encode(frame)) == Some(frame)
  }

  // ------------------------------------------------------------------- header

  function HeaderFor(n: nat): (header: seq<Byte>)
    requires n < 0x1_0000_0000
    ensures |header| == HEADER_BYTES && LengthIn(header) == n
    ensures header[0] as int == n / 0x100_0000 && header[3] as int == n % 0x100
    ensures 0x100 * header[1] as int + header[2] as int == n / 0x100 % 0x1_0000
  {
    var a := n / 0x100;
    var b := a / 0x100;
    [b / 0x100, b % 0x100, a % 0x100, n % 0x100]
  }

  function LengthIn(header: seq<Byte>): nat
    requires |header| == HEADER_BYTES
  {
    0x100_0000 * header[0] as int + 0x1_0000 * header[1] as int + 0x100 * header[2] as int + header[3] as int
  }

  // ------------------------------------------------------------------ writing

  /** What may be written: this protocol version, at most a mebibyte of JSON. */
  predicate IsWritable<F>(json: Json<F>, frame: F)
  {
    json.version(frame) == PROTOCOL_VERSION && |json.encode(frame)| <= MAX_FRAME_BYTES
  }

  function Framed<F>(json: Json<F>, frame: F): seq<Byte>
    requires IsWritable(json, frame)
  {
    HeaderFor(|json.encode(frame)|) + json.encode(frame)
  }

  class Writer {
    var bytes: seq<Byte>

    constructor ()
      ensures bytes == []
    {
      bytes := [];
    }

    method WriteAll(more: seq<Byte>)
      modifies this
      ensures bytes == old(bytes) + more
    {
      bytes := bytes + more;
    }
  }

  method WriteFrame<F>(json: Json<F>, writer: Writer, frame: F) returns (result: Result<Unit, CodecError>)
    modifies writer
    ensures result.Success? <==> IsWritable(json, frame)
    ensures writer.bytes == old(writer.bytes) + if IsWritable(json, frame) then Framed(json, frame) else []
    ensures json.version(frame) != PROTOCOL_VERSION <==> result == Failure(UnsupportedVersion)
    ensures json.version(frame) == PROTOCOL_VERSION && |json.encode(frame)| > MAX_FRAME_BYTES <==>
      result == Failure(TooLarge)
  {
    if json.version(frame) != PROTOCOL_VERSION {
      return Failure(UnsupportedVersion);
    }
    var payload := json.encode(frame);
    if |payload| > MAX_FRAME_BYTES {
      return Failure(TooLarge);
    }
    writer.WriteAll(HeaderFor(|payload|));
    writer.WriteAll(payload);
    assert writer.bytes == old(writer.bytes) + (HeaderFor(|payload|) + payload);
    return Success(Unit);
  }

  // ------------------------------------------------------------------ reading

  /** One read: a frame, the clean end, or an error, and what is left of the stream. */
  function ReadOne<F>(json: Json<F>, stream: seq<Byte>): (Result<Option<F>, CodecError>, seq<Byte>)
  {
    if stream == [] then (Success(None), [])
    else if |stream| < HEADER_BYTES then (Failure(UnexpectedEnd), [])
    else
      var length, rest := LengthIn(stream[..HEADER_BYTES]), stream[HEADER_BYTES..];
      if length > MAX_FRAME_BYTES then (Failure(TooLarge), rest)
      else if |rest| < length then (Failure(UnexpectedEnd), [])
      else
        match json.decode(rest[..length])
        case None => (Failure(InvalidJson), rest[length..])
        case Some(frame) =>
          (if json.version(frame) == PROTOCOL_VERSION then Success(Some(frame))
           else Failure(UnsupportedVersion), rest[length..])
  }

  class Reader {
    var rest: seq<Byte>

    constructor (stream: seq<Byte>)
      ensures rest == stream
    {
      rest := stream;
    }

    /** Up to `n` bytes, none only at the end. */
    method Read(n: nat) returns (bytes: seq<Byte>)
      modifies this
      ensures bytes == old(rest)[..Min(n, |old(rest)|)] && rest == old(rest)[Min(n, |old(rest)|)..]
    {
      bytes := rest[..Min(n, |rest|)];
      rest := rest[Min(n, |rest|)..];
    }
  }

  method ReadFrame<F>(json: Json<F>, reader: Reader) returns (result: Result<Option<F>, CodecError>)
    modifies reader
    ensures (result, reader.rest) == ReadOne(json, old(reader.rest))
  {
    var first := reader.Read(1);
    if first == [] {
      return Success(None);
    }
    var others := reader.Read(HEADER_BYTES - 1);
    if |others| < HEADER_BYTES - 1 {
      return Failure(UnexpectedEnd);
    }
    var header := first + others;
    assert header == old(reader.rest)[..HEADER_BYTES] && reader.rest == old(reader.rest)[HEADER_BYTES..];
    var length := LengthIn(header);
    if length > MAX_FRAME_BYTES {
      return Failure(TooLarge);
    }
    var payload := reader.Read(length);
    if |payload| < length {
      return Failure(UnexpectedEnd);
    }
    var decoded := json.decode(payload);
    if decoded.None? {
      return Failure(InvalidJson);
    }
    if json.version(decoded.value) != PROTOCOL_VERSION {
      return Failure(UnsupportedVersion);
    }
    return Success(Some(decoded.value));
  }

  // ------------------------------------------------------------------ sessions

  datatype Ending = CleanEnd | Broken(error: CodecError)

  /** Reading frame after frame until the stream ends or breaks. */
  function ReadAll<F>(json: Json<F>, stream: seq<Byte>): (seq<F>, Ending)
    decreases |stream|
  {
    var (result, rest) := ReadOne(json, stream);
    match result
    case Failure(error) => ([], Broken(error))
    case Success(None) => ([], CleanEnd)
    case Success(Some(frame)) =>
      var (frames, ending) := ReadAll(json, rest);
      ([frame] + frames, ending)
  }

  function Written<F>(json: Json<F>, frames: seq<F>): seq<Byte>
    requires forall i :: 0 <= i < |frames| ==> IsWritable(json, frames[i])
  {
    if frames == [] then [] else Framed(json, frames[0]) + Written(json, frames[1..])
  }

  /** The stream begins with the length of a payload, the payload, and then the rest. */
  ghost predicate Begins(stream: seq<Byte>, payload: seq<Byte>, rest: seq<Byte>)
  {
    |payload| <= MAX_FRAME_BYTES && stream == HeaderFor(|payload|) + payload + rest
  }

  /**
   What a read makes of any bytes. It yields a frame exactly when the stream begins with
   a whole payload that decodes to a frame of this version; a whole payload is always
   consumed and nothing behind it is. A length above the limit is refused before the
   payload is read, and the end inside a frame is told from the end before one.
   */
  lemma ReadsExactly<F(!new)>(json: Json<F>, stream: seq<Byte>)
    ensures var (result, left) := ReadOne(json, stream);
      && (result == Success(None) <==> stream == [])
      && (result == Failure(TooLarge) <==>
            |stream| >= HEADER_BYTES && LengthIn(stream[..HEADER_BYTES]) > MAX_FRAME_BYTES)
      && (result == Failure(UnexpectedEnd) <==>
            && stream != [] && result != Failure(TooLarge)
            && forall payload, rest :: !Begins(stream, payload, rest))
      && (forall payload, rest :: Begins(stream, payload, rest) ==>
            && left == rest
            && result ==
               match json.decode(payload)
               case None => Failure(InvalidJson)
               case Some(frame) =>
                 if json.version(frame) == PROTOCOL_VERSION then Success(Some(frame)) else Failure(UnsupportedVersion))
  {
    hide HeaderFor, LengthIn, Begins;
    forall payload, rest | Begins(stream, payload, rest)
      ensures |stream| >= HEADER_BYTES && LengthIn(stream[..HEADER_BYTES]) == |payload| <= MAX_FRAME_BYTES
      ensures |payload| <= |stream[HEADER_BYTES..]|
      ensures stream[HEADER_BYTES..][..|payload|] == payload && stream[HEADER_BYTES..][|payload|..] == rest
    {
      BeginsSplit(stream, payload, rest);
    }
    if |stream| >= HEADER_BYTES {
      var length, after := LengthIn(stream[..HEADER_BYTES]), stream[HEADER_BYTES..];
      if length <= MAX_FRAME_BYTES && length <= |after| {
        SplitBegins(stream);
      }
    }
  }

  lemma BeginsSplit(stream: seq<Byte>, payload: seq<Byte>, rest: seq<Byte>)
    requires Begins(stream, payload, rest)
    ensures |stream| >= HEADER_BYTES && LengthIn(stream[..HEADER_BYTES]) == |payload| <= MAX_FRAME_BYTES
    ensures |payload| <= |stream[HEADER_BYTES..]|
    ensures stream[HEADER_BYTES..][..|payload|] == payload && stream[HEADER_BYTES..][|payload|..] == rest
  {
    assert stream == HeaderFor(|payload|) + (payload + rest);
    assert stream[..HEADER_BYTES] == HeaderFor(|payload|) && stream[HEADER_BYTES..] == payload + rest;
  }

  lemma SplitBegins(stream: seq<Byte>)
    requires |stream| >= HEADER_BYTES
    requires LengthIn(stream[..HEADER_BYTES]) <= MAX_FRAME_BYTES
    requires LengthIn(stream[..HEADER_BYTES]) <= |stream[HEADER_BYTES..]|
    ensures var length, after := LengthIn(stream[..HEADER_BYTES]), stream[HEADER_BYTES..];
      Begins(stream, after[..length], after[length..])
  {
    var length, after := LengthIn(stream[..HEADER_BYTES]), stream[HEADER_BYTES..];
    HeaderOf(stream[..HEADER_BYTES]);
    assert stream == HeaderFor(length) + after[..length] + after[length..];
  }

  /** Four bytes are the header of the length they say. */
  lemma HeaderOf(header: seq<Byte>)
    requires |header| == HEADER_BYTES
    ensures LengthIn(header) < 0x1_0000_0000 && HeaderFor(LengthIn(header)) == header
  {
    var n := LengthIn(header);
    assert n / 0x100 == 0x1_0000 * header[0] as int + 0x100 * header[1] as int + header[2] as int;
    assert n / 0x100 / 0x100 == 0x100 * header[0] as int + header[1] as int;
  }

  /** A written frame is read back, and the rest of the stream is left. */
  lemma ReadFramed<F(!new)>(json: Json<F>, frame: F, rest: seq<Byte>)
    requires IsLawful(json) && IsWritable(json, frame)
    ensures ReadOne(json, Framed(json, frame) + rest) == (Success(Some(frame)), rest)
  {
    var payload := json.encode(frame);
    var stream := Framed(json, frame) + rest;
    assert stream[..HEADER_BYTES] == HeaderFor(|payload|) && stream[HEADER_BYTES..] == payload + rest;
    assert (payload + rest)[..|payload|] == payload && (payload + rest)[|payload|..] == rest;
  }

  /** A frame cut short is an error and never a frame or a clean end. */
  lemma ReadCut<F>(json: Json<F>, frame: F, k: nat)
    requires IsWritable(json, frame) && 0 < k < |Framed(json, frame)|
    ensures ReadOne(json, Framed(json, frame)[..k]).0 == Failure(UnexpectedEnd)
  {
    var payload := json.encode(frame);
    if k >= HEADER_BYTES {
      assert Framed(json, frame)[..k][..HEADER_BYTES] == HeaderFor(|payload|);
    }
  }

  lemma CutInFirst<F>(json: Json<F>, frames: seq<F>, k: nat)
    requires frames != [] && (forall i :: 0 <= i < |frames| ==> IsWritable(json, frames[i]))
      && k < |Framed(json, frames[0])|
    ensures k <= |Written(json, frames)|
    ensures ReadAll(json, Written(json, frames)[..k]) == ([], if k == 0 then CleanEnd else Broken(UnexpectedEnd))
  {
    if k > 0 {
      assert Written(json, frames)[..k] == Framed(json, frames[0])[..k];
      ReadCut(json, frames[0], k);
    }
  }

  lemma ReadThenRest<F(!new)>(json: Json<F>, frame: F, rest: seq<Byte>)
    requires IsLawful(json) && IsWritable(json, frame)
    ensures ReadAll(json, Framed(json, frame) + rest) == ([frame] + ReadAll(json, rest).0, ReadAll(json, rest).1)
  {
    ReadFramed(json, frame, rest);
    assert ReadAll(json, Framed(json, frame) + rest).0 == [frame] + ReadAll(json, rest).0;
    hide Framed;
  }

  lemma WrittenFront<F>(json: Json<F>, frames: seq<F>, n: nat)
    requires (forall i :: 0 <= i < |frames| ==> IsWritable(json, frames[i])) && 0 < n <= |frames|
    ensures frames[..n][1..] == frames[1..][..n - 1] && frames[..n] == [frames[0]] + frames[1..][..n - 1]
    ensures |Written(json, frames[..n])| == |Framed(json, frames[0])| + |Written(json, frames[1..][..n - 1])|
  {
    hide Framed, IsWritable;
    assert frames[..n][1..] == frames[1..][..n - 1];
  }

  /**
   A stream of written frames cut anywhere reads as the frames that are complete,
   then a clean end if the cut is between two frames, else an error.
   */
  lemma {:induction false} CutStreamReads<F(!new)>(json: Json<F>, frames: seq<F>, n: nat, k: nat)
    requires IsLawful(json) && forall i :: 0 <= i < |frames| ==> IsWritable(json, frames[i])
    requires n <= |frames| && |Written(json, frames[..n])| <= k
    requires if n == |frames| then k == |Written(json, frames)| else k < |Written(json, frames[..n + 1])|
    ensures k <= |Written(json, frames)|
    ensures ReadAll(json, Written(json, frames)[..k]) ==
      (frames[..n], if k == |Written(json, frames[..n])| then CleanEnd else Broken(UnexpectedEnd))
  {
    hide Framed, IsWritable, IsLawful;
    if n == 0 {
      if frames != [] {
        WrittenFront(json, frames, 1);
        CutInFirst(json, frames, k);
      }
    } else {
      var first, size := Framed(json, frames[0]), |Framed(json, frames[0])|;
      WrittenFront(json, frames, n);
      if n < |frames| {
        WrittenFront(json, frames, n + 1);
      }
      hide ReadAll, ReadOne;
      CutStreamReads(json, frames[1..], n - 1, k - size);
      var rest := Written(json, frames[1..])[..k - size];
      assert Written(json, frames)[..k] == first + rest;
      ReadThenRest(json, frames[0], rest);
    }
  }

  /** Every cut falls into exactly one frame or between two. */
  lemma {:induction false} CutPoint<F>(json: Json<F>, frames: seq<F>, k: nat) returns (n: nat)
    requires forall i :: 0 <= i < |frames| ==> IsWritable(json, frames[i])
    requires k <= |Written(json, frames)|
    ensures n <= |frames| && |Written(json, frames[..n])| <= k
    ensures if n == |frames| then k == |Written(json, frames)| else k < |Written(json, frames[..n + 1])|
  {
    hide Framed, IsWritable;
    if frames == [] {
      return 0;
    }
    var size := |Framed(json, frames[0])|;
    if k < size {
      WrittenFront(json, frames, 1);
      return 0;
    }
    var m := CutPoint(json, frames[1..], k - size);
    WrittenFront(json, frames, m + 1);
    if m + 1 < |frames| {
      WrittenFront(json, frames, m + 2);
    }
    return m + 1;
  }

  /** Reading back a whole stream of written frames gives the same frames and a clean end. */
  lemma ReadBack<F(!new)>(json: Json<F>, frames: seq<F>)
    requires IsLawful(json) && forall i :: 0 <= i < |frames| ==> IsWritable(json, frames[i])
    ensures ReadAll(json, Written(json, frames)) == (frames, CleanEnd)
  {
    assert frames[..|frames|] == frames;
    assert Written(json, frames)[..|Written(json, frames)|] == Written(json, frames);
    CutStreamReads(json, frames, |frames|, |Written(json, frames)|);
  }

  /** Cut anywhere, a stream never yields a frame that was not written, nor a clean end inside a frame. */
  lemma NeverAWrongFrame<F(!new)>(json: Json<F>, frames: seq<F>, k: nat)
    requires IsLawful(json) && forall i :: 0 <= i < |frames| ==> IsWritable(json, frames[i])
    requires k <= |Written(json, frames)|
    ensures var (read, ending) := ReadAll(json, Written(json, frames)[..k]);
      && read <= frames && |Written(json, read)| <= k
      && (ending == CleanEnd <==> k == |Written(json, read)|)
      && (ending != CleanEnd ==> |read| < |frames| && k < |Written(json, frames[..|read| + 1])|)
  {
    var n := CutPoint(json, frames, k);
    CutStreamReads(json, frames, n, k);
    assert frames[..|frames|] == frames;
    hide ReadAll, Written, IsWritable, IsLawful;
  }
}
