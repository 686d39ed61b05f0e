/**
 The bounded output buffer of a terminal. One writer pushes bytes, readers poll
 with absolute cursors. The ring refines the unbounded stream of everything ever
 pushed, of which it keeps the last `capacity` bytes.
 */
module OutputRing {
  import opened Wrappers
  import opened Bytes

  const MAX_READ_BYTES: nat := 256 * 1024

  datatype Chunk = Chunk(start: nat, next: nat, truncated: bool, data: seq<Byte>)

  function SaturatingAdd(a: nat, b: nat): nat
  {
    Min(a + b, U64_MAX)
  }

  function SaturatingSub(a: nat, b: nat): nat
  {
    Max(a - b, 0)
  }

  function Clamp(x: int, low: int, high: int): int
  {
    if x < low then low else if x > high then high else x
  }

  function Take<T>(s: seq<T>, n: nat): seq<T>
  {
    if n <= |s| then s[..n] else s
  }

  function Skip<T>(s: seq<T>, n: nat): seq<T>
  {
    if n <= |s| then s[n..] else []
  }

  /** The last `capacity` bytes of the stream. */
  function Window(stream: seq<Byte>, capacity: nat): seq<Byte>
  {
    stream[SaturatingSub(|stream|, capacity)..]
  }

  /** What a read of the unbounded stream would give, if only a window of it were left. */
  function ReadStream(stream: seq<Byte>, capacity: nat, cursor: nat, maxBytes: nat): Chunk
  {
    var first := SaturatingSub(|stream|, capacity);
    var start := Clamp(cursor, first, |stream|);
    var next := Min(start + maxBytes, |stream|);
    Chunk(start, next, cursor < first, stream[start..next])
  }

  class Ring {
    const capacity: nat
    var bytes: seq<Byte>
    var startCursor: nat
    var nextCursor: nat
    ghost var stream: seq<Byte>

    /** Contents are a window of the stream; cursors are its offsets, as far as 64 bits reach. */
    ghost predicate Valid()
      reads this
    {
      && capacity > 0
      && bytes == Window(stream, capacity)
      && nextCursor == Min(|stream|, U64_MAX)
      && startCursor == Min(|stream| - |bytes|, U64_MAX)
    }

    constructor (capacity: nat)
      requires capacity > 0
      ensures Valid() && this.capacity == capacity && stream == []
    {
      this.capacity := capacity;
      bytes, startCursor, nextCursor, stream := [], 0, 0, [];
    }

    method Push(data: seq<Byte>)
      requires Valid()
      modifies this
      ensures Valid() && stream == old(stream) + data
    {
      for i := 0 to |data|
        invariant Valid() && stream == old(stream) + data[..i]
      {
        ghost var before := stream;
        if |bytes| == capacity {
          bytes := bytes[1..];
          startCursor := SaturatingAdd(startCursor, 1);
        }
        bytes := bytes + [data[i]];
        nextCursor := SaturatingAdd(nextCursor, 1);
        stream := stream + [data[i]];
        WindowStep(before, capacity, data[i]);
      }
    }

    /** With fewer than 2^64 bytes pushed, a read is a read of the stream. */
    method Read(cursor: nat, maxBytes: nat) returns (chunk: Chunk)
      requires Valid()
      ensures chunk.truncated <==> cursor < startCursor
      ensures chunk.start == Clamp(cursor, startCursor, nextCursor)
      ensures |chunk.data| <= maxBytes
      ensures |stream| <= U64_MAX ==> chunk == ReadStream(stream, capacity, cursor, maxBytes)
      ensures |stream| <= U64_MAX && |chunk.data| < maxBytes ==> chunk.next == |stream|
    {
      var truncated := cursor < startCursor;
      var actual := Clamp(cursor, startCursor, nextCursor);
      var offset := SaturatingSub(actual, startCursor);
      var data := Take(Skip(bytes, offset), maxBytes);
      chunk := Chunk(actual, SaturatingAdd(actual, |data|), truncated, data);
    }
  }

  lemma WindowStep(stream: seq<Byte>, capacity: nat, byte: Byte)
    requires capacity > 0
    ensures var window := Window(stream, capacity);
      Window(stream + [byte], capacity) == (if |window| == capacity then window[1..] else window) + [byte]
  {}

  datatype ReadError = InvalidReadLimit | UnknownTerminal

  /** The manager's read: the limit must lie in 1..262144 and the terminal must exist. */
  method ReadTerminal(terminals: map<nat, Ring>, id: nat, cursor: nat, maxBytes: nat)
    returns (result: Result<Chunk, ReadError>)
    requires forall t :: t in terminals ==> terminals[t].Valid() && |terminals[t].stream| <= U64_MAX
    ensures result == if maxBytes == 0 || maxBytes > MAX_READ_BYTES then Failure(InvalidReadLimit)
                      else if id !in terminals then Failure(UnknownTerminal)
                      else Success(ReadStream(terminals[id].stream, terminals[id].capacity, cursor, maxBytes))
    ensures result.Success? ==>
      && |result.value.data| <= maxBytes
      && (|result.value.data| < maxBytes ==> result.value.next == |terminals[id].stream|)
  {
    if maxBytes == 0 || maxBytes > MAX_READ_BYTES {
      return Failure(InvalidReadLimit);
    }
    if id !in terminals {
      return Failure(UnknownTerminal);
    }
    var chunk := terminals[id].Read(cursor, maxBytes);
    return Success(chunk);
  }

  // --------------------------------------------------------- polling readers

  /** The writer pushes; any number of readers poll, each from where its last chunk ended. */
  datatype Event = Pushed(data: seq<Byte>) | Polled(reader: nat, maxBytes: nat)

  /** A chunk together with the length of the stream when it was read and the limit of the read. */
  datatype Sighting = Sighting(chunk: Chunk, length: nat, limit: nat)

  function StreamAfter(stream: seq<Byte>, events: seq<Event>): seq<Byte>
    decreases |events|
  {
    if events == [] then stream
    else
      match events[0]
      case Pushed(data) => StreamAfter(stream + data, events[1..])
      case Polled(_, _) => StreamAfter(stream, events[1..])
  }

  /** What one reader gets, whatever the other readers do in between. */
  function Sightings(stream: seq<Byte>, capacity: nat, reader: nat, cursor: nat, events: seq<Event>): seq<Sighting>
    decreases |events|
  {
    if events == [] then []
    else
      match events[0]
      case Pushed(data) => Sightings(stream + data, capacity, reader, cursor, events[1..])
      case Polled(other, maxBytes) =>
        if other != reader then Sightings(stream, capacity, reader, cursor, events[1..])
        else
          var chunk := ReadStream(stream, capacity, cursor, maxBytes);
          [Sighting(chunk, |stream|, maxBytes)] + Sightings(stream, capacity, reader, chunk.next, events[1..])
  }

  predicate PositiveLimits(events: seq<Event>)
  {
    forall i | 0 <= i < |events| :: events[i].Polled? ==> events[i].maxBytes > 0
  }

  /**
   One sighting after `expected`: a slice of the whole stream, with a gap before it
   exactly when it says so, the gap ending at the oldest byte then kept. It is never
   longer than its limit, shorter only when it reaches the end of the stream, and empty
   only when the reader had caught up.
   */
  predicate FollowsOn(sighting: Sighting, expected: nat, total: seq<Byte>, capacity: nat)
  {
    var chunk, length := sighting.chunk, sighting.length;
    && expected <= chunk.start <= chunk.next <= length <= |total|
    && chunk.data == total[chunk.start..chunk.next]
    && (chunk.truncated <==> expected < chunk.start)
    && (chunk.truncated ==> chunk.start == length - capacity)
    && |chunk.data| <= sighting.limit
    && (|chunk.data| < sighting.limit ==> chunk.next == length)
    && (chunk.data == [] ==> expected == chunk.start == length)
  }

  /** Where the reader stood before its i-th sighting. */
  function Expected(sightings: seq<Sighting>, cursor: nat, i: nat): nat
    requires i <= |sightings|
  {
    if i == 0 then cursor else sightings[i - 1].chunk.next
  }

  predicate Consecutive(sightings: seq<Sighting>, cursor: nat, total: seq<Byte>, capacity: nat)
  {
    forall i | 0 <= i < |sightings| :: FollowsOn(sightings[i], Expected(sightings, cursor, i), total, capacity)
  }

  lemma {:induction false} StreamGrows(stream: seq<Byte>, events: seq<Event>)
    ensures stream <= StreamAfter(stream, events)
    decreases |events|
  {
    if events != [] {
      match events[0]
      case Pushed(data) => StreamGrows(stream + data, events[1..]);
      case Polled(_, _) => StreamGrows(stream, events[1..]);
    }
  }

  /** One poll of a window of `stream`, seen against everything pushed in the end. */
  lemma PollFollowsOn(stream: seq<Byte>, capacity: nat, cursor: nat, maxBytes: nat, total: seq<Byte>)
    requires capacity > 0 && cursor <= |stream| && maxBytes > 0 && stream <= total
    ensures FollowsOn(Sighting(ReadStream(stream, capacity, cursor, maxBytes), |stream|, maxBytes), cursor, total,
                      capacity)
  {
    var chunk := ReadStream(stream, capacity, cursor, maxBytes);
    assert stream == total[..|stream|];
    assert stream[chunk.start..chunk.next] == total[chunk.start..chunk.next];
  }

  lemma ConsecutiveCons(first: Sighting, tail: seq<Sighting>, cursor: nat, total: seq<Byte>, capacity: nat)
    requires FollowsOn(first, cursor, total, capacity) && Consecutive(tail, first.chunk.next, total, capacity)
    ensures Consecutive([first] + tail, cursor, total, capacity)
  {
    hide FollowsOn;
    var all := [first] + tail;
    forall i | 0 <= i < |all| ensures FollowsOn(all[i], Expected(all, cursor, i), total, capacity) {
      if i > 0 {
        assert all[i] == tail[i - 1] && Expected(all, cursor, i) == Expected(tail, first.chunk.next, i - 1);
      }
    }
  }

  /**
   For any interleaving of pushes and polls, the chunks of a reader that follows
   its cursor are consecutive slices of everything ever pushed.
   */
  lemma {:induction false} ReaderSeesStream(stream: seq<Byte>, capacity: nat, reader: nat, cursor: nat,
                                            events: seq<Event>)
    requires capacity > 0 && cursor <= |stream| && PositiveLimits(events)
    ensures Consecutive(Sightings(stream, capacity, reader, cursor, events), cursor, StreamAfter(stream, events),
                        capacity)
    decreases |events|
  {
    hide FollowsOn, Consecutive, Window;
    if events == [] {
      NoSightings(cursor, stream, capacity);
    } else {
      var rest := events[1..];
      assert forall i :: 0 <= i < |rest| ==> rest[i] == events[i + 1];
      match events[0]
      case Pushed(data) => ReaderSeesStream(stream + data, capacity, reader, cursor, rest);
      case Polled(other, maxBytes) =>
        if other != reader {
          ReaderSeesStream(stream, capacity, reader, cursor, rest);
        } else {
          var chunk := ReadStream(stream, capacity, cursor, maxBytes);
          StreamGrows(stream, rest);
          PollFollowsOn(stream, capacity, cursor, maxBytes, StreamAfter(stream, rest));
          ReaderSeesStream(stream, capacity, reader, chunk.next, rest);
          ConsecutiveCons(Sighting(chunk, |stream|, maxBytes), Sightings(stream, capacity, reader, chunk.next, rest),
                          cursor,
                          StreamAfter(stream, rest), capacity);
        }
    }
  }

  lemma NoSightings(cursor: nat, total: seq<Byte>, capacity: nat)
    ensures Consecutive([], cursor, total, capacity)
  {}

  /** Without truncation the chunks concatenate to the stretch of the stream they cover. */
  function Delivered(sightings: seq<Sighting>): seq<Byte>
  {
    if sightings == [] then [] else Delivered(sightings[..|sightings| - 1]) + sightings[|sightings| - 1].chunk.data
  }

  lemma ConsecutivePrefix(sightings: seq<Sighting>, cursor: nat, total: seq<Byte>, capacity: nat)
    requires sightings != [] && Consecutive(sightings, cursor, total, capacity)
    ensures var n := |sightings| - 1;
      Consecutive(sightings[..n], cursor, total, capacity)
      && FollowsOn(sightings[n], Expected(sightings, cursor, n), total, capacity)
  {
    var n := |sightings| - 1;
    var init := sightings[..n];
    forall i | 0 <= i < n ensures FollowsOn(init[i], Expected(init, cursor, i), total, capacity) {
      assert init[i] == sightings[i] && Expected(init, cursor, i) == Expected(sightings, cursor, i);
    }
  }

  lemma {:induction false} NothingLost(sightings: seq<Sighting>, cursor: nat, total: seq<Byte>, capacity: nat)
    requires Consecutive(sightings, cursor, total, capacity) && cursor <= |total|
    requires forall i :: 0 <= i < |sightings| ==> !sightings[i].chunk.truncated
    ensures var end := Expected(sightings, cursor, |sightings|);
      cursor <= end <= |total| && Delivered(sightings) == total[cursor..end]
  {
    hide Consecutive, FollowsOn;
    if sightings != [] {
      var n := |sightings| - 1;
      var start, end := Expected(sightings, cursor, n), sightings[n].chunk.next;
      ConsecutivePrefix(sightings, cursor, total, capacity);
      WithoutGap(sightings[n], start, total, capacity);
      NothingLost(sightings[..n], cursor, total, capacity);
      assert Expected(sightings[..n], cursor, n) == start;
      SliceJoin(total, cursor, start, end);
    }
  }

  lemma WithoutGap(sighting: Sighting, expected: nat, total: seq<Byte>, capacity: nat)
    requires FollowsOn(sighting, expected, total, capacity) && !sighting.chunk.truncated
    ensures var end := sighting.chunk.next;
      expected <= end <= |total| && sighting.chunk.data == total[expected..end]
  {}

  lemma SliceJoin(total: seq<Byte>, a: nat, b: nat, c: nat)
    requires a <= b <= c <= |total|
    ensures total[a..b] + total[b..c] == total[a..c]
  {}

  /** The reader's sightings so far, and those still to come from where ring and cursor stand now. */
  ghost predicate Underway(start: seq<Byte>, capacity: nat, reader: nat, cursor: nat, events: seq<Event>, done: nat,
                           stream: seq<Byte>, now: nat, seen: seq<Sighting>)
    requires done <= |events|
  {
    && Sightings(start, capacity, reader, cursor, events) ==
         seen + Sightings(stream, capacity, reader, now, events[done..])
    && StreamAfter(start, events) == StreamAfter(stream, events[done..])
  }

  lemma UnderwayStep(start: seq<Byte>, capacity: nat, reader: nat, cursor: nat, events: seq<Event>, done: nat,
                     stream: seq<Byte>, now: nat, seen: seq<Sighting>)
    requires done < |events| && Underway(start, capacity, reader, cursor, events, done, stream, now, seen)
    ensures match events[done]
      case Pushed(data) =>
        Underway(start, capacity, reader, cursor, events, done + 1, stream + data, now, seen)
      case Polled(other, maxBytes) =>
        var chunk := ReadStream(stream, capacity, now, maxBytes);
        if other != reader then Underway(start, capacity, reader, cursor, events, done + 1, stream, now, seen)
        else Underway(start, capacity, reader, cursor, events, done + 1, stream, chunk.next,
                      seen + [Sighting(chunk, |stream|, maxBytes)])
  {
    hide ReadStream;
    assert events[done..][0] == events[done] && events[done..][1..] == events[done + 1..];
  }

  /**
   One ring, one writer and any readers, each polling from where its last chunk
   ended: every reader gets consecutive slices of everything ever pushed.
   */
  method Drive(ring: Ring, cursors: map<nat, nat>, events: seq<Event>) returns (sightings: map<nat, seq<Sighting>>)
    requires ring.Valid() && PositiveLimits(events) && |StreamAfter(ring.stream, events)| <= U64_MAX
    requires forall r :: r in cursors ==> cursors[r] <= |ring.stream|
    requires forall i :: 0 <= i < |events| && events[i].Polled? ==> events[i].reader in cursors
    modifies ring
    ensures ring.Valid() && ring.stream == StreamAfter(old(ring.stream), events)
    ensures sightings.Keys == cursors.Keys
    ensures forall r :: r in cursors ==>
      && sightings[r] == Sightings(old(ring.stream), ring.capacity, r, cursors[r], events)
      && Consecutive(sightings[r], cursors[r], ring.stream, ring.capacity)
  {
    hide FollowsOn, Consecutive, Window, ReadStream, Sightings;
    ghost var start := ring.stream;
    var now := cursors;
    sightings := map r | r in cursors :: [];
    UnderwayStart(start, ring.capacity, cursors, events);
    for i := 0 to |events|
      invariant ring.Valid() && sightings.Keys == now.Keys == cursors.Keys
      invariant StreamAfter(start, events) == StreamAfter(ring.stream, events[i..])
      invariant forall r :: r in cursors ==>
        Underway(start, ring.capacity, r, cursors[r], events, i, ring.stream, now[r], sightings[r])
    {
      ghost var before, place, seen := ring.stream, now, sightings;
      StreamGrows(ring.stream, events[i..]);
      forall r | r in cursors {
        UnderwayStep(start, ring.capacity, r, cursors[r], events, i, before, place[r], seen[r]);
      }
      assert events[i..][0] == events[i] && events[i..][1..] == events[i + 1..];
      match events[i]
      case Pushed(data) => ring.Push(data);
      case Polled(reader, maxBytes) =>
        var chunk := ring.Read(now[reader], maxBytes);
        sightings := sightings[reader := sightings[reader] + [Sighting(chunk, ring.nextCursor, maxBytes)]];
        now := now[reader := chunk.next];
    }
    forall r | r in cursors
      ensures sightings[r] == Sightings(start, ring.capacity, r, cursors[r], events)
      ensures Consecutive(sightings[r], cursors[r], ring.stream, ring.capacity)
    {
      UnderwayEnd(start, ring.capacity, r, cursors[r], events, ring.stream, now[r], sightings[r]);
      ReaderSeesStream(start, ring.capacity, r, cursors[r], events);
    }
    assert events[|events|..] == [];
  }

  lemma UnderwayStart(start: seq<Byte>, capacity: nat, cursors: map<nat, nat>, events: seq<Event>)
    ensures forall r :: r in cursors ==>
      Underway(start, capacity, r, cursors[r], events, 0, start, cursors[r], [])
    ensures StreamAfter(start, events) == StreamAfter(start, events[0..])
  {
    assert events[0..] == events;
  }

  lemma UnderwayEnd(start: seq<Byte>, capacity: nat, reader: nat, cursor: nat, events: seq<Event>,
                    stream: seq<Byte>, now: nat, seen: seq<Sighting>)
    requires Underway(start, capacity, reader, cursor, events, |events|, stream, now, seen)
    ensures seen == Sightings(start, capacity, reader, cursor, events) && stream == StreamAfter(start, events)
  {
    assert events[|events|..] == [];
  }
}
