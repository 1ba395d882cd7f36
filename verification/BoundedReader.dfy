/** Reading a command's output with a limit on what is kept. */
module BoundedReader {
  import opened Common

  /** One call of `read`: some bytes, or a failure. No bytes means the end of the stream. */
  datatype Read = Chunk(data: seq<Byte>) | Broken(code: int)

  // `NoRoom` is the panic of a vector that cannot grow.
  datatype Error = LimitOverflow | NoRoom | ReadFailed(code: int)

  datatype Stream = Content(bytes: seq<Byte>) | TooLarge

  /** What the reads from the `i`th on deliver before the stream ends or breaks. */
  function Delivered(input: seq<Read>, i: nat): seq<Byte>
    decreases |input| - i
  {
    if i >= |input| || input[i].Broken? || input[i].data == [] then []
    else input[i].data + Delivered(input, i + 1)
  }

  function Breaks(input: seq<Read>, i: nat): Option<int>
    decreases |input| - i
  {
    if i >= |input| then None
    else if input[i].Broken? then Some(input[i].code)
    else if input[i].data == [] then None
    else Breaks(input, i + 1)
  }

  function Prefix(s: seq<Byte>, n: nat): seq<Byte> {
    if |s| <= n then s else s[..n]
  }

  /** Append as much of a chunk as the limit leaves room for. */
  function Fill(content: seq<Byte>, data: seq<Byte>, max: nat): (r: seq<Byte>)
    requires |content| <= max
    ensures |r| <= max && content <= r
  {
    if |content| < max then content + data[..if max - |content| < |data| then max - |content| else |data|] else content
  }

  predicate AllChunks(input: seq<Read>, n: nat) {
    n <= |input| && forall i :: 0 <= i < n ==> input[i].Chunk?
  }

  /** The bytes of the first `n` reads. */
  function Taken(input: seq<Read>, n: nat): seq<Byte>
    requires AllChunks(input, n)
  {
    if n == 0 then [] else Taken(input, n - 1) + input[n - 1].data
  }

  /** The buffer after the first `n` reads. */
  function Buffer(input: seq<Read>, n: nat, max: nat): (r: seq<Byte>)
    requires AllChunks(input, n)
    ensures |r| <= max
  {
    if n == 0 then [] else Fill(Buffer(input, n - 1, max), input[n - 1].data, max)
  }

  /** At every moment the buffer holds as much of what was read as the limit allows, and never more. */
  lemma {:induction false} BufferIsPrefix(input: seq<Read>, n: nat, max: nat)
    requires AllChunks(input, n)
    ensures Buffer(input, n, max) == Prefix(Taken(input, n), max) && |Buffer(input, n, max)| <= max
  {
    if n > 0 {
      BufferIsPrefix(input, n - 1, max);
      FillPrefix(Taken(input, n - 1), input[n - 1].data, max);
    }
  }

  lemma FillPrefix(before: seq<Byte>, data: seq<Byte>, max: nat)
    ensures |Prefix(before, max)| <= max
    ensures Fill(Prefix(before, max), data, max) == Prefix(before + data, max)
  {
  }

  lemma DeliveredStep(input: seq<Read>, i: nat, before: seq<Byte>)
    requires i < |input| && input[i].Chunk? && input[i].data != []
    ensures before + Delivered(input, i) == before + input[i].data + Delivered(input, i + 1)
  {
    assert before + (input[i].data + Delivered(input, i + 1)) == before + input[i].data + Delivered(input, i + 1);
  }

  lemma DeliveredEnd(input: seq<Read>, i: nat, before: seq<Byte>)
    requires i >= |input| || input[i].Broken? || input[i].data == []
    ensures before + Delivered(input, i) == before
  {
  }

  /** Bytes read so far that do not fit stay too many, whatever follows. */
  lemma PrefixGrows(before: seq<Byte>, after: seq<Byte>, max: nat)
    ensures |Prefix(before, max)| <= |Prefix(before + after, max)|
  {
  }

  /** What reading these bytes comes to. */
  function Outcome(bytes: seq<Byte>, breaks: Option<int>, max: nat, room: nat): Result<Stream, Error> {
    if max == U64_MAX then Err(LimitOverflow)
    else if |Prefix(bytes, max)| > room then Err(NoRoom)
    else if breaks.Some? then Err(ReadFailed(breaks.value))
    else Ok(if |bytes| <= max then Content(bytes) else TooLarge)
  }

  /** The loop has taken the first `n` reads. */
  ghost predicate Reading(input: seq<Read>, n: nat, max: nat, room: nat, content: seq<Byte>, tooLarge: bool) {
    && AllChunks(input, n) && content == Buffer(input, n, max) == Prefix(Taken(input, n), max) && |content| <= room
    && (tooLarge <==> |Taken(input, n)| > max)
    && Delivered(input, 0) == Taken(input, n) + Delivered(input, n) && Breaks(input, 0) == Breaks(input, n)
  }

  lemma ReadingStep(input: seq<Read>, n: nat, max: nat, word: nat, room: nat, content: seq<Byte>, tooLarge: bool)
    requires room <= word / 2 && 0 < word && max <= word
    requires Reading(input, n, max, room, content, tooLarge) && n < |input| && input[n].Chunk? && input[n].data != []
    ensures |content| <= max
    ensures
      var data := input[n].data;
      var content' := Fill(content, data, max);
      if |content'| > room then |Prefix(Delivered(input, 0), max)| > room
      else Reading(input, n + 1, max, room, content', tooLarge || SaturatingAdd(|content|, |data|, word) > max)
  {
    BufferIsPrefix(input, n + 1, max);
    DeliveredStep(input, n, Taken(input, n));
    PrefixGrows(Taken(input, n + 1), Delivered(input, n + 1), max);
  }

  lemma ReadingEnd(input: seq<Read>, n: nat, max: nat, room: nat, content: seq<Byte>, tooLarge: bool)
    requires Reading(input, n, max, room, content, tooLarge) && max != U64_MAX
    requires n == |input| || input[n].Broken? || input[n].data == []
    ensures Outcome(Delivered(input, 0), Breaks(input, 0), max, room)
         == if n < |input| && input[n].Broken? then Err(ReadFailed(input[n].code))
            else Ok(if tooLarge then TooLarge else Content(content))
  {
    DeliveredEnd(input, n, Taken(input, n));
  }

  /**
   `word` is the largest `usize`; `room` is how many bytes a vector can grow to, at most the
   largest `isize`.
   */
  method ReadLimited(input: seq<Read>, max: nat, word: nat, room: nat) returns (r: Result<Stream, Error>)
    requires max <= word <= U64_MAX && 0 < word && room <= word / 2
    ensures r == Outcome(Delivered(input, 0), Breaks(input, 0), max, room)
    ensures max < U64_MAX && max <= room && Breaks(input, 0).None? ==>
              r == Ok(if |Delivered(input, 0)| <= max then Content(Delivered(input, 0)) else TooLarge)
  {
    if max + 1 > U64_MAX {
      return Err(LimitOverflow);
    }
    var content: seq<Byte> := [];
    var tooLarge := false;
    var i := 0;
    while i < |input|
      invariant 0 <= i <= |input| && Reading(input, i, max, room, content, tooLarge)
    {
      var next := input[i];
      if next.Broken? {
        ReadingEnd(input, i, max, room, content, tooLarge);
        return Err(ReadFailed(next.code));
      }
      if next.data == [] {
        break;
      }
      ReadingStep(input, i, max, word, room, content, tooLarge);
      var previousLen := |content|;
      content := Fill(content, next.data, max);
      if |content| > room {
        return Err(NoRoom);
      }
      if SaturatingAdd(previousLen, |next.data|, word) > max {
        tooLarge := true;
      }
      i := i + 1;
    }
    ReadingEnd(input, i, max, room, content, tooLarge);
    r := Ok(if tooLarge then TooLarge else Content(content));
  }

  // ---- Any way of cutting ----

  function Concat(chunks: seq<seq<Byte>>, i: nat): seq<Byte>
    decreases |chunks| - i
  {
    if i >= |chunks| then [] else chunks[i] + Concat(chunks, i + 1)
  }

  function Chunks(chunks: seq<seq<Byte>>): (r: seq<Read>)
    ensures |r| == |chunks| && forall i :: 0 <= i < |r| ==> r[i] == Chunk(chunks[i])
  {
    seq(|chunks|, i requires 0 <= i < |chunks| => Chunk(chunks[i]))
  }

  lemma {:induction false} AnyCut(chunks: seq<seq<Byte>>, i: nat)
    requires forall j :: 0 <= j < |chunks| ==> chunks[j] != []
    ensures Delivered(Chunks(chunks), i) == Concat(chunks, i) && Breaks(Chunks(chunks), i) == None
    decreases |chunks| - i
  {
    if i < |chunks| {
      AnyCut(chunks, i + 1);
    }
  }

  /**
   However a content is cut into reads: the whole of it exactly when it is within the limit and
   fits, a refusal exactly when it is over a limit that fits, and never a part of it.
   */
  lemma WholeOrRefused(chunks: seq<seq<Byte>>, max: nat, room: nat)
    requires forall j :: 0 <= j < |chunks| ==> chunks[j] != []
    ensures
      var bytes := Concat(chunks, 0);
      var r := Outcome(Delivered(Chunks(chunks), 0), Breaks(Chunks(chunks), 0), max, room);
      && (r == Err(LimitOverflow) <==> max == 0xFFFF_FFFF_FFFF_FFFF)
      && (r == Ok(Content(bytes)) <==> max != U64_MAX && |bytes| <= max && |bytes| <= room)
      && (r == Ok(TooLarge) <==> max != U64_MAX && max < |bytes| && max <= room)
      && (forall other :: other != bytes ==> r != Ok(Content(other)))
  {
    AnyCut(chunks, 0);
  }

  // ---- Streams that end or break ----

  /** The reads of `chunks` and then whatever follows. */
  lemma {:induction false} CutThen(chunks: seq<seq<Byte>>, tail: seq<Read>, i: nat)
    requires (forall j :: 0 <= j < |chunks| ==> chunks[j] != []) && i <= |chunks| && tail != []
    requires tail[0].Broken? || tail[0].data == []
    ensures Delivered(Chunks(chunks) + tail, i) == Concat(chunks, i)
    ensures Breaks(Chunks(chunks) + tail, i) == if tail[0].Broken? then Some(tail[0].code) else None
    decreases |chunks| - i
  {
    var input := Chunks(chunks) + tail;
    if i < |chunks| {
      assert input[i] == Chunk(chunks[i]);
      CutThen(chunks, tail, i + 1);
    } else {
      assert input[i] == tail[0];
    }
  }

  /** A read of no bytes ends the stream: what might come after it does not matter. */
  lemma EndsAtEmptyRead(chunks: seq<seq<Byte>>, more: seq<Read>, max: nat, room: nat)
    requires forall j :: 0 <= j < |chunks| ==> chunks[j] != []
    ensures
      var input := Chunks(chunks) + ([Chunk([])] + more);
      Outcome(Delivered(input, 0), Breaks(input, 0), max, room) == Outcome(Concat(chunks, 0), None, max, room)
  {
    CutThen(chunks, [Chunk([])] + more, 0);
  }

  /** A read that fails is reported, and no content is, however much was read before. */
  lemma FailureReported(chunks: seq<seq<Byte>>, code: int, more: seq<Read>, max: nat, room: nat)
    requires (forall j :: 0 <= j < |chunks| ==> chunks[j] != []) && max < U64_MAX && max <= room
    ensures
      var input := Chunks(chunks) + ([Broken(code)] + more);
      Outcome(Delivered(input, 0), Breaks(input, 0), max, room) == Err(ReadFailed(code))
  {
    CutThen(chunks, [Broken(code)] + more, 0);
  }
}
