/** The response stream of the chat handler (app/api/chat/route.ts): every
    chunk of the model's output stream is enqueued as it arrives, then the
    stream is closed. Chunks are kept as text; their UTF-8 encoding is left
    out. */
module Relay {
  import opened Text

  /** What the handler does to the response stream's controller. */
  datatype Event = Enqueue(chunk: string) | Close

  /** The text a consumer reads: the enqueued chunks, in order, up to the
      first close. */
  function Delivered(events: seq<Event>): string
  {
    if |events| == 0 then []
    else match events[0]
      case Close => []
      case Enqueue(c) => c + Delivered(events[1..])
  }

  /** Exactly one close, and it comes last. */
  ghost predicate ClosedOnceAtEnd(events: seq<Event>) {
    && |events| > 0
    && events[|events| - 1] == Close
    && forall k :: 0 <= k < |events| - 1 ==> events[k].Enqueue?
  }

  /** The `start` callback: enqueue each upstream chunk in arrival order,
      then close. */
  method Pump(chunks: seq<string>) returns (events: seq<Event>)
    ensures |events| == |chunks| + 1
    ensures ClosedOnceAtEnd(events)
    ensures forall k :: 0 <= k < |chunks| ==> events[k] == Enqueue(chunks[k])
    ensures Delivered(events) == Concat(chunks)
  {
    events := [];
    var i := 0;
    while i < |chunks|
      invariant 0 <= i <= |chunks|
      invariant |events| == i
      invariant forall k :: 0 <= k < i ==> events[k] == Enqueue(chunks[k])
      invariant Delivered(events + [Close]) == Concat(chunks[..i])
    {
      DeliveredStep(events, chunks[i]);
      assert chunks[..i + 1][..i] == chunks[..i];
      events := events + [Enqueue(chunks[i])];
      i := i + 1;
    }
    assert chunks[..i] == chunks;
    events := events + [Close];
  }

  /** Enqueueing one more chunk before the close adds exactly that chunk to
      what the consumer reads. */
  lemma {:induction false} DeliveredStep(events: seq<Event>, c: string)
    requires forall k :: 0 <= k < |events| ==> events[k].Enqueue?
    ensures Delivered(events + [Enqueue(c)] + [Close]) == Delivered(events + [Close]) + c
    decreases |events|
  {
    if |events| == 0 {
      assert ([Enqueue(c)] + [Close])[1..] == [Close];
    } else {
      var rest := events[1..];
      DeliveredStep(rest, c);
      assert (events + [Enqueue(c)] + [Close])[1..] == rest + [Enqueue(c)] + [Close];
      assert (events + [Close])[1..] == rest + [Close];
    }
  }
}
