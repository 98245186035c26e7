/** The event loop of internal/handler/query_stream.go: what a client of the stream gets to see. */
module QueryStream {
  import opened EventStream
  import opened Options
  import opened Sections
  import Sse

  const STARTED := "started"
  const SECTION_SELECTED := "section_selected"
  const COMPLETED := "completed"
  const ERROR := "error"

  /** One event of the retrieval strategy; elapsedMs is the clock's reading when the handler gets to it. */
  datatype Event = Event(
    kind: string, sectionId: string, sliceIndex: int, totalSlices: int, message: string,
    error: Option<string>, elapsedMs: int)

  datatype SseEvent = SseEvent(
    kind: string, section: Option<Payload>, sliceIndex: int, totalSlices: int, message: string,
    strategy: string, documentId: string, query: string, elapsedMs: int)

  datatype Context = Context(tree: Tree, storage: Storage, strategy: string, documentId: string, query: string)

  function Told(c: Context, e: Event): SseEvent {
    SseEvent(
      e.kind,
      if e.kind == SECTION_SELECTED && e.sectionId in c.tree then Some(Fill(c.storage, c.tree[e.sectionId])) else None,
      e.sliceIndex, e.totalSlices,
      if e.kind == ERROR && e.error.Some? then e.error.value else e.message,
      if e.kind == STARTED then c.strategy else "",
      if e.kind == STARTED then c.documentId else "",
      if e.kind == STARTED then c.query else "",
      if e.kind == COMPLETED then e.elapsedMs else 0)
  }

  /** What a frame says about an event. */
  ghost predicate Tells(c: Context, e: Event, sse: SseEvent) {
    && sse.kind == e.kind && sse.sliceIndex == e.sliceIndex && sse.totalSlices == e.totalSlices
    && (if e.kind == "started" then sse.strategy == c.strategy && sse.documentId == c.documentId && sse.query == c.query
        else sse.strategy == sse.documentId == sse.query == "")
    && (if e.kind == "completed" then sse.elapsedMs == e.elapsedMs else sse.elapsedMs == 0)
    && (if e.kind == "error" && e.error.Some? then sse.message == e.error.value else sse.message == e.message)
    && (sse.section.Some? <==> e.kind == "section_selected" && e.sectionId in c.tree)
    && (sse.section.Some? ==> Shows(c.storage, c.tree[e.sectionId], sse.section.value))
  }

  ghost predicate TellsAll(c: Context, events: seq<Event>, told: seq<SseEvent>) {
    |told| == |events| && forall i :: 0 <= i < |events| ==> Tells(c, events[i], told[i])
  }

  function ToldAll(c: Context, events: seq<Event>): (told: seq<SseEvent>)
    ensures |told| == |events| && forall i :: 0 <= i < |events| ==> told[i] == Told(c, events[i])
  {
    seq(|events|, i requires 0 <= i < |events| => Told(c, events[i]))
  }

  lemma ToldTells(c: Context, e: Event)
    ensures Tells(c, e, Told(c, e))
  {
  }

  lemma ToldTellsAll(c: Context, events: seq<Event>)
    ensures TellsAll(c, events, ToldAll(c, events))
  {
    forall i | 0 <= i < |events| ensures Tells(c, events[i], ToldAll(c, events)[i]) {
      ToldTells(c, events[i]);
    }
  }

  function Frames(told: seq<SseEvent>, marshal: SseEvent -> string): (es: seq<Sse.Event>)
    ensures |es| == |told|
  {
    seq(|told|, i requires 0 <= i < |told| => Sse.Event(told[i].kind, marshal(told[i])))
  }

  lemma FramesOneLineIff(told: seq<SseEvent>, marshal: SseEvent -> string)
    requires forall e: SseEvent :: OneLine(marshal(e))
    ensures Sse.OneLiners(Frames(told, marshal)) <==> forall i :: 0 <= i < |told| ==> OneLine(told[i].kind)
  {
    var frames := Frames(told, marshal);
    forall i | 0 <= i < |told| ensures (OneLine(frames[i].kind) && OneLine(frames[i].data)) == OneLine(told[i].kind) {
      assert frames[i] == Sse.Event(told[i].kind, marshal(told[i]));
    }
  }

  /** Serves the events: `told` is what each frame says. With a marshaller that escapes line breaks as JSON does,
      a client of the stream reads one message for each event, in order, exactly when no event type has a line break. */
  method HandleQueryStream(c: Context, events: seq<Event>, marshal: SseEvent -> string)
    returns (w: string, ghost told: seq<SseEvent>)
    requires forall e: SseEvent :: OneLine(marshal(e))
    ensures |told| == |events| && w == Sse.Stream(Frames(told, marshal), |told|)
    ensures Parse(w) == Sse.Messages(Frames(told, marshal), |told|)
       <==> forall i :: 0 <= i < |events| ==> OneLine(events[i].kind)
    ensures TellsAll(c, events, told)
  {
    w := "";
    told := ToldAll(c, events);
    ToldTellsAll(c, events);
    for i := 0 to |events|
      invariant w == Sse.Stream(Frames(told, marshal), i)
    {
      var evt := events[i];
      var sse := SseEvent(evt.kind, None, evt.sliceIndex, evt.totalSlices, evt.message, "", "", "", 0);
      if evt.kind == STARTED {
        sse := sse.(strategy := c.strategy);
        sse := sse.(documentId := c.documentId);
        sse := sse.(query := c.query);
      } else if evt.kind == SECTION_SELECTED {
        if evt.sectionId in c.tree {
          var sec := c.tree[evt.sectionId];
          var content := "";
          if sec.contentRef != "" {
            if sec.contentRef in c.storage {
              content := c.storage[sec.contentRef];
            }
          }
          sse := sse.(section := Some(Payload(sec.id, sec.parentId, sec.title, sec.summary, sec.tokenCount, content)));
        }
      } else if evt.kind == COMPLETED {
        sse := sse.(elapsedMs := evt.elapsedMs);
      } else if evt.kind == ERROR {
        if evt.error.Some? {
          sse := sse.(message := evt.error.value);
        }
      }
      assert sse == told[i];
      w := w + ("event: " + evt.kind + "\ndata: " + marshal(sse) + "\n\n");
    }
    FramesOneLineIff(told, marshal);
    Sse.StreamRoundTrip(Frames(told, marshal));
  }
}
