/** The Server-Sent Event frames of internal/handler/query_stream.go and query_stream_multi.go,
    read back by a client that follows the standard. */
module Sse {
  import opened EventStream

  /** What the handlers print for one event. */
  function Frame(kind: string, data: string): string {
    "event: " + kind + "\ndata: " + data + "\n\n"
  }

  function Received(kind: string, data: string): Message {
    Message(if kind == "" then "message" else kind, data)
  }

  /** A client between two events. */
  predicate Ready(p: Parser) {
    p.line == "" && !p.afterCR && p.kind == "" && p.data == ""
  }

  lemma Cut(name: string, value: string)
    ensures var line := name + ": " + value;
            |name| < |line| && line[..|name|] == name && line[|name| + 1..] == " " + value
  {
    assert name + ": " + value == (name + ":") + (" " + value);
  }

  lemma FieldLine(p: Parser, name: string, value: string)
    requires name == "event" || name == "data"
    requires p.line == name + ": " + value
    ensures EndLine(p) == Field(p.(line := ""), name, value)
  {
    Cut(name, value);
    assert p.line == name + (": " + value);
    ColonAt(name, ": " + value);
    assert WithoutSpace(" " + value) == value;
  }

  lemma LineRead(p: Parser, name: string, value: string)
    requires p.line == "" && !p.afterCR && OneLine(value)
    requires name == "event" || name == "data"
    ensures Feed(p, name + ": " + value + "\n") == Field(p, name, value)
  {
    var text := name + ": " + value;
    var q := p.(line := text);
    assert Feed(p, text) == q by {
      FeedText(p, text);
      assert p.line + text == text;
    }
    FeedAppend(p, text, "\n");
    assert Feed(q, "\n") == Feed(Char(q, '\n'), "") == Char(q, '\n');
    FieldLine(q, name, value);
    assert q.(line := "") == p;
  }

  lemma ColonAt(name: string, rest: string)
    requires name == "event" || name == "data"
    requires rest != "" && rest[0] == ':'
    ensures Colon(name + rest, 0) == |name|
  {
    var s := name + rest;
    assert s[|name|] == ':';
    assert forall i :: 0 <= i < |name| ==> s[i] == name[i] && s[i] != ':';
    ColonFrom(s, 0, |name|);
  }

  lemma {:induction false} ColonFrom(s: string, i: nat, k: nat)
    requires i <= k < |s| && s[k] == ':' && forall j :: i <= j < k ==> s[j] != ':'
    ensures Colon(s, i) == k
    decreases k - i
  {
    if i < k {
      ColonFrom(s, i + 1, k);
    }
  }

  /** Up to the blank line, a frame fills the buffers and dispatches nothing. */
  lemma FrameBody(p: Parser, kind: string, data: string)
    requires Ready(p) && OneLine(kind) && OneLine(data)
    ensures Frame(kind, data) == "event: " + kind + "\n" + ("data: " + data + "\n") + "\n"
    ensures Feed(p, "event: " + kind + "\n" + ("data: " + data + "\n")) == p.(kind := kind, data := data + "\n")
  {
    var first, second := "event: " + kind + "\n", "data: " + data + "\n";
    assert "event" + ": " == "event: " && "data" + ": " == "data: ";
    LineRead(p, "event", kind);
    LineRead(p.(kind := kind), "data", data);
    FeedAppend(p, first, second);
    assert "" + data + "\n" == data + "\n";
  }

  /** A frame is read as one message. */
  lemma FrameRead(p: Parser, kind: string, data: string)
    requires Ready(p) && OneLine(kind) && OneLine(data)
    ensures Feed(p, Frame(kind, data)) == p.(out := p.out + [Received(kind, data)])
  {
    FrameBody(p, kind, data);
    var body := "event: " + kind + "\n" + ("data: " + data + "\n");
    FeedAppend(p, body, "\n");
    var q := Feed(p, body);
    assert Feed(q, "\n") == Feed(Char(q, '\n'), "") == Char(q, '\n');
    assert (data + "\n")[..|data + "\n"| - 1] == data;
  }

  lemma LinesRead(p: Parser, first: string, second: string)
    requires p.line == "" && !p.afterCR && OneLine(first) && OneLine(second)
    ensures Feed(p, "data: " + first + "\n") == p.(data := p.data + first + "\n")
    ensures Feed(p, "event: " + first + "\n") == p.(kind := first)
    ensures Feed(p, "data: " + first + "\n" + ("data: " + second + "\n"))
         == p.(data := p.data + first + "\n" + second + "\n")
  {
    assert "data" + ": " == "data: " && "event" + ": " == "event: ";
    LineRead(p, "data", first);
    LineRead(p, "event", first);
    var q := p.(data := p.data + first + "\n");
    LineRead(q, "data", second);
    FeedAppend(p, "data: " + first + "\n", "data: " + second + "\n");
  }

  lemma BlankLineRead(p: Parser, lines: string)
    requires Feed(p, lines).line == "" && !Feed(p, lines).afterCR
    ensures Feed(p, lines + "\n") == Dispatch(Feed(p, lines))
  {
    FeedAppend(p, lines, "\n");
    var q := Feed(p, lines);
    assert Feed(q, "\n") == Feed(Char(q, '\n'), "") == Char(q, '\n');
    assert q.(line := "") == q && EndLine(q).(afterCR := false) == EndLine(q);
  }

  /** What the standard says of messages: the type is optional, lines of data are joined,
      and without data there is no message. */
  lemma StandardMessages(kind: string, first: string, second: string)
    requires OneLine(kind) && OneLine(first) && OneLine(second)
    ensures kind != "" ==> Parse("event: " + kind + "\ndata: " + first + "\n\n") == [Message(kind, first)]
    ensures Parse("data: " + first + "\n" + "\n") == [Message("message", first)]
    ensures Parse("data: " + first + "\n" + ("data: " + second + "\n") + "\n")
         == [Message("message", first + "\n" + second)]
    ensures Parse("event: " + kind + "\n" + "\n") == []
  {
    FrameRead(Begin(), kind, first);
    LinesRead(Begin(), first, second);
    LinesRead(Begin(), kind, kind);
    BlankLineRead(Begin(), "data: " + first + "\n");
    BlankLineRead(Begin(), "data: " + first + "\n" + ("data: " + second + "\n"));
    BlankLineRead(Begin(), "event: " + kind + "\n");
    assert ("" + first + "\n")[..|first|] == first;
    assert ("" + first + "\n" + second + "\n")[..|first| + 1 + |second|] == first + "\n" + second;
  }

  /** A frame cut short is read as nothing yet. */
  lemma FrameCut(p: Parser, kind: string, data: string, n: nat)
    requires Ready(p) && OneLine(kind) && OneLine(data) && n < |Frame(kind, data)|
    ensures Feed(p, Frame(kind, data)[..n]).out == p.out
  {
    FrameBody(p, kind, data);
    var body := "event: " + kind + "\n" + ("data: " + data + "\n");
    assert Frame(kind, data)[..n] == body[..n];
    assert body == body[..n] + body[n..];
    FeedAppend(p, body[..n], body[n..]);
    FeedKeeps(p, body[..n]);
    FeedKeeps(Feed(p, body[..n]), body[n..]);
  }

  /** Data with a line break is cut at the break, and what follows cannot make up for it. */
  lemma BrokenData(kind: string, x: string, c: char, rest: string)
    requires OneLine(kind) && OneLine(x) && IsNewline(c)
    ensures Parse(Frame(kind, x + [c] + rest)) != [Received(kind, x + [c] + rest)]
  {
    var first, text := "event: " + kind + "\n", "data: " + x;
    var tail := rest + ("\n" + "\n");
    assert Frame(kind, x + [c] + rest) == first + (text + ([c] + tail));
    assert "event" + ": " == "event: " && "data" + ": " == "data: ";
    LineRead(Begin(), "event", kind);
    var p := Begin().(kind := kind);
    FeedAppend(Begin(), first, text + ([c] + tail));
    FeedAppend(p, text, [c] + tail);
    FeedText(p, text);
    var q := p.(line := text);
    assert p.line + text == text;
    FieldLine(q, "data", x);
    var r := Char(q, c);
    assert r.out == [] && r.line == "" && r.data == "" + x + "\n";
    assert ([c] + tail)[1..] == tail;
    FeedAppend(r, rest, "\n" + "\n");
    FeedHeld(r, rest);
    var t := Feed(r, rest);
    TwoBreaks(t);
    assert Held(Feed(t, "\n" + "\n")) <= |x| + 1 + |rest|;
  }

  lemma TwoBreaks(p: Parser)
    ensures Held(Feed(p, "\n" + "\n")) <= Held(p)
  {
    var s := "\n" + "\n";
    var q := Char(p, '\n');
    CharHeld(p, '\n');
    CharHeld(q, '\n');
    assert s[1..] == "\n";
    assert Feed(p, s) == Feed(q, "\n") == Feed(Char(q, '\n'), "");
  }

  /** A frame is read as the one message meant exactly when type and data have no line breaks. */
  lemma FrameReadIff(kind: string, data: string)
    ensures Parse(Frame(kind, data)) == [Received(kind, data)] <==> OneLine(kind) && OneLine(data)
  {
    if !OneLine(kind) {
      FeedKinds(Begin(), Frame(kind, data));
      assert [Received(kind, data)][0].kind == kind;
    } else if OneLine(data) {
      FrameRead(Begin(), kind, data);
    } else {
      var i := FirstBreak(data, 0);
      assert data == data[..i] + [data[i]] + data[i + 1..];
      BrokenData(kind, data[..i], data[i], data[i + 1..]);
    }
  }

  lemma {:induction false} FirstBreak(s: string, from: nat) returns (i: nat)
    requires from <= |s| && !OneLine(s) && OneLine(s[..from])
    ensures i < |s| && IsNewline(s[i]) && OneLine(s[..i])
    decreases |s| - from
  {
    assert s[..|s|] == s;
    if from < |s| && !IsNewline(s[from]) {
      i := FirstBreak(s, from + 1);
    } else {
      i := from;
    }
  }

  // ----- Streams -----

  datatype Event = Event(kind: string, data: string)

  /** The frames of the first n events. */
  function Stream(events: seq<Event>, n: nat): string
    requires n <= |events|
  {
    if n == 0 then "" else Stream(events, n - 1) + Frame(events[n - 1].kind, events[n - 1].data)
  }

  function Messages(events: seq<Event>, n: nat): (ms: seq<Message>)
    requires n <= |events|
    ensures |ms| == n
  {
    if n == 0 then [] else Messages(events, n - 1) + [Received(events[n - 1].kind, events[n - 1].data)]
  }

  predicate OneLiners(events: seq<Event>) {
    forall i :: 0 <= i < |events| ==> OneLine(events[i].kind) && OneLine(events[i].data)
  }

  lemma {:induction false} StreamRead(events: seq<Event>, n: nat)
    requires OneLiners(events) && n <= |events|
    ensures Feed(Begin(), Stream(events, n)) == Begin().(out := Messages(events, n))
  {
    if n > 0 {
      StreamRead(events, n - 1);
      var e := events[n - 1];
      FeedAppend(Begin(), Stream(events, n - 1), Frame(e.kind, e.data));
      FrameRead(Begin().(out := Messages(events, n - 1)), e.kind, e.data);
    }
  }

  /** The data line puts something into the data buffer, up to its first line break if there is one. */
  lemma DataLineRead(p: Parser, data: string)
    requires p.line == "" && !p.afterCR
    ensures var q := Feed(p, "data: " + data + "\n");
            q.line == "" && !q.afterCR && (|q.out| > |p.out| || (|q.out| == |p.out| && |q.data| > 0))
  {
    assert IsNewline((data + "\n")[|data|]);
    var i := FirstBreak(data + "\n", 0);
    var x, c, rest := (data + "\n")[..i], (data + "\n")[i], (data + "\n")[i + 1..];
    var text := "data: " + x;
    assert "data: " + data + "\n" == text + ([c] + rest);
    assert "data" + ": " == "data: ";
    FeedAppend(p, text, [c] + rest);
    FeedText(p, text);
    var q := p.(line := text);
    assert p.line + text == text;
    FieldLine(q, "data", x);
    assert |p.data + x + "\n"| > 0;
    assert ([c] + rest)[1..] == rest;
    DataGoesOut(Char(q, c), rest, |p.out|);
    FeedBreak(p, "data: " + data);
  }

  /** Any frame at all ends with a dispatch, and something is dispatched. */
  lemma FrameDelivers(p: Parser, kind: string, data: string)
    requires Ready(p)
    ensures Ready(Feed(p, Frame(kind, data)))
    ensures |Feed(p, Frame(kind, data)).out| > |p.out|
  {
    var first, second := "event: " + kind, "data: " + data + "\n";
    assert Frame(kind, data) == (first + "\n") + (second + "\n");
    FeedAppend(p, first + "\n", second + "\n");
    FeedBreak(p, first);
    FeedKeeps(p, first + "\n");
    var q := Feed(p, first + "\n");
    DataLineRead(q, data);
    FeedBreak(q, second);
  }

  lemma {:induction false} StreamDelivers(events: seq<Event>, n: nat)
    requires n <= |events|
    ensures Ready(Feed(Begin(), Stream(events, n)))
    ensures |Feed(Begin(), Stream(events, n)).out| >= n
  {
    if n > 0 {
      StreamDelivers(events, n - 1);
      var e := events[n - 1];
      FeedAppend(Begin(), Stream(events, n - 1), Frame(e.kind, e.data));
      FrameDelivers(Feed(Begin(), Stream(events, n - 1)), e.kind, e.data);
    }
  }

  /** A stream that reads as its events has only frames that read as theirs. */
  lemma {:induction false} ReadAreOneLiners(events: seq<Event>, n: nat)
    requires n <= |events| && Parse(Stream(events, n)) == Messages(events, n)
    ensures forall i :: 0 <= i < n ==> OneLine(events[i].kind) && OneLine(events[i].data)
  {
    if n > 0 {
      var e, p := events[n - 1], Feed(Begin(), Stream(events, n - 1));
      FeedAppend(Begin(), Stream(events, n - 1), Frame(e.kind, e.data));
      StreamDelivers(events, n - 1);
      FrameDelivers(p, e.kind, e.data);
      FeedKeeps(p, Frame(e.kind, e.data));
      assert p.out == Messages(events, n - 1);
      ReadAreOneLiners(events, n - 1);
      FeedAfter(Begin(), Frame(e.kind, e.data), p.out);
      assert p == Begin().(out := p.out + Begin().out);
      var ms := Parse(Frame(e.kind, e.data));
      assert p.out + ms == Messages(events, n);
      assert ms == (p.out + ms)[n - 1..] == [Received(e.kind, e.data)];
      FrameReadIff(e.kind, e.data);
    }
  }

  /** A client reads exactly the events the handler sent, in order, if and only if no type or data has a line break. */
  lemma StreamRoundTrip(events: seq<Event>)
    ensures Parse(Stream(events, |events|)) == Messages(events, |events|) <==> OneLiners(events)
  {
    if OneLiners(events) {
      StreamRead(events, |events|);
    } else if Parse(Stream(events, |events|)) == Messages(events, |events|) {
      ReadAreOneLiners(events, |events|);
    }
  }

  lemma {:induction false} StreamPrefix(events: seq<Event>, j: nat, n: nat)
    requires j <= n <= |events|
    ensures Stream(events, j) <= Stream(events, n)
    ensures Messages(events, n)[..j] == Messages(events, j)
    decreases n
  {
    if j < n {
      StreamPrefix(events, j, n - 1);
    } else if n > 0 {
      StreamPrefix(events, n - 1, n - 1);
    }
  }

  lemma {:induction false} CompleteFrames(events: seq<Event>, n: nat, size: nat) returns (j: nat)
    requires n <= |events| && size <= |Stream(events, n)|
    ensures j <= n && |Stream(events, j)| <= size && (j < n ==> size < |Stream(events, j + 1)|)
    decreases n
  {
    if size == |Stream(events, n)| {
      j := n;
    } else if |Stream(events, n - 1)| <= size {
      j := n - 1;
    } else {
      j := CompleteFrames(events, n - 1, size);
    }
  }

  lemma CutInFrame(events: seq<Event>, j: nat, size: nat)
    requires OneLiners(events) && j < |events| && |Stream(events, j)| <= size < |Stream(events, j + 1)|
    requires Stream(events, j + 1) <= Stream(events, |events|)
    ensures Parse(Stream(events, |events|)[..size]) == Messages(events, j)
  {
    var done, e := Stream(events, j), events[j];
    var cut := Frame(e.kind, e.data)[..size - |done|];
    assert Stream(events, |events|)[..size] == Stream(events, j + 1)[..size] == done + cut;
    FeedAppend(Begin(), done, cut);
    StreamRead(events, j);
    FrameCut(Begin().(out := Messages(events, j)), e.kind, e.data, size - |done|);
  }

  /** Of a stream cut off after any number of characters,
      a client reads exactly the events whose frames are complete. */
  lemma TruncatedStream(events: seq<Event>, size: nat) returns (j: nat)
    requires OneLiners(events) && size <= |Stream(events, |events|)|
    ensures j <= |events| && |Stream(events, j)| <= size && (j < |events| ==> size < |Stream(events, j + 1)|)
    ensures Parse(Stream(events, |events|)[..size]) == Messages(events, j) == Messages(events, |events|)[..j]
  {
    j := CompleteFrames(events, |events|, size);
    StreamPrefix(events, j, |events|);
    if j == |events| {
      assert Stream(events, j)[..size] == Stream(events, j);
      StreamRead(events, j);
    } else {
      StreamPrefix(events, j + 1, |events|);
      CutInFrame(events, j, size);
    }
  }
}
