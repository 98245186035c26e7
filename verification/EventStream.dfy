/** The event-stream parser of sections 9.2.5 and 9.2.6 of the WHATWG HTML Living Standard,
    as far as it concerns the type and the data of messages. */
module EventStream {

  datatype Message = Message(kind: string, data: string)

  /** What a client has read of a stream: the current line, whether it ended a line on CR just now,
      the event type and data buffers, and the messages dispatched. */
  datatype Parser = Parser(line: string, afterCR: bool, kind: string, data: string, out: seq<Message>)

  function Begin(): Parser {
    Parser("", false, "", "", [])
  }

  predicate IsNewline(c: char) {
    c == '\n' || c == '\r'
  }

  predicate OneLine(s: string) {
    forall i :: 0 <= i < |s| ==> !IsNewline(s[i])
  }

  /** The position of the first colon at or after i, or the length. */
  function Colon(s: string, i: nat): (k: nat)
    requires i <= |s|
    ensures i <= k <= |s|
    decreases |s| - i
  {
    if i == |s| || s[i] == ':' then i else Colon(s, i + 1)
  }

  function WithoutSpace(s: string): string {
    if s != "" && s[0] == ' ' then s[1..] else s
  }

  /** A blank line dispatches, unless there is no data. */
  function Dispatch(p: Parser): Parser {
    if p.data == "" then p.(kind := "")
    else p.(kind := "", data := "",
            out := p.out + [Message(if p.kind == "" then "message" else p.kind, p.data[..|p.data| - 1])])
  }

  function Field(p: Parser, name: string, value: string): Parser {
    if name == "event" then p.(kind := value)
    else if name == "data" then p.(data := p.data + value + "\n")
    else p
  }

  /** The end of a line. A comment, a line with the colon first, is a field without a name. */
  function EndLine(p: Parser): Parser {
    var line, q := p.line, p.(line := "");
    if line == "" then Dispatch(q)
    else
      var k := Colon(line, 0);
      Field(q, line[..k], if k == |line| then "" else WithoutSpace(line[k + 1..]))
  }

  /** Lines end with CR LF, LF or CR. */
  function Char(p: Parser, c: char): Parser {
    if c == '\n' && p.afterCR then p.(afterCR := false)
    else if IsNewline(c) then EndLine(p).(afterCR := c == '\r')
    else p.(line := p.line + [c], afterCR := false)
  }

  function Feed(p: Parser, s: string): Parser
    decreases |s|
  {
    if s == "" then p else Feed(Char(p, s[0]), s[1..])
  }

  /** The messages a client has got when the stream ends: an unfinished one is dropped. */
  function Parse(s: string): seq<Message> {
    Feed(Begin(), s).out
  }

  lemma {:induction false} FeedAppend(p: Parser, s: string, t: string)
    ensures Feed(p, s + t) == Feed(Feed(p, s), t)
    decreases |s|
  {
    if s == "" {
      assert s + t == t;
    } else {
      assert (s + t)[1..] == s[1..] + t;
      FeedAppend(Char(p, s[0]), s[1..], t);
    }
  }

  lemma {:induction false} FeedText(p: Parser, s: string)
    requires OneLine(s)
    ensures Feed(p, s) == if s == "" then p else p.(line := p.line + s, afterCR := false)
    decreases |s|
  {
    if s != "" {
      FeedText(Char(p, s[0]), s[1..]);
      assert p.line + s == p.line + [s[0]] + s[1..];
    }
  }

  /** Messages once dispatched stay: reading on only adds to them. */
  lemma {:induction false} FeedKeeps(p: Parser, s: string)
    ensures p.out <= Feed(p, s).out
    decreases |s|
  {
    if s != "" {
      FeedKeeps(Char(p, s[0]), s[1..]);
    }
  }

  /** A line break leaves a client at the start of a line. */
  lemma {:induction false} FeedBreak(p: Parser, s: string)
    requires p.afterCR ==> p.line == ""
    ensures var q := Feed(p, s);
            && (q.afterCR ==> q.line == "")
            && Feed(p, s + "\n") == Char(q, '\n')
            && Char(q, '\n').line == "" && !Char(q, '\n').afterCR
    decreases |s|
  {
    if s == "" {
      assert s + "\n" == "\n" && "\n"[1..] == "";
      assert Feed(p, "\n") == Feed(Char(p, '\n'), "");
    } else {
      assert (s + "\n")[1..] == s[1..] + "\n";
      FeedBreak(Char(p, s[0]), s[1..]);
    }
  }

  /** What comes next does not depend on the messages dispatched before. */
  lemma {:induction false} FeedAfter(p: Parser, s: string, before: seq<Message>)
    ensures Feed(p.(out := before + p.out), s) == Feed(p, s).(out := before + Feed(p, s).out)
    decreases |s|
  {
    if s != "" {
      var q := Char(p, s[0]);
      assert Char(p.(out := before + p.out), s[0]) == q.(out := before + q.out);
      FeedAfter(q, s[1..], before);
    }
  }

  lemma FieldKeepsData(p: Parser)
    ensures p.line != "" ==> |EndLine(p).data| >= |p.data| && EndLine(p).out == p.out
  {
    if p.line != "" {
      var k := Colon(p.line, 0);
      var value := if k == |p.line| then "" else WithoutSpace(p.line[k + 1..]);
      assert EndLine(p) == Field(p.(line := ""), p.line[..k], value);
      assert |p.data + value + "\n"| > |p.data|;
    }
  }

  /** Data in the buffer is not lost: it stays there until it goes out in a message. */
  lemma {:induction false} DataGoesOut(p: Parser, s: string, n: nat)
    requires |p.out| > n || (|p.out| == n && |p.data| > 0)
    ensures var q := Feed(p, s); |q.out| > n || (|q.out| == n && |q.data| > 0)
    decreases |s|
  {
    if s != "" {
      FieldKeepsData(p);
      DataGoesOut(Char(p, s[0]), s[1..], n);
    }
  }

  /** No message has a line break in its type. */
  predicate KindsOneLine(p: Parser) {
    OneLine(p.line) && OneLine(p.kind) && forall i :: 0 <= i < |p.out| ==> OneLine(p.out[i].kind)
  }

  lemma FieldKinds(p: Parser, name: string, value: string)
    requires KindsOneLine(p) && OneLine(value)
    ensures KindsOneLine(Field(p, name, value))
  {
  }

  lemma LineKinds(p: Parser)
    requires KindsOneLine(p) && p.line != ""
    ensures KindsOneLine(EndLine(p))
  {
    var k := Colon(p.line, 0);
    var name, value := p.line[..k], if k == |p.line| then "" else WithoutSpace(p.line[k + 1..]);
    assert OneLine(value);
    FieldKinds(p.(line := ""), name, value);
    assert EndLine(p) == Field(p.(line := ""), name, value);
  }

  lemma DispatchKinds(p: Parser)
    requires KindsOneLine(p)
    ensures KindsOneLine(Dispatch(p))
  {
  }

  lemma CharKinds(p: Parser, c: char)
    requires KindsOneLine(p)
    ensures KindsOneLine(Char(p, c))
  {
    if c == '\n' && p.afterCR {
    } else if !IsNewline(c) {
    } else if p.line == "" {
      DispatchKinds(p.(line := ""));
    } else {
      LineKinds(p);
    }
  }

  lemma {:induction false} FeedKinds(p: Parser, s: string)
    requires KindsOneLine(p)
    ensures KindsOneLine(Feed(p, s))
    decreases |s|
  {
    if s != "" {
      CharKinds(p, s[0]);
      FeedKinds(Char(p, s[0]), s[1..]);
    }
  }

  /** The characters held for the first message and the current line. */
  function Held(p: Parser): nat {
    |p.line| + if p.out == [] then |p.data| else |p.out[0].data| + 1
  }

  lemma CharHeld(p: Parser, c: char)
    ensures Held(Char(p, c)) <= Held(p) + if IsNewline(c) then 0 else 1
  {
  }

  /** Nothing is held that was not read. */
  lemma {:induction false} FeedHeld(p: Parser, s: string)
    ensures Held(Feed(p, s)) <= Held(p) + |s|
    decreases |s|
  {
    if s != "" {
      CharHeld(p, s[0]);
      FeedHeld(Char(p, s[0]), s[1..]);
    }
  }
}
