/** Uploading a document and streaming its source back: internal/connecthandler/documents.go. */
module SourceStream {
  import opened Arithmetic
  import opened Bytes

  const CHUNK := 32 * 1024

  // ----- The reader of an upload -----

  class BytesReader {
    const data: seq<Byte>
    var pos: nat

    ghost predicate Valid()
      reads this
    {
      pos <= |data|
    }

    /** What has not been read yet. */
    ghost function Rest(): seq<Byte>
      requires Valid()
      reads this
    {
      data[pos..]
    }

    constructor (content: seq<Byte>)
      ensures Valid() && data == content && Rest() == content
    {
      data := content;
      pos := 0;
    }

    /** Fills as much of p as there is data for; at the end of the data, and only there, reports EOF. */
    method Read(p: array<Byte>) returns (n: nat, eof: bool)
      requires Valid()
      modifies this`pos, p
      ensures Valid() && n == Min(p.Length, |old(Rest())|)
      ensures eof <==> old(Rest()) == []
      ensures pos == old(pos) + n && p[..n] == data[old(pos)..pos]
      ensures p[n..] == old(p[..])[n..]
    {
      if pos >= |data| {
        return 0, true;
      }
      n := Min(p.Length, |data| - pos);
      forall i | 0 <= i < n {
        p[i] := data[pos + i];
      }
      pos := pos + n;
      return n, false;
    }
  }

  /** Storage takes in a reader, in buffers of any positive sizes, until EOF: it gets every byte once. */
  method Drain(r: BytesReader) returns (stored: seq<Byte>)
    requires r.Valid()
    modifies r
    ensures r.Valid() && r.Rest() == []
    ensures stored == old(r.Rest())
  {
    stored := [];
    var eof := false;
    while !eof
      invariant r.Valid() && old(r.pos) <= r.pos
      invariant stored == r.data[old(r.pos)..r.pos]
      invariant eof ==> r.Rest() == []
      decreases |r.data| - r.pos, !eof
    {
      var size: nat :| size > 0;
      var buffer := new Byte[size];
      var n, end := r.Read(buffer);
      stored := stored + buffer[..n];
      eof := end;
    }
  }

  // ----- The reader of a stored source -----

  datatype ReadError = Nil | EOF | Failed

  /** Any reader of the remaining content that keeps the contract of io.Reader. It may return less than it could,
      EOF together with the last bytes, or nothing at all (no more than `patience` times), and it may use the rest of
      the buffer as scratch space. Unless it is healthy, it may fail. */
  class Source {
    const healthy: bool
    var rest: seq<Byte>
    var patience: nat
    var failed: bool

    constructor (content: seq<Byte>, idleReads: nat, neverFails: bool)
      ensures rest == content && healthy == neverFails && !failed
    {
      healthy := neverFails;
      failed := false;
      rest := content;
      patience := idleReads;
    }

    method Read(p: array<Byte>) returns (n: nat, err: ReadError)
      requires p.Length > 0
      modifies this, p
      ensures n <= p.Length && old(rest) == p[..n] + rest
      ensures err.EOF? ==> rest == []
      ensures n == 0 && err.Nil? ==> patience < old(patience)
      ensures healthy ==> !err.Failed?
      ensures failed == (old(failed) || err.Failed?)
    {
      for i := 0 to p.Length
        modifies p
      {
        p[i] := *;
      }
      n := if rest == [] then 0 else 1;
      if * {
        n :| n <= p.Length && n <= |rest| && (patience == 0 && rest != [] ==> n > 0);
      }
      forall i | 0 <= i < n {
        p[i] := rest[i];
      }
      assert p[..n] == rest[..n];
      rest := rest[n..];
      err := *;
      if (err.EOF? && rest != []) || (err.Failed? && healthy) {
        err := Nil;
      }
      failed := failed || err.Failed?;
      if n == 0 && err.Nil? {
        if patience == 0 {
          err := EOF;
        } else {
          patience := patience - 1;
        }
      }
    }
  }

  // ----- The chunk loop -----

  datatype Outcome = Done | SendFailed | ReadFailed

  function Concat(chunks: seq<seq<Byte>>, n: nat): seq<Byte>
    requires n <= |chunks|
  {
    if n == 0 then [] else Concat(chunks, n - 1) + chunks[n - 1]
  }

  /** Chunks add up in their order. */
  lemma {:induction false} ConcatInOrder(a: seq<seq<Byte>>, b: seq<seq<Byte>>, n: nat)
    requires n <= |b|
    ensures Concat(a + b, |a| + n) == Concat(a, |a|) + Concat(b, n)
  {
    if n > 0 {
      ConcatInOrder(a, b, n - 1);
    } else {
      ConcatPrefix(a, b, |a|);
    }
  }

  lemma ConcatOne(chunk: seq<Byte>)
    ensures Concat([chunk], 1) == chunk
  {
    assert Concat([chunk], 0) == [];
  }

  lemma {:induction false} ConcatPrefix(a: seq<seq<Byte>>, b: seq<seq<Byte>>, n: nat)
    requires n <= |a|
    ensures Concat(a + b, n) == Concat(a, n)
  {
    if n > 0 {
      ConcatPrefix(a, b, n - 1);
    }
  }

  /** The chunks of 1 to 32768 bytes sent from one reused buffer add up to the content, or to a prefix of it on failure.
      `sends` says which calls of Send succeed. */
  method StreamSource(src: Source, sends: nat -> bool) returns (sent: seq<seq<Byte>>, outcome: Outcome)
    modifies src
    ensures forall i :: 0 <= i < |sent| ==> 1 <= |sent[i]| <= 32768
    ensures outcome.Done? ==> Concat(sent, |sent|) == old(src.rest)
    ensures Concat(sent, |sent|) <= old(src.rest)
    ensures !outcome.SendFailed? ==> Concat(sent, |sent|) + src.rest == old(src.rest)
    ensures outcome.ReadFailed? ==> src.failed && !src.healthy
    ensures outcome.Done? && !old(src.failed) ==> !src.failed
    ensures outcome.SendFailed? ==> !sends(|sent|)
    ensures src.healthy && (forall i :: sends(i)) ==> outcome.Done?
  {
    var buf := new Byte[CHUNK];
    sent := [];
    while true
      invariant forall i :: 0 <= i < |sent| ==> 1 <= |sent[i]| <= CHUNK
      invariant Concat(sent, |sent|) + src.rest == old(src.rest)
      invariant src.failed == old(src.failed)
      decreases |src.rest|, src.patience
    {
      ghost var before := src.rest;
      var n, err := src.Read(buf);
      if n > 0 {
        if !sends(|sent|) {
          return sent, SendFailed;
        }
        ConcatPrefix(sent, [buf[..n]], |sent|);
        assert Concat(sent, |sent|) + before == Concat(sent, |sent|) + buf[..n] + src.rest;
        sent := sent + [buf[..n]];
      }
      if !err.Nil? {
        if err.EOF? {
          return sent, Done;
        }
        return sent, ReadFailed;
      }
    }
  }

  // ----- Documents -----

  datatype CreateResult = Created | InvalidArgument | StorageFailed | DatabaseFailed | EnqueueFailed

  datatype SourceResult = NotFound | NoStoredSource | Streamed(chunks: seq<seq<Byte>>, outcome: Outcome)

  class Documents {
    var blobs: map<string, seq<Byte>>  // the storage
    var refs: map<string, string>      // the source reference of each document

    constructor ()
      ensures blobs == map[] && refs == map[]
    {
      blobs, refs := map[], map[];
    }

    /** The storage takes in what the reader yields. */
    method Put(key: string, reader: BytesReader)
      requires reader.Valid()
      modifies this`blobs, reader
      ensures blobs == old(blobs)[key := old(reader.Rest())]
    {
      var stored := Drain(reader);
      blobs := blobs[key := stored];
    }

    /** An upload under a new identifier and its storage key. The flags say which of the three services work. */
    method Create(docId: string, key: string, content: seq<Byte>, stores: bool, inserts: bool, enqueues: bool)
      returns (r: CreateResult)
      modifies this
      ensures r == if |content| == 0 then InvalidArgument else if !stores then StorageFailed
                   else if !inserts then DatabaseFailed else if !enqueues then EnqueueFailed else Created
      ensures blobs == if |content| > 0 && stores then old(blobs)[key := content] else old(blobs)
      ensures refs == if |content| > 0 && stores && inserts then old(refs)[docId := key] else old(refs)
    {
      if |content| == 0 {
        return InvalidArgument;
      }
      var reader := new BytesReader(content);
      if !stores {
        return StorageFailed;
      }
      Put(key, reader);
      if !inserts {
        return DatabaseFailed;
      }
      refs := refs[docId := key];
      if !enqueues {
        return EnqueueFailed;
      }
      return Created;
    }

    method GetSource(docId: string, idleReads: nat, healthy: bool, sends: nat -> bool) returns (r: SourceResult)
      ensures r.NotFound? <==> docId !in refs || refs[docId] == ""
      ensures r.NoStoredSource? <==> docId in refs && refs[docId] != "" && refs[docId] !in blobs
      ensures r.Streamed? ==>
                var content := blobs[refs[docId]];
                && (forall i :: 0 <= i < |r.chunks| ==> 1 <= |r.chunks[i]| <= CHUNK)
                && Concat(r.chunks, |r.chunks|) <= content
                && (r.outcome.Done? ==> Concat(r.chunks, |r.chunks|) == content)
                && (r.outcome.ReadFailed? ==> !healthy)
                && (r.outcome.SendFailed? ==> !sends(|r.chunks|))
      ensures r.Streamed? && healthy && (forall i :: sends(i)) ==> r.outcome.Done?
    {
      if docId !in refs || refs[docId] == "" {
        return NotFound;
      }
      if refs[docId] !in blobs {
        return NoStoredSource;
      }
      var src := new Source(blobs[refs[docId]], idleReads, healthy);
      var chunks, outcome := StreamSource(src, sends);
      return Streamed(chunks, outcome);
    }
  }

  /** An upload, and which of the three services work for it. */
  datatype Upload = Upload(docId: string, key: string, content: seq<Byte>, stores: bool, inserts: bool, enqueues: bool)

  /** Upload, let any other uploads under other identifiers and keys come and go, then stream the source:
      with a reader and a client that do not fail, the bytes that come back are the bytes that went in. */
  method UploadThenSource(docs: Documents, docId: string, key: string, content: seq<Byte>,
                          others: seq<Upload>, idleReads: nat, healthy: bool, sends: nat -> bool)
    returns (created: CreateResult, r: SourceResult)
    requires key != "" && forall i :: 0 <= i < |others| ==> others[i].docId != docId && others[i].key != key
    modifies docs
    ensures created == if |content| == 0 then InvalidArgument else Created
    ensures created.Created? ==> r.Streamed? && Concat(r.chunks, |r.chunks|) <= content
    ensures created.Created? && healthy && (forall i :: sends(i)) ==>
              r.outcome.Done? && Concat(r.chunks, |r.chunks|) == content
  {
    created := docs.Create(docId, key, content, true, true, true);
    for i := 0 to |others|
      invariant created.Created? ==>
                  docId in docs.refs && docs.refs[docId] == key && key in docs.blobs && docs.blobs[key] == content
    {
      var u := others[i];
      var _ := docs.Create(u.docId, u.key, u.content, u.stores, u.inserts, u.enqueues);
    }
    r := docs.GetSource(docId, idleReads, healthy, sends);
  }
}
