/** Blob bytes as chunk frames: the upload loop and its feeder, the download loop, and the
    reader that serves the caller's buffers. */
module BlobStream {
  import opened Wrappers

  newtype Byte = x: int | 0 <= x < 256

  type Bytes = seq<Byte>

  /** How a read or a stream ends. */
  datatype End = More | Eof | Broken

  /** One answer of an io.Reader: bytes, possibly together with the end. */
  datatype Read = Read(data: Bytes, end: End)

  /** A frame on the wire: bytes, an error the server sent, or one that does not decode. */
  datatype Frame = Data(bytes: Bytes) | Failed | Garbled

  function Concat(chunks: seq<Bytes>): Bytes {
    if chunks == [] then [] else Concat(chunks[..|chunks| - 1]) + chunks[|chunks| - 1]
  }

  function DataOf(script: seq<Read>): Bytes {
    if script == [] then [] else DataOf(script[..|script| - 1]) + script[|script| - 1].data
  }

  /** The bytes before the first frame that is no data. */
  function Clean(frames: seq<Frame>): Bytes {
    if frames == [] || !frames[0].Data? then [] else frames[0].bytes + Clean(frames[1..])
  }

  predicate AllData(frames: seq<Frame>) {
    forall i :: 0 <= i < |frames| ==> frames[i].Data?
  }

  function Frames(chunks: seq<Bytes>): (fs: seq<Frame>)
    ensures |fs| == |chunks| && forall i :: 0 <= i < |fs| ==> fs[i] == Data(chunks[i])
  {
    seq(|chunks|, i requires 0 <= i < |chunks| => Data(chunks[i]))
  }

  lemma {:induction false} CleanSnoc(frames: seq<Frame>, f: Frame)
    requires AllData(frames)
    ensures Clean(frames + [f]) == Clean(frames) + if f.Data? then f.bytes else []
  {
    if frames == [] {
      assert frames + [f] == [f];
      assert [f][1..] == [];
    } else {
      assert (frames + [f])[1..] == frames[1..] + [f];
      CleanSnoc(frames[1..], f);
    }
  }

  lemma {:induction false} CleanFrames(chunks: seq<Bytes>)
    ensures Clean(Frames(chunks)) == Concat(chunks)
  {
    if chunks != [] {
      var n := |chunks| - 1;
      CleanFrames(chunks[..n]);
      assert Frames(chunks) == Frames(chunks[..n]) + [Data(chunks[n])];
      CleanSnoc(Frames(chunks[..n]), Data(chunks[n]));
    }
  }

  /** The reader's answers up to its end at index n. */
  ghost predicate EndsAt(script: seq<Read>, n: nat) {
    n < |script| && !script[n].end.More? && forall i :: 0 <= i < n ==> script[i].end.More?
  }

  /** How many of the answers carry bytes. */
  function Chunks(script: seq<Read>): nat {
    if script == [] then 0 else Chunks(script[..|script| - 1]) + if script[|script| - 1].data != [] then 1 else 0
  }

  /** Every send that these answers lead to succeeds. */
  ghost predicate SendsOk(script: seq<Read>, sendOk: nat -> bool) {
    forall k: nat :: k < Chunks(script) ==> sendOk(k)
  }

  /** The chunk loop of Put and of GetBlob: one frame per non-empty read, whatever sizes the
      reader chooses; `sendOk` says which sends succeed. It succeeds exactly when the reader ends
      cleanly and every send succeeds; what was sent is then all of the reader's bytes, and
      otherwise the bytes of the answers before the failure. */
  method SendChunks(script: seq<Read>, sendOk: nat -> bool, ghost n: nat) returns (chunks: seq<Bytes>, ok: bool)
    requires EndsAt(script, n)
    ensures ok <==> script[n].end.Eof? && SendsOk(script[..n + 1], sendOk)
    ensures SendsOk(script[..n + 1], sendOk) ==> Concat(chunks) == DataOf(script[..n + 1])
    ensures exists i: nat :: i <= n + 1 && Concat(chunks) == DataOf(script[..i])
    ensures forall f :: f in chunks ==> f != []
  {
    chunks := [];
    var i := 0;
    while true
      invariant 0 <= i <= n && |chunks| == Chunks(script[..i])
      invariant Concat(chunks) == DataOf(script[..i]) && SendsOk(script[..i], sendOk)
      invariant forall f :: f in chunks ==> f != []
      decreases n - i
    {
      var r := script[i];
      assert script[..i + 1][..i] == script[..i];
      if |r.data| > 0 {
        if !sendOk(|chunks|) {
          ChunksGrow(script[..n + 1], i + 1);
          assert script[..n + 1][..i + 1] == script[..i + 1];
          return chunks, false;
        }
        assert (chunks + [r.data])[..|chunks|] == chunks;
        chunks := chunks + [r.data];
      }
      if r.end.Eof? { return chunks, true; }
      if r.end.Broken? { return chunks, false; }
      i := i + 1;
    }
  }

  lemma {:induction false} ChunksGrow(script: seq<Read>, i: nat)
    requires i <= |script|
    ensures Chunks(script[..i]) <= Chunks(script)
  {
    if i == |script| {
      assert script[..i] == script;
    } else {
      var pre := script[..|script| - 1];
      ChunksGrow(pre, i);
      assert pre[..i] == script[..i];
    }
  }

  /** The byte store's Put: it reads its reader to the end or stops after so many bytes, and
      accepts what it got or fails. A read that fails makes it fail. */
  datatype Taker = Taker(stop: Option<nat>, accepts: bool)

  /** The store stops before it has seen the end of these bytes. */
  predicate StopsWithin(taker: Taker, bytes: Bytes) {
    taker.stop.Some? && taker.stop.value <= |bytes|
  }

  /** The server's feeder: every data frame into the pipe the store reads, until the store stops
      reading. A stream that breaks or a frame that does not decode makes the store's read fail;
      a store that has stopped before does not notice. */
  method Feed(frames: seq<Frame>, end: End, taker: Taker) returns (got: Bytes, stored: bool)
    requires !end.More?
    ensures got == if StopsWithin(taker, Clean(frames)) then Clean(frames)[..taker.stop.value] else Clean(frames)
    ensures stored <==> taker.accepts && (StopsWithin(taker, Clean(frames)) || (end.Eof? && AllData(frames)))
  {
    got := [];
    if taker.stop == Some(0) { return [], taker.accepts; }
    for i := 0 to |frames|
      invariant AllData(frames[..i]) && got == Clean(frames[..i]) && got <= Clean(frames) && !StopsWithin(taker, got)
    {
      assert frames[..i + 1] == frames[..i] + [frames[i]];
      CleanSnoc(frames[..i], frames[i]);
      CleanPrefix(frames, i + 1);
      if !frames[i].Data? {
        CleanStops(frames, i);
        return got, false;
      }
      got := got + frames[i].bytes;
      if StopsWithin(taker, got) { return got[..taker.stop.value], taker.accepts; }
    }
    assert frames[..|frames|] == frames;
    return got, end.Eof? && taker.accepts;
  }

  lemma {:induction false} CleanPrefix(frames: seq<Frame>, i: nat)
    requires i <= |frames|
    ensures Clean(frames[..i]) <= Clean(frames)
  {
    if i > 0 && frames[0].Data? {
      assert frames[..i][1..] == frames[1..][..i - 1];
      CleanPrefix(frames[1..], i - 1);
    }
  }

  lemma {:induction false} CleanStops(frames: seq<Frame>, i: nat)
    requires i < |frames| && AllData(frames[..i]) && !frames[i].Data?
    ensures Clean(frames) == Clean(frames[..i])
  {
    if i > 0 {
      assert frames[0] == frames[..i][0];
      assert frames[..i][1..] == frames[1..][..i - 1];
      CleanStops(frames[1..], i - 1);
    }
  }

  /** Put from the caller's side: it succeeds exactly when the source ends cleanly, every send
      succeeds, the store accepts and its reply (`reply`) arrives and decodes. A store that reads
      to the end accepts nothing but the whole object, whatever happens on the way. */
  method Upload(script: seq<Read>, sendOk: nat -> bool, taker: Taker, reply: bool, ghost n: nat)
    returns (ok: bool, got: Bytes, stored: bool)
    requires EndsAt(script, n)
    ensures ok <==> script[n].end.Eof? && SendsOk(script[..n + 1], sendOk) && taker.accepts && reply
    ensures ok ==> stored && got <= DataOf(script[..n + 1])
    ensures stored && taker.stop.None? ==>
              script[n].end.Eof? && SendsOk(script[..n + 1], sendOk) && got == DataOf(script[..n + 1])
  {
    var chunks, sent := SendChunks(script, sendOk, n);
    CleanFrames(chunks);
    got, stored := Feed(Frames(chunks), if sent then Eof else Broken, taker);
    return sent && stored && reply, got, stored;
  }

  /** The download side's reader: at most one frame's bytes at a time. `frames` and `end`
      are what the stream has still to deliver. */
  class BlobReader {
    var frames: seq<Frame>
    var end: End
    var buf: Bytes
    var done: bool

    ghost predicate Valid()
      reads this
    {
      !end.More?
    }

    /** The bytes still to come before anything goes wrong. */
    ghost function Rest(): Bytes
      reads this
    {
      if done then buf else buf + Clean(frames)
    }

    /** Nothing goes wrong any more. */
    ghost predicate Sound()
      reads this
    {
      done || (end.Eof? && AllData(frames))
    }

    constructor (frames: seq<Frame>, end: End)
      requires !end.More?
      ensures Valid() && !done && Rest() == Clean(frames) && (Sound() <==> end.Eof? && AllData(frames))
    {
      this.frames, this.end, buf, done := frames, end, [], false;
    }

    /** One Read into a buffer of `size` bytes: a next piece of what is left, the end only when
        nothing is left, an end of file only if nothing went wrong. */
    method Read(size: nat) returns (data: Bytes, e: End)
      requires Valid()
      modifies this
      ensures Valid() && |data| <= size
      ensures e.More? ==> data + Rest() == old(Rest()) && (size > 0 ==> data != [])
      ensures e.More? ==> done == old(done) && (Sound() <==> old(Sound()))
      ensures !e.More? ==> data == [] && old(Rest()) == []
      ensures !e.More? ==> (e.Eof? <==> old(Sound()))
    {
      while |buf| == 0
        invariant Valid() && Rest() == old(Rest()) && done == old(done) && (Sound() <==> old(Sound()))
        decreases |frames|
      {
        if done { return [], Eof; }
        if frames == [] {
          done := true;
          return [], end;
        }
        var f := frames[0];
        frames := frames[1..];
        if f.Garbled? { return [], Broken; }
        if f.Failed? {
          done := true;
          return [], Broken;
        }
        buf := f.bytes;
      }
      var n := if size < |buf| then size else |buf|;
      data := buf[..n];
      assert buf == buf[..n] + buf[n..];
      buf := buf[n..];
      return data, More;
    }

    /** Any sequence of buffer sizes: the pieces are the bytes in order, and the end comes only
        after the last one. */
    method ReadAll(sizes: seq<nat>) returns (out: Bytes, e: End)
      requires Valid()
      modifies this
      ensures out <= old(Rest())
      ensures !e.More? ==> out == old(Rest()) && (e.Eof? <==> old(Sound()))
    {
      out, e := [], More;
      for i := 0 to |sizes|
        invariant Valid() && out + Rest() == old(Rest()) && (Sound() <==> old(Sound()))
      {
        var data, e1 := Read(sizes[i]);
        if !e1.More? {
          assert out == old(Rest());
          return out, e1;
        }
        out := out + data;
      }
    }
  }

  /** Server and reader composed: whatever the splits on either side, the bytes read back are a
      prefix of the object's, and all of it exactly when an end of file is reported. */
  method Download(script: seq<Read>, sendOk: nat -> bool, ghost n: nat, sizes: seq<nat>) returns (out: Bytes, e: End)
    requires EndsAt(script, n)
    ensures exists i: nat :: i <= n + 1 && out <= DataOf(script[..i])
    ensures e.Eof? ==> out == DataOf(script[..n + 1])
    ensures !e.More? ==> (e.Eof? <==> script[n].end.Eof? && SendsOk(script[..n + 1], sendOk))
  {
    var chunks, ok := SendChunks(script, sendOk, n);
    CleanFrames(chunks);
    var r := new BlobReader(Frames(chunks), if ok then Eof else Broken);
    out, e := r.ReadAll(sizes);
  }
}
