/** What Read does to the byte stream, independent of buffers and locks:
    the reader sees the undelivered rest of the current output window, then
    the windows the engine still holds, in order. */
module ReadStaging {
  import opened Audio

  /** The reader's view of the stream: the undelivered bytes of the current
      output window (`readBuf[readOff:]`), the output windows the engine can
      still hand back, and whether the stream is closed. */
  datatype ReadView = ReadView(pending: seq<Byte>, queue: seq<seq<Byte>>, closed: bool)

  /** The bytes one Read delivers, its status, and the view afterwards. */
  datatype ReadResult = ReadResult(delivered: seq<Byte>, status: Status, after: ReadView)

  function Min(a: nat, b: nat): nat
  {
    if a < b then a else b
  }

  /** Every byte the reader can still receive, in order. */
  function Remaining(v: ReadView): seq<Byte>
  {
    v.pending + Flatten(v.queue)
  }

  /** The engine hands back only non-empty windows. */
  ghost predicate NonEmptyWindows(v: ReadView)
  {
    forall q <- v.queue :: |q| > 0
  }

  /** One Read into a destination of `room` bytes. */
  function ReadStep(v: ReadView, room: nat): (r: ReadResult)
    ensures r.status == WouldBlock <==> v.pending == [] && room > 0 && v.queue == [] && !v.closed
    ensures r.status == EndOfStream <==> v.pending == [] && room > 0 && v.queue == [] && v.closed
    ensures r.status != Ok ==> r.delivered == [] && r.after == v
    ensures |r.delivered| <= room
    ensures r.delivered <= Remaining(v)
    ensures r.after.closed == v.closed
  {
    if v.pending != [] then
      var k := Min(room, |v.pending|);
      ReadResult(v.pending[..k], Ok, v.(pending := v.pending[k..]))
    else if room == 0 then
      ReadResult([], Ok, v)
    else if v.queue != [] then
      var w := v.queue[0];
      var k := Min(room, |w|);
      ReadResult(w[..k], Ok, v.(pending := w[k..], queue := v.queue[1..]))
    else if v.closed then
      ReadResult([], EndOfStream, v)
    else
      ReadResult([], WouldBlock, v)
  }

  lemma SplitAt(s: seq<Byte>, k: nat, tail: seq<Byte>)
    requires k <= |s|
    ensures s[..k] + (s[k..] + tail) == s + tail
  {
    assert s == s[..k] + s[k..];
  }

  /** No byte is lost or delivered twice: what one Read delivers, followed by
      what remains after it, is what remained before it. */
  lemma ReadStepConserves(v: ReadView, room: nat)
    ensures ReadStep(v, room).delivered + Remaining(ReadStep(v, room).after) == Remaining(v)
  {
    var r := ReadStep(v, room);
    if v.pending != [] {
      var k := Min(room, |v.pending|);
      assert r.delivered == v.pending[..k] && r.after.pending == v.pending[k..] && r.after.queue == v.queue;
      SplitAt(v.pending, k, Flatten(v.queue));
    } else if room > 0 && v.queue != [] {
      var w := v.queue[0];
      var k := Min(room, |w|);
      assert r.delivered == w[..k] && r.after.pending == w[k..] && r.after.queue == v.queue[1..];
      assert Remaining(v) == w + Flatten(v.queue[1..]);
      SplitAt(w, k, Flatten(v.queue[1..]));
    }
  }

  /** A Read into a non-empty destination that is not told to wait or that
      the stream ended delivers at least one byte. */
  lemma ReadStepProgress(v: ReadView, room: nat)
    requires NonEmptyWindows(v) && room > 0
    ensures ReadStep(v, room).status == Ok ==> |ReadStep(v, room).delivered| > 0
    ensures NonEmptyWindows(ReadStep(v, room).after)
  {
  }

  /** A series of Read calls with destinations of sizes `rooms`, stopping at
      the first one that does not succeed: all bytes delivered, the status of
      the last call, and the view afterwards. */
  function ReadSeries(v: ReadView, rooms: seq<nat>): ReadResult
    decreases |rooms|
  {
    if rooms == [] then ReadResult([], Ok, v)
    else
      var r := ReadStep(v, rooms[0]);
      if r.status != Ok then r
      else
        var later := ReadSeries(r.after, rooms[1..]);
        ReadResult(r.delivered + later.delivered, later.status, later.after)
  }

  /** Reads of any sizes reproduce the output stream in order: what they
      deliver, followed by what remains, is what remained at the start. */
  lemma {:induction false} ReadsReassemble(v: ReadView, rooms: seq<nat>)
    ensures ReadSeries(v, rooms).delivered + Remaining(ReadSeries(v, rooms).after) == Remaining(v)
    decreases |rooms|
  {
    if rooms != [] {
      var r := ReadStep(v, rooms[0]);
      ReadStepConserves(v, rooms[0]);
      if r.status == Ok {
        ReadsReassemble(r.after, rooms[1..]);
      }
    }
  }

  /** After Close, reads into non-empty destinations never wait: they deliver
      everything that remained, then report end of stream. */
  lemma {:induction false} DrainAfterClose(v: ReadView, rooms: seq<nat>)
    requires v.closed && NonEmptyWindows(v)
    requires forall i :: 0 <= i < |rooms| ==> rooms[i] > 0
    requires |rooms| > |Remaining(v)|
    ensures ReadSeries(v, rooms).status == EndOfStream
    ensures ReadSeries(v, rooms).delivered == Remaining(v)
    decreases |rooms|
  {
    var r := ReadStep(v, rooms[0]);
    ReadStepConserves(v, rooms[0]);
    ReadStepProgress(v, rooms[0]);
    if r.status == Ok {
      DrainAfterClose(r.after, rooms[1..]);
    } else {
      assert v.queue == [];
    }
  }
}
