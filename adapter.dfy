/** The Paulstretch stream adapter: pipe-like Write, Read and Close over an
    engine that only takes and gives whole windows. The mutex, the condition
    variable and the write-permit channel are not modelled (the model is
    sequential); what another goroutine does meanwhile enters as parameters
    (a Close landing inside Write) or as statuses (a Read that would wait). */
module Adapter {
  import opened Audio
  import opened Libpaulstretch
  import opened WriteStaging
  import opened ReadStaging

  /** Whether a Close made by another goroutine while Write waits for the
      permit of window number `concurrentClose.value` (counting from 0 within
      one call) lands before all `count` windows of the call are submitted. */
  predicate Interrupts(concurrentClose: Option<nat>, count: nat)
  {
    concurrentClose.Some? && concurrentClose.value < count
  }

  /** Appending the next window to a log that ends with the first `k` windows. */
  lemma LogGrows(log: seq<seq<Byte>>, ws: seq<seq<Byte>>, k: nat)
    requires k < |ws|
    ensures log + ws[..k + 1] == (log + ws[..k]) + [ws[k]]
  {
    assert ws[..k + 1] == ws[..k] + [ws[k]];
  }

  /** One round of Write's loop on the byte stream: the window taken from the
      staged bytes and `rest` is the next window of the whole call, and what
      is left of this call's bytes cuts into the windows after it. */
  lemma WindowTaken(data: seq<Byte>, ws: seq<seq<Byte>>, count: nat, w: nat, n: nat, staged: seq<Byte>,
                    rest: seq<Byte>, window: seq<Byte>, left: seq<Byte>, c: nat, r: seq<Byte>)
    requires w > 0 && count <= |ws| && |staged| + |rest| >= w
    requires Chunks(staged + rest, w) == ws[count..] && Remainder(staged + rest, w) == r
    requires window == (staged + rest)[..w] && left == (staged + rest)[w..]
    requires c == w - |staged| && c <= |rest| && left == rest[c..]
    requires n <= |data| && rest == data[n..]
    ensures count < |ws| && window == ws[count]
    ensures Chunks(left, w) == ws[count + 1..] && Remainder(left, w) == r
    ensures n + c <= |data| && left == data[n + c..]
  {
    NextWindow(ws, count, staged + rest, w);
  }

  /** A fresh byte array holding the bytes of `samples`. */
  method ByteView(samples: array<Sample>) returns (b: array<Byte>)
    ensures fresh(b) && b[..] == SampleBytes(samples[..])
  {
    var bytes := SampleBytes(samples[..]);
    b := new Byte[|bytes|];
    forall i | 0 <= i < b.Length {
      b[i] := bytes[i];
    }
    assert b[..] == bytes;
    assert samples[..] == old(samples[..]);
  }

  /** Writes the samples encoded by the bytes `b` back into `samples`. */
  method StoreSamples(b: array<Byte>, samples: array<Sample>)
    requires b.Length == SAMPLE_SIZE * samples.Length
    modifies samples
    ensures SampleBytes(samples[..]) == b[..]
  {
    var view := ToSamples(b[..]);
    forall i | 0 <= i < samples.Length {
      samples[i] := view[i];
    }
    assert samples[..] == view;
    assert b[..] == old(b[..]);
    BytesRoundTrip(b[..]);
  }

  /** The entries appended to a log. */
  lemma LogSuffix(log: seq<seq<Byte>>, ws: seq<seq<Byte>>)
    ensures (log + ws)[|log|..] == ws
  {
  }

  class Paulstretch {
    const ps: Engine
    const writeBuf: array<Byte>
    var writeOff: nat
    const readBuf: array<Byte>
    var readOff: nat
    var closed: bool
    /** The window size in samples given at construction. */
    ghost const windowSize: nat

    ghost predicate Valid()
      reads this, ps
    {
      && ps.Valid()
      && windowSize > 0
      && ps.windowBytes == SAMPLE_SIZE * windowSize
      && writeBuf != readBuf
      && writeBuf.Length == ps.windowBytes
      && readBuf.Length == ps.windowBytes
      && writeOff < writeBuf.Length
      && readOff <= readBuf.Length
    }

    /** The bytes written but not yet submitted: `writeBuf[0:writeOff]`. */
    ghost function Staged(): seq<Byte>
      reads this, writeBuf
      requires writeOff <= writeBuf.Length
    {
      writeBuf[..writeOff]
    }

    /** What the reader can still receive, as seen by Read. */
    ghost function View(): ReadView
      reads this, ps, readBuf
      requires readOff <= readBuf.Length
    {
      ReadView(readBuf[readOff..], ps.output, closed)
    }

    /** NewPaulstretch: both staging buffers hold one window, nothing is
        staged for writing and nothing is pending for reading. */
    constructor (stretchFactor: real, windowSize: nat)
      requires stretchFactor >= 1.0 && windowSize > 0
      ensures Valid() && fresh(ps) && fresh(writeBuf) && fresh(readBuf)
      ensures this.windowSize == windowSize && ps.stretchFactor == stretchFactor
      ensures writeBuf.Length == SAMPLE_SIZE * windowSize && readBuf.Length == SAMPLE_SIZE * windowSize
      ensures writeOff == 0 && readOff == readBuf.Length && !closed
      ensures ps.submitted == [] && ps.output == []
      ensures Staged() == [] && Remaining(View()) == []
    {
      ps := new Engine(stretchFactor, windowSize);
      writeBuf := new Byte[SAMPLE_SIZE * windowSize];
      writeOff := 0;
      readBuf := new Byte[SAMPLE_SIZE * windowSize];
      readOff := SAMPLE_SIZE * windowSize;
      closed := false;
      this.windowSize := windowSize;
    }

    /** Close: a one-way flag. Nothing else changes, so a second call is a no-op. */
    method Close() returns (status: Status)
      modifies this`closed
      ensures closed && status == Ok
    {
      closed := true;
      status := Ok;
    }

    /** The effect of `Write(data)` returning `(n, status)`. A closed stream
        accepts nothing. Otherwise the staged bytes followed by `data` are cut
        into windows that go to the engine in order, and the rest stays staged;
        a Close landing before window `k` stops the call after `k` windows,
        reporting only this call's bytes that went into them. */
    twostate predicate WriteEffect(data: seq<Byte>, concurrentClose: Option<nat>, n: nat, status: Status)
      reads this, ps, writeBuf
    {
      var w := writeBuf.Length;
      && w > 0
      && old(writeOff) < w
      && ps.output == old(ps.output)
      && if old(closed) then
           && n == 0 && status == EndOfStream && closed
           && writeOff == old(writeOff) && writeBuf[..] == old(writeBuf[..])
           && ps.submitted == old(ps.submitted)
         else
           var s := old(writeBuf[..writeOff]) + data;
           var ws := Chunks(s, w);
           if Interrupts(concurrentClose, |ws|) then
             var k := concurrentClose.value;
             && status == EndOfStream && closed && writeOff == 0
             && ps.submitted == old(ps.submitted) + ws[..k]
             && (k == 0 ==> n == 0)
             && (k > 0 ==> n <= |data| && old(writeBuf[..writeOff]) + data[..n] == Flatten(ws[..k]))
             && (k > 0 ==> n + old(writeOff) == k * w)
           else
             && status == Ok && !closed && n == |data|
             && ps.submitted == old(ps.submitted) + ws
             && writeOff < w && writeBuf[..writeOff] == Remainder(s, w)
    }

    /** The next window for the engine, in Write's loop: taken straight
        from `rest` when nothing is staged, otherwise `writeBuf` topped up from
        `rest`. `c` is how many bytes of `rest` it used. */
    method TakeWindow(rest: seq<Byte>) returns (window: seq<Byte>, left: seq<Byte>, c: nat)
      requires Valid() && writeOff + |rest| >= writeBuf.Length
      modifies this`writeOff, writeBuf
      ensures Valid() && writeOff == 0
      ensures c == writeBuf.Length - old(writeOff) && c <= |rest| && left == rest[c..]
      ensures window == old(Staged()) + rest[..c]
      ensures window == (old(Staged()) + rest)[..writeBuf.Length]
      ensures left == (old(Staged()) + rest)[writeBuf.Length..]
    {
      var w := writeBuf.Length;
      c := w - writeOff;
      if writeOff == 0 {
        window := rest[..w];
        left := rest[w..];
      } else {
        forall i | writeOff <= i < w {
          writeBuf[i] := rest[i - writeOff];
        }
        window := writeBuf[..];
        left := rest[c..];
        writeOff := 0;
      }
    }

    /** Keeps the last bytes of a Write, fewer than fill a window, staged in
        `writeBuf` (the tail of Write, after its loop). */
    method StageRest(rest: seq<Byte>)
      requires Valid() && writeOff + |rest| < writeBuf.Length
      modifies this`writeOff, writeBuf
      ensures Valid()
      ensures Staged() == old(Staged()) + rest
    {
      forall i | writeOff <= i < writeOff + |rest| {
        writeBuf[i] := rest[i - writeOff];
      }
      writeOff := writeOff + |rest|;
    }

    /** The loop of Write: submits whole windows, in order, until fewer bytes
        than a window are left or a concurrent Close lands (see Interrupts). */
    method SubmitWindows(data: seq<Byte>, concurrentClose: Option<nat>)
      returns (n: nat, rest: seq<Byte>, count: nat, interrupted: bool)
      requires Valid() && !closed
      modifies this`writeOff, ps, writeBuf
      ensures Valid() && ps.output == old(ps.output)
      ensures var s := old(Staged()) + data; var ws := Chunks(s, writeBuf.Length);
        && count <= |ws| && ps.submitted == old(ps.submitted) + ws[..count]
        && n <= |data| && (count == 0 ==> n == 0)
        && (count > 0 ==> writeOff == 0)
        && (count > 0 ==> Chunks(data[n..], writeBuf.Length) == ws[count..])
        && (count > 0 ==> Remainder(data[n..], writeBuf.Length) == Remainder(s, writeBuf.Length))
        && (interrupted ==> concurrentClose == Some(count) && count < |ws| && writeOff == 0)
        && (!interrupted ==> count == |ws| && ps.submitted == old(ps.submitted) + ws)
        && (!interrupted ==> !Interrupts(concurrentClose, |ws|) && rest == data[n..])
        && (!interrupted ==> writeOff + |rest| < writeBuf.Length)
        && (!interrupted ==> Staged() + rest == Remainder(s, writeBuf.Length))
    {
      var w := writeBuf.Length;
      ghost var stage := Staged();
      ghost var ws := Chunks(stage + data, w);
      ghost var r := Remainder(stage + data, w);
      n, rest, count, interrupted := 0, data, 0, false;
      while writeOff + |rest| >= w
        invariant Valid()
        invariant ps.output == old(ps.output)
        invariant count <= |ws|
        invariant !Interrupts(concurrentClose, count)
        invariant ps.submitted == old(ps.submitted) + ws[..count]
        invariant Chunks(Staged() + rest, w) == ws[count..]
        invariant Remainder(Staged() + rest, w) == r
        invariant n <= |data| && rest == data[n..]
        invariant count == 0 ==> n == 0 && Staged() == stage
        invariant count > 0 ==> writeOff == 0
        decreases |rest|
      {
        ghost var staged := Staged();
        assert count > 0 ==> staged + rest == rest;
        var window, left, c := TakeWindow(rest);
        WindowTaken(data, ws, count, w, n, staged, rest, window, left, c, r);
        if concurrentClose == Some(count) {
          return n, left, count, true;
        }
        LogGrows(old(ps.submitted), ws, count);
        ps.Write(window);
        assert Staged() + left == left;
        n, rest, count := n + c, left, count + 1;
      }
      assert Chunks(Staged() + rest, w) == [];
      assert ws[..count] == ws;
    }

    /** Write: cuts `data` into whole windows for the engine, taking a window
        straight from `data` when nothing is staged and topping up `writeBuf`
        otherwise. `concurrentClose` says when a Close from another goroutine
        lands (see Interrupts); each submission is assumed to get its permit. */
    method Write(data: seq<Byte>, concurrentClose: Option<nat>) returns (n: nat, status: Status)
      requires Valid()
      modifies this`writeOff, this`closed, ps, writeBuf
      ensures Valid()
      ensures WriteEffect(data, concurrentClose, n, status)
      ensures status == Ok ==>
        && |ps.submitted| == |old(ps.submitted)| + (old(writeOff) + |data|) / writeBuf.Length
        && writeOff == (old(writeOff) + |data|) % writeBuf.Length
        && Flatten(ps.submitted[|old(ps.submitted)|..]) + Staged() == old(Staged()) + data
    {
      if closed {
        return 0, EndOfStream;
      }
      ghost var stage := Staged();
      ghost var ws := Chunks(stage + data, writeBuf.Length);
      var rest, count, interrupted;
      n, rest, count, interrupted := SubmitWindows(data, concurrentClose);
      if interrupted {
        // the Close that landed while window `count` waited for its permit
        status := Close();
        if count > 0 {
          StoppedAfter(stage, data, writeBuf.Length, count, n);
        }
        return n, EndOfStream;
      }
      if |rest| > 0 {
        StageRest(rest);
        n := n + |rest|;
      }
      ChunkCount(stage + data, writeBuf.Length);
      Reassembly(stage + data, writeBuf.Length);
      LogSuffix(old(ps.submitted), ws);
      status := Ok;
    }

    /** WriteSamples: Write on the byte view of `samples`, reporting whole
        samples. Taking the address of `samples[0]` demands a non-empty slice. */
    method WriteSamples(samples: seq<Sample>, concurrentClose: Option<nat>)
      returns (count: nat, status: Status, ghost bytes: nat)
      requires Valid() && |samples| > 0
      modifies this`writeOff, this`closed, ps, writeBuf
      ensures Valid()
      ensures WriteEffect(SampleBytes(samples), concurrentClose, bytes, status)
      ensures SAMPLE_SIZE * count <= bytes < SAMPLE_SIZE * count + SAMPLE_SIZE
      ensures status == Ok ==> count == |samples|
    {
      var n;
      n, status := Write(SampleBytes(samples), concurrentClose);
      bytes := n;
      count := SampleCount(n);
    }

    /** The first branch of Read: copies as much of `readBuf[readOff:]` as
        fits into `data`. */
    method ServePending(data: array<Byte>) returns (n: nat)
      requires Valid() && data != readBuf && readOff < readBuf.Length
      modifies this`readOff, data
      ensures Valid() && readOff == old(readOff) + n
      ensures n == Min(data.Length, |old(readBuf[readOff..])|)
      ensures data[..n] == old(readBuf[readOff..])[..n] && data[n..] == old(data[n..])
      ensures readBuf[readOff..] == old(readBuf[readOff..])[n..]
    {
      n := Min(data.Length, readBuf.Length - readOff);
      forall i | 0 <= i < n {
        data[i] := readBuf[readOff + i];
      }
      readOff := readOff + n;
    }

    /** The end of Read: copies as much of a fresh output window as fits into
        `data` and keeps the rest, if any, in `readBuf`. */
    method DeliverWindow(data: array<Byte>, window: seq<Byte>) returns (n: nat)
      requires Valid() && data != readBuf && readOff == readBuf.Length && |window| == readBuf.Length
      modifies this`readOff, readBuf, data
      ensures Valid() && n == Min(data.Length, |window|)
      ensures data[..n] == window[..n] && data[n..] == old(data[n..])
      ensures readBuf[readOff..] == window[n..]
    {
      n := Min(data.Length, readBuf.Length);
      forall i | 0 <= i < n {
        data[i] := window[i];
      }
      if n < readBuf.Length {
        forall i | n <= i < readBuf.Length {
          readBuf[i] := window[i];
        }
        readOff := n;
      }
    }

    /** Read: serves the undelivered rest of the current output window first;
        otherwise, for a non-empty destination, fetches the next output window
        from the engine and keeps what does not fit in `readBuf`. With no
        window available the stream ends if it is closed; otherwise the call
        would wait for Write (reported as WouldBlock, nothing changes). */
    method Read(data: array<Byte>) returns (n: nat, status: Status)
      requires Valid() && data != readBuf && data != writeBuf
      modifies this`readOff, ps, readBuf, data
      ensures Valid() && ps.submitted == old(ps.submitted) && Staged() == old(Staged())
      ensures var r := ReadStep(old(View()), data.Length);
        && status == r.status && n == |r.delivered| && n <= data.Length
        && data[..n] == r.delivered && data[n..] == old(data[n..])
        && View() == r.after
      ensures old(readOff) < readBuf.Length ==> readOff == old(readOff) + n
    {
      if readOff < readBuf.Length {
        n := ServePending(data);
        return n, Ok;
      }
      if data.Length == 0 {
        return 0, Ok;
      }
      var available, window := ps.Read();
      if !available {
        if closed {
          return 0, EndOfStream;
        }
        return 0, WouldBlock;
      }
      n := DeliverWindow(data, window);
      status := Ok;
    }

    /** ReadSamples: Read into the byte view of `samples` (copied out and
        back), reporting whole samples. Taking the address of `samples[0]`
        demands a non-empty slice. */
    method ReadSamples(samples: array<Sample>) returns (count: nat, status: Status)
      requires Valid() && samples.Length > 0
      requires samples as object != readBuf && samples as object != writeBuf
      modifies this`readOff, ps, readBuf, samples
      ensures Valid() && ps.submitted == old(ps.submitted) && Staged() == old(Staged())
      ensures var r := ReadStep(old(View()), SAMPLE_SIZE * samples.Length);
        && status == r.status && count == SampleCount(|r.delivered|)
        && SampleBytes(samples[..]) == r.delivered + SampleBytes(old(samples[..]))[|r.delivered|..]
        && View() == r.after
    {
      ghost var r := ReadStep(View(), SAMPLE_SIZE * samples.Length);
      var b := ByteView(samples);
      ghost var before := b[..];
      assert b.Length == SAMPLE_SIZE * samples.Length;
      var n;
      n, status := Read(b);
      ghost var after := View();
      assert after == r.after;
      assert b[..] == r.delivered + before[n..] by {
        assert b[..] == b[..n] + b[n..];
      }
      StoreSamples(b, samples);
      count := SampleCount(n);
    }

    /** OptimalBufferSize: the window size, in samples. */
    function OptimalBufferSize(): (r: nat)
      reads this, ps
      requires Valid()
      ensures r == windowSize && SAMPLE_SIZE * r == readBuf.Length
    {
      readBuf.Length / SAMPLE_SIZE
    }
  }

  /** The engine hands back only whole windows, so the reader never meets an
      empty one. */
  lemma OutputWindowsNonEmpty(p: Paulstretch)
    requires p.Valid()
    ensures NonEmptyWindows(p.View())
  {
    AllSizedNonEmpty(p.ps.output, p.ps.windowBytes);
  }

  /** After Close, Reads into non-empty destinations never wait: they deliver
      every byte still pending or held by the engine, in order, then report
      end of stream. */
  lemma ClosedStreamDrains(p: Paulstretch, rooms: seq<nat>)
    requires p.Valid() && p.closed
    requires forall i :: 0 <= i < |rooms| ==> rooms[i] > 0
    requires |rooms| > |Remaining(p.View())|
    ensures ReadSeries(p.View(), rooms).status == EndOfStream
    ensures ReadSeries(p.View(), rooms).delivered == Remaining(p.View())
  {
    OutputWindowsNonEmpty(p);
    DrainAfterClose(p.View(), rooms);
  }

  /** Every successful Read of an adapter into a non-empty destination
      delivers at least one byte. */
  lemma ReadMakesProgress(p: Paulstretch, room: nat)
    requires p.Valid() && room > 0
    ensures ReadStep(p.View(), room).status == Ok ==> |ReadStep(p.View(), room).delivered| > 0
  {
    OutputWindowsNonEmpty(p);
    ReadStepProgress(p.View(), room);
  }
}
