/** What Write does to the byte stream, independent of buffers and locks:
    the staged bytes followed by the new data are cut into windows of exactly
    `w` bytes, which go to the engine in order, and the bytes that do not fill
    a window stay staged. */
module WriteStaging {
  import opened Audio

  /** The whole windows at the front of `s`, in order. */
  function Chunks(s: seq<Byte>, w: nat): (ws: seq<seq<Byte>>)
    requires w > 0
    decreases |s|
  {
    if |s| < w then [] else [s[..w]] + Chunks(s[w..], w)
  }

  /** Every window is exactly `w` bytes. */
  lemma {:induction false} ChunkSizes(s: seq<Byte>, w: nat)
    requires w > 0
    ensures AllSized(Chunks(s, w), w)
    decreases |s|
  {
    if |s| >= w {
      ChunkSizes(s[w..], w);
    }
  }

  /** The bytes of `s` left after its whole windows: a proper suffix shorter
      than one window. */
  function Remainder(s: seq<Byte>, w: nat): (r: seq<Byte>)
    requires w > 0
    ensures |r| < w && |r| <= |s|
    decreases |s|
  {
    if |s| < w then s else Remainder(s[w..], w)
  }

  /** The first window of `s` is its first `w` bytes; the rest is cut alike. */
  lemma CutFirst(s: seq<Byte>, w: nat)
    requires w > 0 && |s| >= w
    ensures Chunks(s, w) == [s[..w]] + Chunks(s[w..], w)
    ensures Remainder(s, w) == Remainder(s[w..], w)
  {
  }

  /** If `s` cuts into the windows `ws` from index `i` on and holds a whole
      window, that window is `ws[i]` and the rest of `s` cuts into the rest. */
  lemma NextWindow(ws: seq<seq<Byte>>, i: nat, s: seq<Byte>, w: nat)
    requires w > 0 && |s| >= w && i <= |ws| && Chunks(s, w) == ws[i..]
    ensures i < |ws| && ws[i] == s[..w]
    ensures Chunks(s[w..], w) == ws[i + 1..]
    ensures Remainder(s[w..], w) == Remainder(s, w)
  {
    CutFirst(s, w);
  }

  lemma SplitPrefix(s: seq<Byte>, head: seq<Byte>, t: seq<Byte>)
    requires s == head + t
    ensures |t| <= |s| && s[..|s| - |t|] == head
  {
  }

  /** Reassembly split at window `k`: the first `k` windows, then the rest
      of the windows and the remainder. */
  lemma ReassemblyAt(s: seq<Byte>, w: nat, k: nat)
    requires w > 0 && k <= |Chunks(s, w)|
    ensures s == Flatten(Chunks(s, w)[..k]) + (Flatten(Chunks(s, w)[k..]) + Remainder(s, w))
  {
    var ws := Chunks(s, w);
    Reassembly(s, w);
    assert ws == ws[..k] + ws[k..];
    FlattenConcat(ws[..k], ws[k..]);
  }

  /** If `t` cuts into the windows of `s` from index `k` on, with the same
      remainder, then `t` is a suffix of `s` and the bytes before it are the
      first `k` windows of `s`. */
  lemma CutPrefix(s: seq<Byte>, t: seq<Byte>, w: nat, k: nat)
    requires w > 0 && k <= |Chunks(s, w)|
    requires Chunks(t, w) == Chunks(s, w)[k..] && Remainder(t, w) == Remainder(s, w)
    ensures |t| <= |s| && s[..|s| - |t|] == Flatten(Chunks(s, w)[..k])
  {
    ReassemblyAt(s, w, k);
    Reassembly(t, w);
    SplitPrefix(s, Flatten(Chunks(s, w)[..k]), t);
  }

  /** A write of `data` after the staged bytes `stage` that stops after `k`
      windows, with `data[n..]` not yet used, has used exactly the bytes of
      `data` that fill those windows: `k * w` bytes counting the staged ones. */
  lemma StoppedAfter(stage: seq<Byte>, data: seq<Byte>, w: nat, k: nat, n: nat)
    requires w > 0 && k <= |Chunks(stage + data, w)| && n <= |data|
    requires Chunks(data[n..], w) == Chunks(stage + data, w)[k..]
    requires Remainder(data[n..], w) == Remainder(stage + data, w)
    ensures stage + data[..n] == Flatten(Chunks(stage + data, w)[..k])
    ensures |stage| + n == k * w
  {
    var s, ws := stage + data, Chunks(stage + data, w);
    CutPrefix(s, data[n..], w, k);
    assert s[..|stage| + n] == stage + data[..n];
    ChunkSizes(s, w);
    AllSizedPrefix(ws, k, w);
    FlattenLength(ws[..k], w);
  }

  /** Reassembly: the windows followed by what stays staged give back every byte. */
  lemma {:induction false} Reassembly(s: seq<Byte>, w: nat)
    requires w > 0
    ensures Flatten(Chunks(s, w)) + Remainder(s, w) == s
    decreases |s|
  {
    if |s| >= w {
      var ws := Chunks(s, w);
      assert ws == [s[..w]] + Chunks(s[w..], w);
      assert ws[1..] == Chunks(s[w..], w);
      assert Flatten(ws) == s[..w] + Flatten(Chunks(s[w..], w));
      assert Remainder(s, w) == Remainder(s[w..], w);
      Reassembly(s[w..], w);
      assert s == s[..w] + s[w..];
    }
  }

  lemma MulBound(d: int, w: int)
    requires w > 0
    ensures d >= 1 ==> d * w >= w
    ensures d <= -1 ==> d * w <= -w
  {
  }

  lemma DivModUnique(q: int, r: int, n: int, w: int)
    requires w > 0 && 0 <= r < w && q * w + r == n
    ensures q == n / w && r == n % w
  {
    var q', r' := n / w, n % w;
    assert (q - q') * w == r' - r;
    MulBound(q - q', w);
  }

  /** Window count: `|s| / w` windows are cut and `|s| % w` bytes stay staged. */
  lemma ChunkCount(s: seq<Byte>, w: nat)
    requires w > 0
    ensures |Chunks(s, w)| == |s| / w
    ensures |Remainder(s, w)| == |s| % w
  {
    Reassembly(s, w);
    ChunkSizes(s, w);
    FlattenLength(Chunks(s, w), w);
    DivModUnique(|Chunks(s, w)|, |Remainder(s, w)|, |s|, w);
  }

  /** Window-aligned input: `k * w` bytes are exactly `k` windows, byte for
      byte, and nothing stays staged. */
  lemma AlignedInput(s: seq<Byte>, w: nat, k: nat)
    requires w > 0 && |s| == k * w
    ensures |Chunks(s, w)| == k
    ensures Remainder(s, w) == []
    ensures Flatten(Chunks(s, w)) == s
  {
    ChunkCount(s, w);
    DivModUnique(k, 0, |s|, w);
    Reassembly(s, w);
  }

  /** Cutting `s + t` equals cutting `s`, then cutting what `s` left staged
      followed by `t`. */
  lemma {:induction false} ChunksAppend(s: seq<Byte>, t: seq<Byte>, w: nat)
    requires w > 0
    ensures Chunks(s + t, w) == Chunks(s, w) + Chunks(Remainder(s, w) + t, w)
    ensures Remainder(s + t, w) == Remainder(Remainder(s, w) + t, w)
    decreases |s|
  {
    if |s| >= w {
      assert (s + t)[..w] == s[..w];
      assert (s + t)[w..] == s[w..] + t;
      ChunksAppend(s[w..], t, w);
    }
  }

  /** The windows submitted, and the bytes left staged, by a series of
      successful Write calls with the chunks `ds`, starting from staged bytes
      `stage`. */
  function WriteSeries(stage: seq<Byte>, ds: seq<seq<Byte>>, w: nat): (seq<seq<Byte>>, seq<Byte>)
    requires w > 0
    decreases |ds|
  {
    if ds == [] then ([], stage)
    else
      var s := stage + ds[0];
      var (later, left) := WriteSeries(Remainder(s, w), ds[1..], w);
      (Chunks(s, w) + later, left)
  }

  /** How the writer chunks its input does not matter: a series of writes
      submits the same windows, and leaves the same bytes staged, as one write
      of all the bytes. */
  lemma {:induction false} ChunkingIndependent(stage: seq<Byte>, ds: seq<seq<Byte>>, w: nat)
    requires w > 0 && |stage| < w
    ensures WriteSeries(stage, ds, w) == (Chunks(stage + Flatten(ds), w), Remainder(stage + Flatten(ds), w))
    decreases |ds|
  {
    if ds != [] {
      var s := stage + ds[0];
      var rest := Flatten(ds[1..]);
      ChunkingIndependent(Remainder(s, w), ds[1..], w);
      ChunksAppend(s, rest, w);
      assert stage + Flatten(ds) == s + rest;
    } else {
      assert stage + Flatten(ds) == stage;
    }
  }
}
