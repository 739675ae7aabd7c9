/**
 * The receive loop of `fetch_frames_from_esp32`: each network chunk is
 * appended to the buffer, at most one frame is cut out, and a frame that the
 * image decoder accepts goes through the verdict rule and the sender; a quit
 * key pressed after a frame ends the loop. An empty frame, cut when an end
 * marker precedes the first start marker, makes the decoder raise an error
 * that nothing catches, which also ends the loop. The network, the decoder, the
 * face library, the keyboard and the clock are outside the model: what they
 * deliver on each pass of the loop is given as a `Tick`.
 */
module Stream {
  import opened Wrappers
  import Demux
  import Throttle
  import Recognition

  /**
   * What the outside world supplies on one pass: the chunk read from the
   * network; the faces found in the non-empty frame cut out on this pass, or
   * None when the image decoder rejects it; and whether the quit key was
   * pressed.
   */
  datatype Tick = Tick(chunk: seq<bv8>, view: Option<seq<Recognition.Face>>, quit: bool)

  /** The loop's state: the byte buffer, the cooldown table, and what it has done so far. */
  datatype LoopState = LoopState(
    buf: seq<bv8>,
    last: map<string, int>,
    frames: seq<seq<bv8>>,  // frames cut out and handed to the decoder, in order
    sent: seq<string>,      // wire strings handed to the serial write, in order
    read: nat,              // chunks read from the network
    stopped: bool,          // the loop has ended, on the quit key or on a decoder error
    aborted: bool)          // the loop was ended by the decoder's error on an empty frame

  predicate ViewFits(tick: Tick, names: seq<string>)
  {
    tick.view.Some? ==> Recognition.FitsNames(tick.view.value, names)
  }

  predicate ViewsFit(ticks: seq<Tick>, names: seq<string>)
  {
    forall i :: 0 <= i < |ticks| ==> ViewFits(ticks[i], names)
  }

  /** The loop before its first chunk: an empty buffer and the given cooldown table. */
  function Start(last: map<string, int>): LoopState
  {
    LoopState([], last, [], [], 0, false, false)
  }

  /** All bytes of the chunks, in order. */
  function Received(ticks: seq<Tick>): seq<bv8>
    decreases |ticks|
  {
    if ticks == [] then [] else Received(ticks[..|ticks| - 1]) + ticks[|ticks| - 1].chunk
  }

  /** The send attempts made on one pass: those of the decoded frame's faces, if a non-empty frame was cut out. */
  function PassCalls(st: LoopState, tick: Tick, names: seq<string>): seq<Throttle.Call>
    requires ViewFits(tick, names)
  {
    var s := Demux.Step(st.buf + tick.chunk);
    if !st.stopped && s.frame.Some? && s.frame.value != [] && tick.view.Some? then
      Recognition.Attempts(tick.view.value, names)
    else
      []
  }

  /**
   * One pass of the loop. The chunk is appended and one cut is tried; without
   * both markers the grown buffer is kept whole and nothing else happens.
   * With a non-empty frame, the faces of the decoded frame are judged and
   * their commands go through the sender, and the quit key is looked at. An
   * empty frame ends the loop at once: the decoder raises on it, before any
   * face is judged or the quit key is read.
   */
  function Iterate(st: LoopState, tick: Tick, names: seq<string>): (r: LoopState)
    requires ViewFits(tick, names)
    ensures st.stopped ==> r == st
    ensures !st.stopped && (!Demux.Contains(st.buf + tick.chunk, Demux.SOI) || !Demux.Contains(st.buf + tick.chunk, Demux.EOI)) ==>
              r == st.(buf := st.buf + tick.chunk, read := st.read + 1)
    ensures !st.stopped ==>
              r.read == st.read + 1 &&
              Demux.IsSuffix(r.buf, st.buf + tick.chunk) &&
              |st.frames| <= |r.frames| <= |st.frames| + 1 &&
              r.frames[..|st.frames|] == st.frames
    ensures r.stopped ==> st.stopped || (|r.frames| == |st.frames| + 1 && (tick.quit || r.frames[|st.frames|] == []))
    ensures !st.stopped && Demux.Step(st.buf + tick.chunk).frame.Some? ==>
              r.frames == st.frames + [Demux.Step(st.buf + tick.chunk).frame.value] &&
              r.buf == Demux.Step(st.buf + tick.chunk).rest
    ensures !st.stopped && Demux.Step(st.buf + tick.chunk).frame.Some? && Demux.Step(st.buf + tick.chunk).frame.value != [] ==>
              r.stopped == tick.quit
    ensures r.aborted <==> st.aborted || (!st.stopped && Demux.Step(st.buf + tick.chunk).frame == Some([]))
    ensures !st.stopped && Demux.Step(st.buf + tick.chunk).frame == Some([]) ==>
              r.stopped && r.last == st.last && r.sent == st.sent
    ensures r.last.Keys == st.last.Keys
  {
    if st.stopped then st
    else
      var s := Demux.Step(st.buf + tick.chunk);
      if s.frame.None? then
        st.(buf := s.rest, read := st.read + 1)
      else if s.frame.value == [] then
        st.(buf := s.rest, frames := st.frames + [[]], read := st.read + 1, stopped := true, aborted := true)
      else
        var rep := Throttle.Replay(st.last, PassCalls(st, tick, names));
        LoopState(s.rest, rep.last, st.frames + [s.frame.value], st.sent + Throttle.Written(rep.outs),
                  st.read + 1, tick.quit, st.aborted)
  }

  /** The loop run over `ticks` from state `st`; once stopped, later ticks are never read. */
  function Loop(st: LoopState, ticks: seq<Tick>, names: seq<string>): (r: LoopState)
    requires ViewsFit(ticks, names)
    ensures st.stopped ==> r == st
    ensures r.last.Keys == st.last.Keys
    ensures r.aborted ==> st.aborted || r.stopped
    ensures r.aborted && !st.aborted ==> |r.frames| > 0 && r.frames[|r.frames| - 1] == []
    decreases |ticks|
  {
    if ticks == [] then st
    else Iterate(Loop(st, ticks[..|ticks| - 1], names), ticks[|ticks| - 1], names)
  }

  /** All send attempts of a run, in order. */
  function RunCalls(st: LoopState, ticks: seq<Tick>, names: seq<string>): seq<Throttle.Call>
    requires ViewsFit(ticks, names)
    decreases |ticks|
  {
    if ticks == [] then []
    else
      var prefix := ticks[..|ticks| - 1];
      RunCalls(st, prefix, names) + PassCalls(Loop(st, prefix, names), ticks[|ticks| - 1], names)
  }

  /** Once the loop has stopped, the ticks after that point change nothing. */
  lemma {:induction false} LoopStoppedPrefix(st: LoopState, ticks: seq<Tick>, n: nat, names: seq<string>)
    requires ViewsFit(ticks, names)
    requires n <= |ticks| && Loop(st, ticks[..n], names).stopped
    ensures Loop(st, ticks, names) == Loop(st, ticks[..n], names)
    decreases |ticks|
  {
    if n < |ticks| {
      var prefix := ticks[..|ticks| - 1];
      assert prefix[..n] == ticks[..n];
      LoopStoppedPrefix(st, prefix, n, names);
    } else {
      assert ticks[..n] == ticks;
    }
  }

  /**
   * Each chunk read yields at most one frame, even when the buffer holds
   * several complete ones; frames are only ever appended. A run that has not
   * stopped has read every chunk.
   */
  lemma {:induction false} LoopOneFramePerChunk(st: LoopState, ticks: seq<Tick>, names: seq<string>)
    requires ViewsFit(ticks, names)
    ensures var r := Loop(st, ticks, names);
            st.read <= r.read <= st.read + |ticks| &&
            |st.frames| <= |r.frames| <= |st.frames| + (r.read - st.read) &&
            r.frames[..|st.frames|] == st.frames &&
            (!r.stopped ==> r.read == st.read + |ticks|)
    decreases |ticks|
  {
    if ticks != [] {
      var prefix := ticks[..|ticks| - 1];
      LoopOneFramePerChunk(st, prefix, names);
      var p := Loop(st, prefix, names);
      var r := Loop(st, ticks, names);
      assert r == Iterate(p, ticks[|ticks| - 1], names);
      if !p.stopped {
        assert r.frames[..|st.frames|] == r.frames[..|p.frames|][..|st.frames|];
      }
    }
  }

  /**
   * If `p` is a suffix of the bytes `pre + rcv` and `r` a suffix of `p + c`,
   * then `r` is a suffix of `pre + (rcv + c)`.
   */
  lemma SuffixAfterAppend(r: seq<bv8>, p: seq<bv8>, pre: seq<bv8>, rcv: seq<bv8>, c: seq<bv8>)
    requires Demux.IsSuffix(p, pre + rcv) && Demux.IsSuffix(r, p + c)
    ensures Demux.IsSuffix(r, pre + (rcv + c))
  {
    var y := pre + rcv;
    assert pre + (rcv + c) == y + c;
    assert (y + c)[|y + c| - |p + c|..] == y[|y| - |p|..] + c;
    assert (y + c)[|y + c| - |r|..] == (p + c)[|p + c| - |r|..];
  }

  /**
   * No byte is invented and bytes leave the buffer only from its front: the
   * buffer left after a run is a suffix of the starting buffer followed by
   * every chunk read.
   */
  lemma {:induction false} LoopKeepsUnconsumedBytes(st: LoopState, ticks: seq<Tick>, names: seq<string>)
    requires ViewsFit(ticks, names)
    requires !st.stopped
    ensures var r := Loop(st, ticks, names);
            st.read <= r.read <= st.read + |ticks| &&
            Demux.IsSuffix(r.buf, st.buf + Received(ticks[..r.read - st.read]))
    decreases |ticks|
  {
    LoopOneFramePerChunk(st, ticks, names);
    if ticks == [] {
      assert ticks[..0] == [];
    } else {
      var prefix := ticks[..|ticks| - 1];
      var t := ticks[|ticks| - 1];
      LoopKeepsUnconsumedBytes(st, prefix, names);
      LoopOneFramePerChunk(st, prefix, names);
      var p := Loop(st, prefix, names);
      var r := Iterate(p, t, names);
      assert Loop(st, ticks, names) == r;
      if p.stopped {
        assert ticks[..r.read - st.read] == prefix[..p.read - st.read];
      } else {
        assert prefix[..p.read - st.read] == prefix;
        assert ticks[..r.read - st.read] == ticks;
        assert Received(ticks) == Received(prefix) + t.chunk;
        SuffixAfterAppend(r.buf, p.buf, st.buf, Received(prefix), t.chunk);
      }
    }
  }

  /** Every stretch of bytes in `segs`, one after the other. */
  function Flatten(segs: seq<seq<bv8>>): seq<bv8>
    decreases |segs|
  {
    if segs == [] then [] else Flatten(segs[..|segs| - 1]) + segs[|segs| - 1]
  }

  /** The bytes a pass removes from the front of the buffer, if it cuts a frame. */
  function PassCuts(st: LoopState, tick: Tick): seq<seq<bv8>>
  {
    var grown := st.buf + tick.chunk;
    if !st.stopped && Demux.Step(grown).frame.Some? then [Demux.Dropped(grown)] else []
  }

  /** The stretches of bytes removed by the cuts of a run, one per frame, in order. */
  function Cuts(st: LoopState, ticks: seq<Tick>, names: seq<string>): seq<seq<bv8>>
    requires ViewsFit(ticks, names)
    decreases |ticks|
  {
    if ticks == [] then []
    else
      var prefix := ticks[..|ticks| - 1];
      Cuts(st, prefix, names) + PassCuts(Loop(st, prefix, names), ticks[|ticks| - 1])
  }

  /** Flattening two lists of stretches is flattening each and appending. */
  lemma {:induction false} FlattenConcat(xs: seq<seq<bv8>>, ys: seq<seq<bv8>>)
    ensures Flatten(xs + ys) == Flatten(xs) + Flatten(ys)
    decreases |ys|
  {
    if ys == [] {
      assert xs + ys == xs;
    } else {
      var ys' := ys[..|ys| - 1];
      assert (xs + ys)[..|xs + ys| - 1] == xs + ys';
      FlattenConcat(xs, ys');
      AppendAssoc(Flatten(xs), Flatten(ys'), ys[|ys| - 1]);
    }
  }

  /** A pass that runs splits the grown buffer into the bytes it removes and the buffer it keeps. */
  lemma PassSplitsGrownBuffer(p: LoopState, t: Tick, names: seq<string>)
    requires ViewFits(t, names) && !p.stopped
    ensures p.buf + t.chunk == Flatten(PassCuts(p, t)) + Iterate(p, t, names).buf
  {
    var g := p.buf + t.chunk;
    if Demux.Step(g).frame.Some? {
      assert [Demux.Dropped(g)][..0] == [];
    }
  }

  /** Bytes moved from the front of one split to the next keep the whole in order. */
  lemma AppendShift(pre: seq<bv8>, rcv: seq<bv8>, c: seq<bv8>, flat: seq<bv8>, buf: seq<bv8>, cut: seq<bv8>, rest: seq<bv8>)
    requires pre + rcv == flat + buf && buf + c == cut + rest
    ensures pre + (rcv + c) == (flat + cut) + rest
  {
    AppendAssoc(pre, rcv, c);
    AppendAssoc(flat, buf, c);
    AppendAssoc(flat, cut, rest);
  }

  /** The last pass of a run, in terms of the run before it. */
  lemma LastPass(st: LoopState, ticks: seq<Tick>, names: seq<string>)
    requires ViewsFit(ticks, names) && ticks != []
    ensures ViewsFit(ticks[..|ticks| - 1], names)
    ensures Loop(st, ticks, names) == Iterate(Loop(st, ticks[..|ticks| - 1], names), ticks[|ticks| - 1], names)
    ensures Cuts(st, ticks, names) == Cuts(st, ticks[..|ticks| - 1], names) + PassCuts(Loop(st, ticks[..|ticks| - 1], names), ticks[|ticks| - 1])
  {
  }

  /** The chunks read by a run, in terms of those read by the run before its last pass. */
  lemma LastPassReads(st: LoopState, ticks: seq<Tick>, p: LoopState, r: LoopState)
    requires ticks != [] && st.read <= p.read <= st.read + |ticks| - 1
    requires !p.stopped ==> p.read == st.read + |ticks| - 1 && r.read == p.read + 1
    requires p.stopped ==> r.read == p.read
    ensures st.read <= r.read <= st.read + |ticks|
    ensures p.stopped ==> ticks[..r.read - st.read] == ticks[..|ticks| - 1][..p.read - st.read]
    ensures !p.stopped ==>
              Received(ticks[..r.read - st.read]) == Received(ticks[..|ticks| - 1][..p.read - st.read]) + ticks[|ticks| - 1].chunk
  {
    var prefix := ticks[..|ticks| - 1];
    if !p.stopped {
      assert prefix[..p.read - st.read] == prefix;
      assert ticks[..r.read - st.read] == ticks;
    }
  }

  /** What `LoopCutsCoverInput` states, for the run of `st` over `ticks`. */
  predicate CoversInput(st: LoopState, ticks: seq<Tick>, names: seq<string>)
    requires ViewsFit(ticks, names)
  {
    var r := Loop(st, ticks, names);
    st.read <= r.read <= st.read + |ticks| &&
    st.buf + Received(ticks[..r.read - st.read]) == Flatten(Cuts(st, ticks, names)) + r.buf
  }

  /** The induction step of `LoopCutsCoverInput`: the last pass keeps the bytes covered. */
  lemma CoverLastPass(st: LoopState, ticks: seq<Tick>, names: seq<string>)
    requires ViewsFit(ticks, names) && ticks != []
    requires ViewsFit(ticks[..|ticks| - 1], names) && CoversInput(st, ticks[..|ticks| - 1], names)
    ensures CoversInput(st, ticks, names)
  {
    var prefix, t := ticks[..|ticks| - 1], ticks[|ticks| - 1];
    LastPass(st, ticks, names);
    LoopOneFramePerChunk(st, prefix, names);
    var p := Loop(st, prefix, names);
    var r := Iterate(p, t, names);
    LastPassReads(st, ticks, p, r);
    var cp, pc := Cuts(st, prefix, names), PassCuts(p, t);
    if p.stopped {
      assert cp + pc == cp;
    } else {
      PassSplitsGrownBuffer(p, t, names);
      FlattenConcat(cp, pc);
      AppendShift(st.buf, Received(prefix[..p.read - st.read]), t.chunk, Flatten(cp), p.buf, Flatten(pc), r.buf);
    }
  }

  /**
   * The bytes of a run are used up in order: the starting buffer followed by
   * every chunk read is the stretches removed by the cuts, one after the
   * other, followed by the buffer left at the end.
   */
  lemma {:induction false} LoopCutsCoverInput(st: LoopState, ticks: seq<Tick>, names: seq<string>)
    requires ViewsFit(ticks, names)
    ensures CoversInput(st, ticks, names)
    ensures var r := Loop(st, ticks, names);
            st.buf + Received(ticks[..r.read - st.read]) == Flatten(Cuts(st, ticks, names)) + r.buf
    decreases |ticks|
  {
    if ticks == [] {
      assert ticks[..0] == [];
    } else {
      LastPass(st, ticks, names);
      LoopCutsCoverInput(st, ticks[..|ticks| - 1], names);
      CoverLastPass(st, ticks, names);
    }
  }

  /**
   * Each frame of a run lies at the end of its own stretch of removed bytes,
   * so, with `LoopCutsCoverInput`, no byte of the input is in two frames.
   */
  lemma {:induction false} LoopFramesFromCuts(st: LoopState, ticks: seq<Tick>, names: seq<string>)
    requires ViewsFit(ticks, names)
    ensures var r := Loop(st, ticks, names);
            var cuts := Cuts(st, ticks, names);
            |r.frames| == |st.frames| + |cuts| &&
            forall k :: 0 <= k < |cuts| ==> Demux.IsSuffix(r.frames[|st.frames| + k], cuts[k])
    decreases |ticks|
  {
    if ticks != [] {
      var prefix := ticks[..|ticks| - 1];
      var t := ticks[|ticks| - 1];
      LoopFramesFromCuts(st, prefix, names);
      var p := Loop(st, prefix, names);
      var r := Iterate(p, t, names);
      var cp := Cuts(st, prefix, names);
      assert Loop(st, ticks, names) == r;
      assert Cuts(st, ticks, names) == cp + PassCuts(p, t);
      if p.stopped || Demux.Step(p.buf + t.chunk).frame.None? {
        assert cp + [] == cp;
      } else {
        var g := p.buf + t.chunk;
        var cuts := cp + [Demux.Dropped(g)];
        forall k | 0 <= k < |cuts|
          ensures Demux.IsSuffix(r.frames[|st.frames| + k], cuts[k])
        {
          if k < |cp| {
            assert r.frames[|st.frames| + k] == p.frames[|st.frames| + k];
          }
        }
      }
    }
  }

  /** One pass acts on the sender exactly as replaying that pass's send attempts. */
  lemma IterateIsReplay(st: LoopState, tick: Tick, names: seq<string>)
    requires ViewFits(tick, names)
    ensures var r := Iterate(st, tick, names);
            var rep := Throttle.Replay(st.last, PassCalls(st, tick, names));
            r.last == rep.last && r.sent == st.sent + Throttle.Written(rep.outs)
  {
    if PassCalls(st, tick, names) == [] {
      assert Throttle.Written([]) == [];
    }
  }

  /**
   * Over a whole run the sender sees one continuous sequence of send
   * attempts: the final cooldown table and the wire strings written are
   * those of replaying `RunCalls` from the starting table.
   */
  lemma {:induction false} LoopIsOneReplay(st: LoopState, ticks: seq<Tick>, names: seq<string>)
    requires ViewsFit(ticks, names)
    ensures var r := Loop(st, ticks, names);
            var rep := Throttle.Replay(st.last, RunCalls(st, ticks, names));
            r.last == rep.last && r.sent == st.sent + Throttle.Written(rep.outs)
    decreases |ticks|
  {
    if ticks == [] {
      assert Throttle.Written([]) == [];
    } else {
      var prefix := ticks[..|ticks| - 1];
      var t := ticks[|ticks| - 1];
      LoopIsOneReplay(st, prefix, names);
      var p := Loop(st, prefix, names);
      var xs := RunCalls(st, prefix, names);
      var ys := PassCalls(p, t, names);
      IterateIsReplay(p, t, names);
      Throttle.ReplayConcat(st.last, xs, ys);
      Throttle.ReplayConcatWritten(st.last, xs, ys, st.sent);
      assert RunCalls(st, ticks, names) == xs + ys;
      assert Loop(st, ticks, names) == Iterate(p, t, names);
    }
  }

  /**
   * The cooldown holds across frames, not just within one: two attempts of a
   * run under the same table key that both reach the wire are at least
   * `Cooldown` apart.
   */
  lemma LoopCooldownSpacing(st: LoopState, ticks: seq<Tick>, names: seq<string>, i: int, j: int)
    requires ViewsFit(ticks, names)
    requires var calls := RunCalls(st, ticks, names);
             0 <= i < j < |calls| &&
             Throttle.Lower(calls[i].command) == Throttle.Lower(calls[j].command) &&
             Throttle.Lower(calls[i].command) in st.last &&
             Throttle.Replay(st.last, calls).outs[i].Some? && Throttle.Replay(st.last, calls).outs[j].Some?
    ensures var calls := RunCalls(st, ticks, names);
            calls[j].at - calls[i].at >= Throttle.Cooldown
  {
    Throttle.CooldownSpacing(st.last, RunCalls(st, ticks, names), i, j);
  }

  /** The run over the first `n + 1` ticks is one more pass after the run over the first `n`. */
  lemma LoopNext(st: LoopState, ticks: seq<Tick>, n: nat, names: seq<string>)
    requires ViewsFit(ticks, names) && n < |ticks|
    ensures ViewsFit(ticks[..n], names)
    ensures Loop(st, ticks[..n + 1], names) == Iterate(Loop(st, ticks[..n], names), ticks[n], names)
  {
    assert ticks[..n + 1][..n] == ticks[..n];
  }

  /**
   * `fetch_frames_from_esp32` with the sender `sender` and the known names
   * `names`, over the chunks and observations of `ticks`.
   */
  method FetchFrames(sender: Throttle.CommandSender, names: seq<string>, ticks: seq<Tick>)
    returns (frames: seq<seq<bv8>>, sent: seq<string>, buf: seq<bv8>, read: nat, aborted: bool)
    requires ViewsFit(ticks, names)
    modifies sender
    ensures var r := Loop(Start(old(sender.lastSent)), ticks, names);
            frames == r.frames && sent == r.sent && buf == r.buf && read == r.read &&
            aborted == r.aborted && sender.lastSent == r.last
  {
    ghost var start := Start(sender.lastSent);
    frames, sent, buf, read, aborted := [], [], [], 0, false;
    var stopped := false;
    while read < |ticks| && !stopped
      invariant read <= |ticks|
      invariant Loop(start, ticks[..read], names) == LoopState(buf, sender.lastSent, frames, sent, read, stopped, aborted)
      decreases |ticks| - read
    {
      var tick := ticks[read];
      LoopNext(start, ticks, read, names);
      buf := buf + tick.chunk;
      var s := Demux.Step(buf);
      read := read + 1;
      if s.frame.Some? {
        buf := s.rest;
        frames := frames + [s.frame.value];
        if s.frame.value == [] {
          // the decoder raises on an empty frame, and nothing catches it
          stopped, aborted := true, true;
        } else {
          if tick.view.Some? {
            var verdicts, outs := Recognition.Recognize(sender, tick.view.value, names);
            sent := sent + Throttle.Written(outs);
          } else {
            assert Throttle.Written([]) == [];
          }
          stopped := tick.quit;
        }
      }
    }
    if stopped {
      LoopStoppedPrefix(start, ticks, read, names);
    } else {
      assert ticks[..read] == ticks;
    }
  }
}
