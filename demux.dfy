/**
 * The stream demultiplexer of the receive loop in `fetch_frames_from_esp32`:
 * a growing byte buffer is searched for the JPEG start-of-image marker
 * `FF D8` and end-of-image marker `FF D9` (ITU-T T.81, Annex B.1.1.3), and the
 * bytes between them are cut out as one frame.
 */
module Demux {
  import opened Wrappers

  /** Start-of-image marker. */
  const SOI: seq<bv8> := [0xFF, 0xD8]

  /** End-of-image marker. */
  const EOI: seq<bv8> := [0xFF, 0xD9]

  /** `pat` occurs in `s` at index `i`. */
  predicate OccursAt(s: seq<bv8>, pat: seq<bv8>, i: int)
  {
    0 <= i && i + |pat| <= |s| && s[i..i + |pat|] == pat
  }

  /** `pat` occurs somewhere in `s`. */
  predicate Contains(s: seq<bv8>, pat: seq<bv8>)
  {
    exists i :: 0 <= i <= |s| && OccursAt(s, pat, i)
  }

  /** `x` is a suffix of `y`. */
  predicate IsSuffix(x: seq<bv8>, y: seq<bv8>)
  {
    |x| <= |y| && y[|y| - |x|..] == x
  }

  /**
   * A complete frame as the cut delivers it: at least four bytes, beginning
   * with the start marker, ending with the end marker, and holding no end
   * marker before its last two bytes.
   */
  predicate IsFrame(f: seq<bv8>)
  {
    |f| >= 4 && f[..2] == SOI && f[|f| - 2..] == EOI &&
    forall i :: 0 <= i < |f| - 2 ==> !OccursAt(f, EOI, i)
  }

  /** The lowest index at or after `from` at which `pat` occurs in `s`, or -1. */
  function FindFrom(s: seq<bv8>, pat: seq<bv8>, from: nat): (r: int)
    ensures r == -1 || (from <= r && OccursAt(s, pat, r))
    ensures forall i :: from <= i && (r == -1 || i < r) ==> !OccursAt(s, pat, i)
    decreases |s| - from
  {
    if from + |pat| > |s| then -1
    else if s[from..from + |pat|] == pat then from
    else FindFrom(s, pat, from + 1)
  }

  /** Python's `bytes.find`: the lowest index at which `pat` occurs in `s`, or -1. */
  function Find(s: seq<bv8>, pat: seq<bv8>): (r: int)
    ensures r == -1 <==> !Contains(s, pat)
    ensures r != -1 ==> OccursAt(s, pat, r)
    ensures forall i :: 0 <= i < r ==> !OccursAt(s, pat, i)
  {
    FindFrom(s, pat, 0)
  }

  /** What one pass over the buffer yields: the frame cut out, if any, and the buffer kept. */
  datatype Split = Split(frame: Option<seq<bv8>>, rest: seq<bv8>)

  /**
   * One marker search and cut. Both markers are searched from index 0,
   * independently of each other; when both are present the frame is the
   * Python slice `buf[a:b+2]` (empty when `a > b + 2`) and the buffer keeps
   * `buf[b+2:]`.
   */
  function Step(buf: seq<bv8>): (r: Split)
    ensures IsSuffix(r.rest, buf)
    ensures r.frame.None? ==> r.rest == buf
    ensures r.frame.Some? ==> |r.rest| <= |buf| - |EOI|
  {
    var a := Find(buf, SOI);
    var b := Find(buf, EOI);
    if a != -1 && b != -1 then
      Split(Some(if a <= b + 2 then buf[a..b + 2] else []), buf[b + 2..])
    else
      Split(None, buf)
  }

  /** Nothing is cut until both markers are in the buffer; until then the buffer is kept whole. */
  lemma StepWaitsForBothMarkers(buf: seq<bv8>)
    ensures Step(buf).frame.None? <==> !Contains(buf, SOI) || !Contains(buf, EOI)
    ensures Step(buf).frame.None? ==> Step(buf).rest == buf
  {
  }

  /** A marker found at `i` cannot also be the other marker's start at `i` or `i + 1`. */
  lemma MarkersDoNotOverlap(buf: seq<bv8>, i: int, j: int)
    requires OccursAt(buf, SOI, i) && OccursAt(buf, EOI, j)
    ensures j != i && j != i + 1 && i != j + 1
  {
    assert buf[i + 1] == buf[i..i + 2][1] == 0xD8;
    assert buf[j + 1] == buf[j..j + 2][1] == 0xD9;
    assert buf[i] == buf[i..i + 2][0] == 0xFF;
    assert buf[j] == buf[j..j + 2][0] == 0xFF;
  }

  /** An occurrence inside the slice `s[lo..hi]` is an occurrence in `s`, shifted by `lo`. */
  lemma OccursInSlice(s: seq<bv8>, lo: int, hi: int, pat: seq<bv8>, i: int)
    requires 0 <= lo <= hi <= |s|
    ensures OccursAt(s[lo..hi], pat, i) <==> 0 <= i && i + |pat| <= hi - lo && OccursAt(s, pat, lo + i)
  {
    if 0 <= i && i + |pat| <= hi - lo {
      var u, w := s[lo..hi][i..i + |pat|], s[lo + i..lo + i + |pat|];
      assert forall k :: 0 <= k < |pat| ==> u[k] == w[k];
      assert u == w;
    }
  }

  /**
   * The bytes from a start marker at `a` through the first end marker at
   * `b > a` begin with the start marker, end with the end marker, are at
   * least four long and hold no other end marker.
   */
  lemma DelimitedSlice(buf: seq<bv8>, a: int, b: int)
    requires OccursAt(buf, SOI, a) && OccursAt(buf, EOI, b) && a < b
    requires forall i :: 0 <= i < b ==> !OccursAt(buf, EOI, i)
    ensures IsFrame(buf[a..b + 2])
  {
    MarkersDoNotOverlap(buf, a, b);
    var f := buf[a..b + 2];
    assert f[..2] == buf[a..a + 2];
    assert f[|f| - 2..] == buf[b..b + 2];
    forall i | 0 <= i < |f| - 2
      ensures !OccursAt(f, EOI, i)
    {
      OccursInSlice(buf, a, b + 2, EOI, i);
    }
  }

  /**
   * When the first start marker precedes the first end marker, the frame is
   * exactly `buf[a..b+2]`: it begins with the start marker, ends with the end
   * marker, is at least four bytes long, and holds no end marker but its last.
   */
  lemma StepFrameIsDelimited(buf: seq<bv8>)
    requires Contains(buf, SOI) && Contains(buf, EOI)
    requires Find(buf, SOI) < Find(buf, EOI)
    ensures var a, b := Find(buf, SOI), Find(buf, EOI);
            Step(buf).frame == Some(buf[a..b + 2])
    ensures IsFrame(Step(buf).frame.value)
  {
    var a, b := Find(buf, SOI), Find(buf, EOI);
    assert Step(buf).frame == Some(buf[a..b + 2]);
    DelimitedSlice(buf, a, b);
  }

  /** The Python slice `buf[a:c]` taken by a cut is a suffix of the prefix `buf[..c]`. */
  lemma CutSliceIsSuffix(buf: seq<bv8>, a: int, c: int)
    requires 0 <= a && 0 <= c <= |buf|
    ensures buf == buf[..c] + buf[c..]
    ensures IsSuffix(if a <= c then buf[a..c] else [], buf[..c])
  {
    if a <= c {
      assert buf[..c][c - (c - a)..] == buf[a..c];
    }
  }

  /**
   * A cut splits the buffer in two: the prefix through the first end marker,
   * which is dropped and of which the frame is a suffix, and the rest, which
   * is kept byte for byte. The buffer shrinks by `b + 2 >= 2` bytes.
   */
  lemma StepKeepsTail(buf: seq<bv8>)
    requires Step(buf).frame.Some?
    ensures var b := Find(buf, EOI);
            b >= 0 && buf == buf[..b + 2] + Step(buf).rest &&
            |Step(buf).rest| == |buf| - (b + 2) &&
            IsSuffix(Step(buf).frame.value, buf[..b + 2])
  {
    var a, b := Find(buf, SOI), Find(buf, EOI);
    var r := Step(buf);
    assert a >= 0 && b >= 0 && b + 2 <= |buf|;
    assert r.frame.value == (if a <= b + 2 then buf[a..b + 2] else []) && r.rest == buf[b + 2..];
    CutSliceIsSuffix(buf, a, b + 2);
  }

  /**
   * The bytes one pass removes from the front of the buffer: nothing when no
   * frame is cut, otherwise everything through the first end marker. The
   * buffer searched is these bytes followed by the buffer kept, and a frame
   * cut out lies at the end of them.
   */
  function Dropped(buf: seq<bv8>): (d: seq<bv8>)
    ensures buf == d + Step(buf).rest
    ensures Step(buf).frame.None? ==> d == []
    ensures Step(buf).frame.Some? ==> IsSuffix(Step(buf).frame.value, d)
  {
    if Step(buf).frame.Some? then
      StepKeepsTail(buf);
      buf[..|buf| - |Step(buf).rest|]
    else
      []
  }

  /**
   * When the first end marker comes before the first start marker, the frame
   * cut out is empty and everything through that end marker is dropped; the
   * dropped part holds no start marker, so the start marker stays in the rest.
   * Conversely an empty frame arises only this way.
   */
  lemma StepEndBeforeStart(buf: seq<bv8>)
    requires Contains(buf, SOI) && Contains(buf, EOI)
    ensures Step(buf).frame == Some([]) <==> Find(buf, EOI) < Find(buf, SOI)
    ensures Find(buf, EOI) < Find(buf, SOI) ==>
              Step(buf).rest == buf[Find(buf, EOI) + 2..] &&
              !Contains(buf[..Find(buf, EOI) + 2], SOI) &&
              Contains(Step(buf).rest, SOI)
  {
    var a, b := Find(buf, SOI), Find(buf, EOI);
    MarkersDoNotOverlap(buf, a, b);
    if b < a {
      var cut := buf[0..b + 2];
      assert buf[..b + 2] == cut;
      forall i | OccursAt(cut, SOI, i)
        ensures false
      {
        OccursInSlice(buf, 0, b + 2, SOI, i);
      }
      assert Step(buf).rest == buf[b + 2..|buf|];
      OccursInSlice(buf, b + 2, |buf|, SOI, a - (b + 2));
    } else {
      StepFrameIsDelimited(buf);
    }
  }

  /**
   * A buffer that begins with a complete frame gives up exactly that frame
   * and keeps every byte after it.
   */
  lemma StepOfLeadingFrame(f: seq<bv8>, tail: seq<bv8>)
    requires IsFrame(f)
    ensures Step(f + tail) == Split(Some(f), tail)
  {
    var buf := f + tail;
    var b := |f| - 2;
    assert buf[0..2] == f[..2];
    assert buf[b..b + 2] == f[b..];
    assert OccursAt(buf, SOI, 0) && OccursAt(buf, EOI, b);
    forall i | 0 <= i < b
      ensures !OccursAt(buf, EOI, i)
    {
      OccursInSlice(buf, 0, |f|, EOI, i);
      assert buf[0..|f|] == f;
    }
    assert Find(buf, SOI) == 0 && Find(buf, EOI) == b;
    assert buf[0..b + 2] == f && buf[b + 2..] == tail;
  }

  /**
   * One cut yields one frame even when the buffer already begins with two
   * complete frames: the second stays at the front of the rest and is what
   * the next cut yields.
   */
  lemma StepCutsOneFrameAtATime(f1: seq<bv8>, f2: seq<bv8>, tail: seq<bv8>)
    requires IsFrame(f1) && IsFrame(f2)
    ensures Step(f1 + f2 + tail) == Split(Some(f1), f2 + tail)
    ensures Step(f2 + tail) == Split(Some(f2), tail)
  {
    AppendAssoc(f1, f2, tail);
    StepOfLeadingFrame(f1, f2 + tail);
    StepOfLeadingFrame(f2, tail);
  }

  /**
   * The frames in the buffer are not cut in order when a stray end marker
   * precedes them: `FF D9 FF D8 FF D9 FF D8 FF D9` yields an empty frame and
   * drops the stray marker.
   */
  lemma StrayEndMarkerYieldsEmptyFrame()
    ensures Step(EOI + SOI + EOI + SOI + EOI) == Split(Some([]), SOI + EOI + SOI + EOI)
  {
    var buf := EOI + SOI + EOI + SOI + EOI;
    assert buf[0..2] == EOI && buf[2..4] == SOI;
    assert OccursAt(buf, EOI, 0) && OccursAt(buf, SOI, 2);
    assert !OccursAt(buf, SOI, 0) by { assert buf[0..2][1] == 0xD9; }
    assert !OccursAt(buf, SOI, 1) by { assert buf[1..3][0] == 0xD9; }
    assert Find(buf, EOI) == 0 && Find(buf, SOI) == 2;
    assert Step(buf).frame == Some(buf[2..2]) && buf[2..2] == [];
    assert Step(buf).rest == buf[2..] == SOI + EOI + SOI + EOI;
  }
}
