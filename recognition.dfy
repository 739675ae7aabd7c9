/**
 * The verdict rule of `recognize_face`: every detected face, in order, is
 * named after the first known face it matches and triggers "pass", or is
 * named "Unknown" and triggers "failed". Face detection and comparison are
 * done by a library outside the model; each face arrives here as its vector
 * of per-known-face match flags.
 */
module Recognition {
  import opened Wrappers
  import Throttle

  const Pass: string := "pass"
  const Failed: string := "failed"
  const Unknown: string := "Unknown"

  /**
   * A detected face: one match flag per known face, and the clock reading
   * taken when the command for this face is sent.
   */
  datatype Face = Face(matches: seq<bool>, at: int)

  /** The name drawn on a face and the command sent for it. */
  datatype Verdict = Verdict(name: string, command: string)

  /** Every face's match vector can be used to index the list of known names. */
  predicate FitsNames(faces: seq<Face>, names: seq<string>)
  {
    forall i :: 0 <= i < |faces| ==> |faces[i].matches| <= |names|
  }

  /** `matches.index(True)` when `True in matches`, else None. */
  function FirstTrue(m: seq<bool>): (r: Option<nat>)
    ensures r.None? <==> true !in m
    ensures r.Some? ==> r.value < |m| && m[r.value] && forall j :: 0 <= j < r.value ==> !m[j]
  {
    if m == [] then None
    else if m[0] then Some(0)
    else match FirstTrue(m[1..])
      case None => None
      case Some(i) => Some(i + 1)
  }

  /**
   * The verdict for one face: the name of the first known face it matches
   * and "pass", or "Unknown" and "failed" when it matches none.
   */
  function Judge(matches: seq<bool>, names: seq<string>): (v: Verdict)
    requires |matches| <= |names|
    ensures v.command == Pass <==> true in matches
    ensures v.command == Pass || v.command == Failed
    ensures true !in matches ==> v.name == Unknown
    ensures true in matches ==> v.name == names[FirstTrue(matches).value]
  {
    match FirstTrue(matches)
    case Some(i) => Verdict(names[i], Pass)
    case None => Verdict(Unknown, Failed)
  }

  /** The verdicts of one frame's faces, in order: the labels drawn on the frame. */
  function Verdicts(faces: seq<Face>, names: seq<string>): (vs: seq<Verdict>)
    requires FitsNames(faces, names)
    ensures |vs| == |faces|
    ensures forall i :: 0 <= i < |faces| ==> vs[i] == Judge(faces[i].matches, names)
    decreases |faces|
  {
    if faces == [] then []
    else
      var f := faces[|faces| - 1];
      Verdicts(faces[..|faces| - 1], names) + [Judge(f.matches, names)]
  }

  /** The send attempts one frame makes: one per face, in order, none for a frame without faces. */
  function Attempts(faces: seq<Face>, names: seq<string>): (calls: seq<Throttle.Call>)
    requires FitsNames(faces, names)
    ensures |calls| == |faces|
    ensures forall i :: 0 <= i < |faces| ==>
              calls[i].at == faces[i].at &&
              (calls[i].command == if true in faces[i].matches then Pass else Failed)
    decreases |faces|
  {
    if faces == [] then []
    else
      var f := faces[|faces| - 1];
      Attempts(faces[..|faces| - 1], names) + [Throttle.Call(Judge(f.matches, names).command, f.at)]
  }

  /** A frame without faces attempts no command and leaves the cooldown table alone. */
  lemma NoFacesNoCommand(last: map<string, int>, names: seq<string>)
    ensures Throttle.Replay(last, Attempts([], names)) == Throttle.Replayed([], last)
  {
  }

  /** A matched face followed by an unmatched one attempts "pass", then "failed". */
  lemma AttemptsOfMixedPair(names: seq<string>, known: Face, stranger: Face)
    requires |known.matches| <= |names| && |stranger.matches| <= |names|
    requires true in known.matches && true !in stranger.matches
    ensures Attempts([known, stranger], names) == [Throttle.Call(Pass, known.at), Throttle.Call(Failed, stranger.at)]
  {
    var faces := [known, stranger];
    assert FitsNames(faces, names);
    var a := Attempts(faces, names);
    assert |a| == 2;
    assert a[0].at == known.at && a[0].command == Pass;
    assert a[1].at == stranger.at && a[1].command == Failed;
  }

  /**
   * Commands are issued per face, not per frame: a frame with a matched face
   * followed by an unmatched one, both past their cooldowns, writes "pass"
   * and then "failed".
   */
  lemma MixedFrameSendsBoth(last: map<string, int>, names: seq<string>, known: Face, stranger: Face)
    requires |known.matches| <= |names| && |stranger.matches| <= |names|
    requires true in known.matches && true !in stranger.matches
    requires Pass in last && known.at - last[Pass] >= Throttle.Cooldown
    requires Failed in last && stranger.at - last[Failed] >= Throttle.Cooldown
    ensures Throttle.Replay(last, Attempts([known, stranger], names)).outs == [Some("pass\n"), Some("failed\n")]
  {
    AttemptsOfMixedPair(names, known, stranger);
    Throttle.LowerOfLowerCase(Pass);
    Throttle.LowerOfLowerCase(Failed);
    assert Pass + "\n" == "pass\n" && Failed + "\n" == "failed\n" && Pass != Failed;
    var c1, c2 := Throttle.Call(Pass, known.at), Throttle.Call(Failed, stranger.at);
    Throttle.ReplayPair(last, c1, c2);
  }

  /** Judging one more face appends its verdict and its send attempt. */
  lemma PrefixStep(faces: seq<Face>, names: seq<string>, i: int)
    requires FitsNames(faces, names) && 0 <= i < |faces|
    ensures var v := Judge(faces[i].matches, names);
            Verdicts(faces[..i + 1], names) == Verdicts(faces[..i], names) + [v] &&
            Attempts(faces[..i + 1], names) == Attempts(faces[..i], names) + [Throttle.Call(v.command, faces[i].at)]
  {
    assert faces[..i + 1][..i] == faces[..i];
  }

  /**
   * `recognize_face` over the faces of one frame: judges each face in order
   * and hands its command to the sender.
   */
  method Recognize(sender: Throttle.CommandSender, faces: seq<Face>, names: seq<string>)
    returns (verdicts: seq<Verdict>, outs: seq<Option<string>>)
    requires FitsNames(faces, names)
    modifies sender
    ensures verdicts == Verdicts(faces, names)
    ensures Throttle.Replayed(outs, sender.lastSent) == Throttle.Replay(old(sender.lastSent), Attempts(faces, names))
  {
    ghost var last0 := sender.lastSent;
    verdicts, outs := [], [];
    var i := 0;
    while i < |faces|
      invariant 0 <= i <= |faces|
      invariant verdicts == Verdicts(faces[..i], names)
      invariant outs == Throttle.Replay(last0, Attempts(faces[..i], names)).outs
      invariant sender.lastSent == Throttle.Replay(last0, Attempts(faces[..i], names)).last
    {
      var v := Judge(faces[i].matches, names);
      PrefixStep(faces, names, i);
      Throttle.ReplaySnoc(last0, Attempts(faces[..i], names), Throttle.Call(v.command, faces[i].at));
      var wire := sender.Send(v.command, faces[i].at);
      verdicts, outs := verdicts + [v], outs + [wire];
      i := i + 1;
    }
    assert faces[..i] == faces;
  }
}
