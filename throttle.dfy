/**
 * The throttled command sender `send_command_to_k64f`: a table of the time
 * each command was last sent, and a cooldown that suppresses a repeat of the
 * same command until it has elapsed. Clock readings are passed in as `now`;
 * the serial write is represented by the wire string handed to it.
 */
module Throttle {
  import opened Wrappers

  /** `THROTTLE_SECONDS`: the least time between two sends of the same command. */
  const Cooldown: int := 8

  /** The cooldown table at start-up, `{"pass": 0, "failed": 0}`. */
  const Initial: map<string, int> := map["pass" := 0, "failed" := 0]

  /** ASCII lower-casing of one character. */
  function LowerChar(c: char): char
  {
    if 'A' <= c <= 'Z' then (c as int + 32) as char else c
  }

  /**
   * `str.lower()`, restricted to ASCII letters: each upper-case letter is
   * replaced by its lower-case partner, every other character is kept, and
   * no upper-case letter remains.
   */
  function Lower(s: string): (r: string)
    ensures |r| == |s|
    ensures forall i :: 0 <= i < |r| ==> !('A' <= r[i] <= 'Z')
    ensures forall i :: 0 <= i < |s| && !('A' <= s[i] <= 'Z') ==> r[i] == s[i]
    ensures forall i :: 0 <= i < |s| && 'A' <= s[i] <= 'Z' ==> r[i] as int == s[i] as int + 32
  {
    seq(|s|, i requires 0 <= i < |s| => LowerChar(s[i]))
  }

  /** A string without upper-case ASCII letters is its own lower-case form. */
  lemma LowerOfLowerCase(s: string)
    requires forall i :: 0 <= i < |s| ==> !('A' <= s[i] <= 'Z')
    ensures Lower(s) == s
  {
  }

  /** Lower-casing twice is lower-casing once, so a key is its own lookup form. */
  lemma LowerIsIdempotent(s: string)
    ensures Lower(Lower(s)) == Lower(s)
  {
    LowerOfLowerCase(Lower(s));
  }

  /** What one send attempt produces: the wire bytes written, if any, and the new table. */
  datatype Decision = Decision(wire: Option<string>, last: map<string, int>)

  /**
   * One call of the sender at time `now`. A command whose lower-case form is
   * a key of the table is suppressed while less than `Cooldown` has passed
   * since the time recorded for it; otherwise the time is recorded (before the
   * write, so a failing write still starts the cooldown) and `command + "\n"`
   * goes on the wire. Any other command is always written and leaves the
   * table alone.
   */
  function Decide(last: map<string, int>, command: string, now: int): (d: Decision)
    ensures d.wire.Some? <==> Lower(command) !in last || now - last[Lower(command)] >= Cooldown
    ensures d.wire.Some? ==> d.wire.value == command + "\n"
    ensures d.last.Keys == last.Keys
    ensures forall k :: k in last && k != Lower(command) ==> d.last[k] == last[k]
    ensures Lower(command) in last ==>
              d.last[Lower(command)] == if d.wire.Some? then now else last[Lower(command)]
    ensures Lower(command) in last ==> d.last[Lower(command)] >= last[Lower(command)]
  {
    var key := Lower(command);
    if key in last && now - last[key] < Cooldown then
      Decision(None, last)
    else
      Decision(Some(command + "\n"), if key in last then last[key := now] else last)
  }

  /** One send attempt: a command and the clock reading taken when it is made. */
  datatype Call = Call(command: string, at: int)

  /** What a run of send attempts produces: one optional wire string per attempt, and the final table. */
  datatype Replayed = Replayed(outs: seq<Option<string>>, last: map<string, int>)

  /** The sender applied to `calls` in order, starting from table `last`. */
  function Replay(last: map<string, int>, calls: seq<Call>): (r: Replayed)
    ensures |r.outs| == |calls|
    ensures r.last.Keys == last.Keys
    decreases |calls|
  {
    if calls == [] then Replayed([], last)
    else
      var p := Replay(last, calls[..|calls| - 1]);
      var d := Decide(p.last, calls[|calls| - 1].command, calls[|calls| - 1].at);
      Replayed(p.outs + [d.wire], d.last)
  }

  /** The wire strings actually written, in order. */
  function Written(outs: seq<Option<string>>): (w: seq<string>)
    ensures |w| <= |outs|
    decreases |outs|
  {
    if outs == [] then []
    else Written(outs[..|outs| - 1]) + (if outs[|outs| - 1].Some? then [outs[|outs| - 1].value] else [])
  }

  /** Writing two runs of outcomes writes the first run's strings, then the second's. */
  lemma {:induction false} WrittenConcat(xs: seq<Option<string>>, ys: seq<Option<string>>)
    ensures Written(xs + ys) == Written(xs) + Written(ys)
    decreases |ys|
  {
    if ys != [] {
      var ys' := ys[..|ys| - 1];
      assert (xs + ys)[..|xs + ys| - 1] == xs + ys';
      WrittenConcat(xs, ys');
    } else {
      assert xs + ys == xs;
    }
  }

  /** Each attempt's outcome is either nothing or the command with a line terminator. */
  lemma {:induction false} ReplayWiresAreCommandLines(last: map<string, int>, calls: seq<Call>, i: int)
    requires 0 <= i < |calls|
    ensures Replay(last, calls).outs[i].Some? ==> Replay(last, calls).outs[i].value == calls[i].command + "\n"
    decreases |calls|
  {
    if i < |calls| - 1 {
      ReplayWiresAreCommandLines(last, calls[..|calls| - 1], i);
    }
  }

  /** Running two batches one after the other is the same as running them joined. */
  lemma {:induction false} ReplayConcat(last: map<string, int>, xs: seq<Call>, ys: seq<Call>)
    ensures var p := Replay(last, xs);
            var q := Replay(p.last, ys);
            Replay(last, xs + ys) == Replayed(p.outs + q.outs, q.last)
    decreases |ys|
  {
    if ys == [] {
      assert xs + ys == xs;
    } else {
      var ys' := ys[..|ys| - 1];
      assert (xs + ys)[..|xs + ys| - 1] == xs + ys';
      assert (xs + ys)[|xs + ys| - 1] == ys[|ys| - 1];
      ReplayConcat(last, xs, ys');
    }
  }

  /** What two batches run one after the other write, appended to a log `pre`, is what the joined batch writes. */
  lemma ReplayConcatWritten(last: map<string, int>, xs: seq<Call>, ys: seq<Call>, pre: seq<string>)
    ensures var p := Replay(last, xs);
            pre + Written(p.outs) + Written(Replay(p.last, ys).outs) == pre + Written(Replay(last, xs + ys).outs)
  {
    var p := Replay(last, xs);
    var q := Replay(p.last, ys);
    ReplayConcat(last, xs, ys);
    WrittenConcat(p.outs, q.outs);
    AppendAssoc(pre, Written(p.outs), Written(q.outs));
  }

  /** No recorded time ever moves backwards. */
  lemma {:induction false} ReplayNeverLowers(last: map<string, int>, calls: seq<Call>, k: string)
    requires k in last
    ensures Replay(last, calls).last[k] >= last[k]
    decreases |calls|
  {
    if calls != [] {
      ReplayNeverLowers(last, calls[..|calls| - 1], k);
    }
  }

  /** After a command with a table key goes out at time `t`, the time recorded for its key is at least `t`. */
  lemma {:induction false} ReplayRecordsSend(last: map<string, int>, calls: seq<Call>, i: int)
    requires 0 <= i < |calls|
    requires Replay(last, calls).outs[i].Some? && Lower(calls[i].command) in last
    ensures Replay(last, calls).last[Lower(calls[i].command)] >= calls[i].at
    decreases |calls|
  {
    var p := Replay(last, calls[..|calls| - 1]);
    if i < |calls| - 1 {
      ReplayRecordsSend(last, calls[..|calls| - 1], i);
    }
  }

  /**
   * Any two commands actually written under the same table key are at least
   * `Cooldown` apart, whatever the order of the clock readings.
   */
  lemma {:induction false} CooldownSpacing(last: map<string, int>, calls: seq<Call>, i: int, j: int)
    requires 0 <= i < j < |calls|
    requires Lower(calls[i].command) == Lower(calls[j].command) && Lower(calls[i].command) in last
    requires Replay(last, calls).outs[i].Some? && Replay(last, calls).outs[j].Some?
    ensures calls[j].at - calls[i].at >= Cooldown
    decreases |calls|
  {
    var prefix := calls[..|calls| - 1];
    if j < |calls| - 1 {
      CooldownSpacing(last, prefix, i, j);
    } else {
      ReplayRecordsSend(last, prefix, i);
    }
  }

  /**
   * A run of commands none of whose lower-case forms is a table key is
   * written in full and leaves the table as it was.
   */
  lemma {:induction false} UnknownCommandsPassThrough(last: map<string, int>, calls: seq<Call>)
    requires forall i :: 0 <= i < |calls| ==> Lower(calls[i].command) !in last
    ensures Replay(last, calls).last == last
    ensures forall i :: 0 <= i < |calls| ==> Replay(last, calls).outs[i] == Some(calls[i].command + "\n")
    decreases |calls|
  {
    if calls != [] {
      UnknownCommandsPassThrough(last, calls[..|calls| - 1]);
    }
  }

  /** One more attempt after a run: its outcome is appended and the table is that attempt's. */
  lemma ReplaySnoc(last: map<string, int>, calls: seq<Call>, c: Call)
    ensures var p := Replay(last, calls);
            var d := Decide(p.last, c.command, c.at);
            Replay(last, calls + [c]) == Replayed(p.outs + [d.wire], d.last)
  {
    assert (calls + [c])[..|calls|] == calls;
  }

  /** Two attempts in a row: the second is decided on the table the first leaves. */
  lemma ReplayPair(last: map<string, int>, c1: Call, c2: Call)
    ensures var d1 := Decide(last, c1.command, c1.at);
            var d2 := Decide(d1.last, c2.command, c2.at);
            Replay(last, [c1, c2]) == Replayed([d1.wire, d2.wire], d2.last)
  {
    ReplaySnoc(last, [], c1);
    assert [] + [c1] == [c1];
    ReplaySnoc(last, [c1], c2);
    assert [c1] + [c2] == [c1, c2];
  }

  /**
   * From the start-up table: "pass" at time 0 is suppressed (its recorded
   * time is 0), "pass" at 8 is written, "pass" again at 13 is suppressed, and
   * "failed" at 17 is written, its cooldown being independent of "pass".
   */
  lemma StartUpScenario()
    ensures Replay(Initial, [Call("pass", 0), Call("pass", 8), Call("pass", 13), Call("failed", 17)]).outs
            == [None, Some("pass\n"), None, Some("failed\n")]
  {
    LowerOfLowerCase("pass");
    LowerOfLowerCase("failed");
    assert "pass" + "\n" == "pass\n" && "failed" + "\n" == "failed\n";
    var c0, c1, c2, c3 := Call("pass", 0), Call("pass", 8), Call("pass", 13), Call("failed", 17);
    var l8 := Initial["pass" := 8];
    assert l8["failed"] == 0;
    ReplaySnoc(Initial, [], c0);
    assert [] + [c0] == [c0];
    assert Replay(Initial, [c0]) == Replayed([None], Initial);
    ReplaySnoc(Initial, [c0], c1);
    assert [c0] + [c1] == [c0, c1];
    assert Replay(Initial, [c0, c1]) == Replayed([None, Some("pass\n")], l8);
    ReplaySnoc(Initial, [c0, c1], c2);
    assert [c0, c1] + [c2] == [c0, c1, c2];
    assert Replay(Initial, [c0, c1, c2]) == Replayed([None, Some("pass\n"), None], l8);
    ReplaySnoc(Initial, [c0, c1, c2], c3);
    assert [c0, c1, c2] + [c3] == [c0, c1, c2, c3];
  }

  /** The sender's state: the mutable cooldown table `last_sent`. */
  class CommandSender {
    var lastSent: map<string, int>

    /** The table starts as `{"pass": 0, "failed": 0}`. */
    constructor ()
      ensures lastSent == Initial
    {
      lastSent := Initial;
    }

    /**
     * `send_command_to_k64f(command)` at clock reading `now`: returns the wire
     * string handed to the serial write, or None when suppressed.
     */
    method Send(command: string, now: int) returns (wire: Option<string>)
      modifies this
      ensures Decision(wire, lastSent) == Decide(old(lastSent), command, now)
    {
      var key := Lower(command);
      if key in lastSent {
        if now - lastSent[key] < Cooldown {
          return None;
        }
        lastSent := lastSent[key := now];
      }
      wire := Some(command + "\n");
    }
  }
}
