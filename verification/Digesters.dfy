/** The streaming text digesters. Each reads the file byte by byte and returns the texts
    it adds, in the order it adds them. */
module Digesters {
  import opened Bytes
  import opened Records
  import opened Segments

  /** The positions `asciidigester` accepts. */
  ghost function AsciiAccepted(b: seq<byte>): seq<bool> {
    seq(|b|, k requires 0 <= k < |b| => IsAsciiText(b[k]))
  }

  /** The greedy UTF-8 segmentation: whether byte `k` is accepted depends on its own class
      and on the byte before it, when that one was accepted too. A lead byte may not follow
      a lead byte; a continuation byte must follow a lead or a continuation byte. */
  ghost predicate Accepts(b: seq<byte>, k: nat)
    requires k < |b|
  {
    if IsAsciiText(b[k]) then true
    else if IsLead(b[k]) then !(k > 0 && Accepts(b, k - 1) && IsLead(b[k - 1]))
    else if IsFollow(b[k]) then k > 0 && Accepts(b, k - 1) && (IsLead(b[k - 1]) || IsFollow(b[k - 1]))
    else false
  }

  /** The positions `utf8digester` accepts. */
  ghost function Utf8Accepted(b: seq<byte>): seq<bool> {
    seq(|b|, k requires 0 <= k < |b| => Accepts(b, k))
  }

  ghost predicate AsciiReport(b: seq<byte>, lim: nat, ts: seq<Text>) {
    Reports(b, AsciiAccepted(b), Ascii, lim, ts)
  }

  ghost predicate Utf8Report(b: seq<byte>, lim: nat, ts: seq<Text>) {
    Reports(b, Utf8Accepted(b), Utf8, lim, ts)
  }

  /** The last `n` of the first `pos` bytes. */
  function Last(b: seq<byte>, pos: nat, n: nat): (r: seq<byte>)
    requires n <= pos <= |b|
    ensures |r| == n
  {
    b[pos - n..pos]
  }

  method AsciiDigester(b: seq<byte>, strlim: nat) returns (added: seq<Text>)
    requires 0 < strlim
    ensures AsciiReport(b, strlim, added)
  {
    added := AsciiLoop(b, strlim, AsciiAccepted(b));
  }

  method AsciiLoop(b: seq<byte>, strlim: nat, ghost acc: seq<bool>) returns (added: seq<Text>)
    requires 0 < strlim && |acc| == |b|
    requires forall k :: 0 <= k < |b| ==> acc[k] == IsAsciiText(b[k])
    ensures Reports(b, acc, Ascii, strlim, added)
  {
    ghost var next;
    var pos, strtrace, buf: seq<byte> := 0, 0, [];
    added := [];
    while pos < |b|
      invariant pos <= |b| && IsTail(acc, pos, strtrace)
      invariant buf == Last(b, pos, strtrace)
      invariant ReportsBefore(b, acc, Ascii, strlim, added, pos)
    {
      var c := b[pos];
      assert acc[pos] <==> IsAsciiText(c);
      if IsPrintable(c) || IsControl(c) {
        TailGrows(b, acc, Ascii, strlim, added, pos, strtrace);
        strtrace := strtrace + 1;
        buf := buf + [c];
      } else {
        next := ReportStep(b, acc, Ascii, strlim, added, pos, strtrace);
        if strtrace >= strlim {
          added := added + [Text(Ascii, pos - |buf|, |buf|, IsTerminator(c))];
        }
        buf := [];
        strtrace := 0;
      }
      pos := pos + 1;
    }
    // the channel is closed: the byte received with `more == false` is the zero value
    next := ReportStep(b, acc, Ascii, strlim, added, pos, strtrace);
    if strtrace >= strlim {
      added := added + [Text(Ascii, pos - |buf|, |buf|, IsTerminator(0))];
    }
    EndBefore(b, acc, Ascii, strlim, added);
  }

  /** `Accepts`, unfolded once: what decides byte `k` given the byte before it. */
  ghost predicate IsDecided(b: seq<byte>, acc: seq<bool>, k: nat)
    requires k < |acc| == |b|
  {
    acc[k] == (|| IsAsciiText(b[k])
               || (IsLead(b[k]) && !(k > 0 && acc[k - 1] && IsLead(b[k - 1])))
               || (IsFollow(b[k]) && k > 0 && acc[k - 1] && (IsLead(b[k - 1]) || IsFollow(b[k - 1]))))
  }

  ghost predicate IsGreedy(b: seq<byte>, acc: seq<bool>) {
    && |acc| == |b|
    && (forall k :: 0 <= k < |b| ==> IsDecided(b, acc, k))
  }

  lemma Utf8IsGreedy(b: seq<byte>)
    ensures IsGreedy(b, Utf8Accepted(b))
  {
    var acc := Utf8Accepted(b);
    assert forall k :: 0 <= k < |b| ==> acc[k] == Accepts(b, k);
  }

  method Utf8Digester(b: seq<byte>, strlim: nat) returns (added: seq<Text>)
    requires 0 < strlim
    ensures Utf8Report(b, strlim, added)
  {
    Utf8IsGreedy(b);
    added := Utf8Loop(b, strlim, Utf8Accepted(b));
  }

  /** What one byte does: whether it is accepted, and the new values of `utfSequence` and
      `lastWasStart`. */
  datatype Step = Step(accepted: bool, utfSequence: bool, lastWasStart: bool)

  function Utf8Step(c: byte, utfSequence: bool, lastWasStart: bool): Step {
    if IsPrintable(c) || IsControl(c) then Step(true, false, false)
    else if IsLead(c) && !utfSequence then Step(true, true, true)
    else if IsFollow(c) && utfSequence then Step(true, utfSequence, false)
    else if IsLead(c) && utfSequence && !lastWasStart then Step(true, utfSequence, true)
    else Step(false, false, false)
  }

  /** The two flags are functions of the class of the last accepted byte. */
  ghost predicate FlagsFit(b: seq<byte>, pos: nat, strtrace: nat, utfSequence: bool, lastWasStart: bool)
    requires strtrace <= pos <= |b|
  {
    && utfSequence == (strtrace > 0 && (IsLead(b[pos - 1]) || IsFollow(b[pos - 1])))
    && lastWasStart == (strtrace > 0 && IsLead(b[pos - 1]))
  }

  /** So the automaton decides every byte as the segmentation does. */
  lemma Utf8StepIsGreedy(b: seq<byte>, acc: seq<bool>, pos: nat, strtrace: nat, utfSequence: bool, lastWasStart: bool)
    requires IsGreedy(b, acc) && pos < |b| && IsTail(acc, pos, strtrace)
    requires FlagsFit(b, pos, strtrace, utfSequence, lastWasStart)
    ensures var step := Utf8Step(b[pos], utfSequence, lastWasStart);
            && step.accepted == acc[pos]
            && FlagsFit(b, pos + 1, if step.accepted then strtrace + 1 else 0, step.utfSequence, step.lastWasStart)
  {
    assert strtrace > 0 <==> pos > 0 && acc[pos - 1];
    assert IsDecided(b, acc, pos);
  }

  method Utf8Loop(b: seq<byte>, strlim: nat, ghost acc: seq<bool>) returns (added: seq<Text>)
    requires 0 < strlim && IsGreedy(b, acc)
    ensures Reports(b, acc, Utf8, strlim, added)
  {
    ghost var next;
    var pos, strtrace, buf: seq<byte> := 0, 0, [];
    var utfSequence, lastWasStart := false, false;
    added := [];
    while pos < |b|
      invariant pos <= |b| && IsTail(acc, pos, strtrace)
      invariant buf == Last(b, pos, strtrace)
      invariant FlagsFit(b, pos, strtrace, utfSequence, lastWasStart)
      invariant ReportsBefore(b, acc, Utf8, strlim, added, pos)
    {
      var c := b[pos];
      var step := Utf8Step(c, utfSequence, lastWasStart);
      Utf8StepIsGreedy(b, acc, pos, strtrace, utfSequence, lastWasStart);
      if step.accepted {
        TailGrows(b, acc, Utf8, strlim, added, pos, strtrace);
        strtrace := strtrace + 1;
        buf := buf + [c];
      } else {
        next := ReportStep(b, acc, Utf8, strlim, added, pos, strtrace);
        if strtrace >= strlim {
          added := added + [Text(Utf8, pos - |buf|, |buf|, IsTerminator(c))];
        }
        buf := [];
        strtrace := 0;
      }
      utfSequence, lastWasStart := step.utfSequence, step.lastWasStart;
      pos := pos + 1;
    }
    next := ReportStep(b, acc, Utf8, strlim, added, pos, strtrace);
    if strtrace >= strlim {
      added := added + [Text(Utf8, pos - |buf|, |buf|, IsTerminator(0))];
    }
    EndBefore(b, acc, Utf8, strlim, added);
  }

  /** An accepted byte prolongs the tail and ends no run. */
  lemma TailGrows(b: seq<byte>, acc: seq<bool>, enc: Encoding, lim: nat, ts: seq<Text>, pos: nat, n: nat)
    requires |acc| == |b| && pos < |b| && acc[pos] && IsTail(acc, pos, n)
    requires ReportsBefore(b, acc, enc, lim, ts, pos)
    ensures IsTail(acc, pos + 1, n + 1)
    ensures Last(b, pos + 1, n + 1) == Last(b, pos, n) + [b[pos]]
    ensures ReportsBefore(b, acc, enc, lim, ts, pos + 1)
  {
  }

  /** Past the end of the file every run has ended. */
  lemma EndBefore(b: seq<byte>, acc: seq<bool>, enc: Encoding, lim: nat, ts: seq<Text>)
    requires |acc| == |b| && ReportsBefore(b, acc, enc, lim, ts, |b| + 1)
    ensures Reports(b, acc, enc, lim, ts)
  {
  }

  /** Inside one UTF-8 text no two lead bytes are adjacent, and every continuation byte
      follows a lead or a continuation byte of the same text. */
  lemma Utf8TextShape(b: seq<byte>, lim: nat, ts: seq<Text>, t: Text, k: nat)
    requires Utf8Report(b, lim, ts) && t in ts && t.pos <= k < t.End()
    ensures IsAsciiText(b[k]) || IsLead(b[k]) || IsFollow(b[k])
    ensures IsLead(b[k]) && t.pos < k ==> !IsLead(b[k - 1])
    ensures IsFollow(b[k]) ==> t.pos < k && (IsLead(b[k - 1]) || IsFollow(b[k - 1]))
  {
    var acc := Utf8Accepted(b);
    assert acc[k] && acc[k] == Accepts(b, k);
    if t.pos < k {
      assert acc[k - 1] && acc[k - 1] == Accepts(b, k - 1);
    } else if 0 < k {
      assert !acc[k - 1] && acc[k - 1] == Accepts(b, k - 1);
    }
  }

  /** Every ASCII text lies inside a UTF-8 text of the same file. */
  lemma AsciiInsideUtf8(b: seq<byte>, lim: nat, asciis: seq<Text>, utfs: seq<Text>, a: Text) returns (u: Text)
    requires AsciiReport(b, lim, asciis) && Utf8Report(b, lim, utfs) && a in asciis
    ensures u in utfs && u.pos <= a.pos && a.End() <= u.End()
  {
    var acc := Utf8Accepted(b);
    var aacc := AsciiAccepted(b);
    forall k | a.pos <= k < a.End() ensures acc[k] {
      assert aacc[k];
    }
    var p, n := RunAround(acc, a.pos);
    assert a.End() <= p + n;
    u := Text(Utf8, p, n, p + n == |b| || IsTerminator(b[p + n]));
    assert IsText(b, acc, Utf8, lim, u);
  }
}
