/** Replacement bytes for a text: control characters, invalid characters, and text that
    continues the original. */
module Fillers {
  import opened Bytes
  import opened Records
  import opened Segments
  import opened Digesters

  method FillCtrl(t: Text) returns (b: array<byte>)
    ensures fresh(b) && b.Length == t.len
    ensures forall k :: 0 <= k < b.Length ==> b[k] < 0x20
  {
    b := new byte[t.len];
    for i := 0 to t.len
      invariant forall k :: 0 <= k < i ==> b[k] < 0x20
    {
      var r := Ran(0x20);
      b[i] := r as byte;
    }
  }

  /** The bytes `fillInvalid` may choose: none of them is ASCII text, and as a replacement
      for a UTF-8 text they are all continuation bytes. */
  predicate IsInvalidFor(enc: Encoding, c: byte) {
    match enc
    case Ascii => 0x80 <= c
    case Utf8 => IsFollow(c)
    case Unicode => c <= 0xFE
  }

  method FillInvalid(t: Text) returns (b: array<byte>)
    ensures fresh(b) && b.Length == t.len
    ensures forall k :: 0 <= k < b.Length ==> IsInvalidFor(t.enc, b[k])
    ensures t.enc.Ascii? ==> forall k :: 0 <= k < b.Length ==> 0x80 <= b[k]
    ensures t.enc.Utf8? ==> forall k :: 0 <= k < b.Length ==> 0x80 <= b[k] <= 0xBF
  {
    b := new byte[t.len];
    for i := 0 to t.len
      invariant forall k :: 0 <= k < i ==> IsInvalidFor(t.enc, b[k])
    {
      var r := RanByte();
      match t.enc
      case Ascii => b[i] := SetHigh(r);
      case Utf8 => b[i] := AsFollow(r);
      case Unicode => b[i] := r;
    }
  }

  /** The printable bytes the fillers choose from. */
  predicate IsFillChar(c: byte) {
    0x20 <= c <= 0x7D
  }

  method RanFillChar() returns (c: byte)
    ensures IsFillChar(c) && 0x20 <= c <= 0x7D
  {
    var r := Ran(0x7E - 0x20);
    c := (r + 0x20) as byte;
  }

  /** The number of continuation bytes that a lead byte announces (section 3 of RFC 3629,
      without its restrictions to C2..F4 and to the shortest form). */
  function Continuations(lead: byte): nat
    requires 0xC0 <= lead <= 0xF7
  {
    if lead < 0xE0 then 1 else if lead < 0xF0 then 2 else 3
  }

  /** One printable byte, or a lead byte with exactly its continuation bytes. */
  predicate IsUnit(u: seq<byte>) {
    && u != []
    && (|u| == 1 ==> IsFillChar(u[0]))
    && (|u| > 1 ==> 0xC0 <= u[0] <= 0xF7 && |u| == 1 + Continuations(u[0])
                    && forall k :: 1 <= k < |u| ==> IsFollow(u[k]))
  }

  function UnitLength(lead: byte): (n: nat)
    ensures 1 <= n <= 4
  {
    if 0xC0 <= lead <= 0xF7 then 1 + Continuations(lead) else 1
  }

  /** A sequence of whole units. */
  predicate IsUnits(s: seq<byte>)
    decreases |s|
  {
    s == [] || (UnitLength(s[0]) <= |s| && IsUnit(s[..UnitLength(s[0])]) && IsUnits(s[UnitLength(s[0])..]))
  }

  lemma {:induction false} UnitsExtend(s: seq<byte>, u: seq<byte>)
    requires IsUnits(s) && IsUnit(u)
    ensures IsUnits(s + u)
    decreases |s|
  {
    if s == [] {
      assert s + u == u && u[..|u|] == u && UnitLength(u[0]) == |u|;
    } else {
      var n := UnitLength(s[0]);
      UnitsExtend(s[n..], u);
      assert (s + u)[..n] == s[..n] && (s + u)[n..] == s[n..] + u;
    }
  }

  /** What `fillString` appends to a text of this encoding. */
  ghost predicate IsContinuation(enc: Encoding, text: seq<byte>, more: seq<byte>) {
    match enc
    case Ascii => forall k :: 0 <= k < |more| ==> IsFillChar(more[k])
    case Utf8 => IsUnits(more)
    case Unicode => text != [] && forall k :: 0 <= k < |more| ==>
        if (text + more)[|text| + k - 1] == 0 then IsFillChar(more[k]) else more[k] == 0
  }

  /** `fillString`: the text itself, continued up to `length` bytes. */
  method FillString(content: seq<byte>, t: Text, length: nat) returns (b: array<byte>)
    requires t.End() <= |content| && t.len <= length
    requires t.enc.Unicode? ==> 0 < t.len
    ensures fresh(b) && b.Length == length
    ensures b[..t.len] == content[t.pos..t.End()]
    ensures IsContinuation(t.enc, content[t.pos..t.End()], b[t.len..])
  {
    b := new byte[length];
    forall k | 0 <= k < t.len {
      b[k] := content[t.pos + k];
    }
    ghost var text := content[t.pos..t.End()];
    assert b[..t.len] == text;
    match t.enc
    case Ascii => FillAscii(b, t.len);
    case Utf8 => FillUtf8(b, t.len);
    case Unicode =>
      FillUnicode(b, t.len);
      assert b[..] == text + b[t.len..];
  }

  /** The filling loop for ASCII. */
  method FillAscii(b: array<byte>, from: nat)
    requires from <= b.Length
    modifies b
    ensures b[..from] == old(b[..from])
    ensures forall k :: from <= k < b.Length ==> IsFillChar(b[k])
  {
    for i := from to b.Length
      invariant b[..from] == old(b[..from])
      invariant forall k :: from <= k < i ==> IsFillChar(b[k])
    {
      var c := RanFillChar();
      b[i] := c;
    }
  }

  /** The filling loop for UTF-16: zero bytes and printable ones in turn. */
  method FillUnicode(b: array<byte>, from: nat)
    requires 0 < from <= b.Length
    modifies b
    ensures b[..from] == old(b[..from])
    ensures forall k :: from <= k < b.Length ==> if b[k - 1] == 0 then IsFillChar(b[k]) else b[k] == 0
  {
    for i := from to b.Length
      invariant b[..from] == old(b[..from])
      invariant forall k :: from <= k < i ==> if b[k - 1] == 0 then IsFillChar(b[k]) else b[k] == 0
    {
      if b[i - 1] == 0x00 {
        var c := RanFillChar();
        b[i] := c;
      } else {
        b[i] := 0x00;
      }
    }
  }

  /** The filling loop for UTF-8. */
  method FillUtf8(b: array<byte>, from: nat)
    requires from <= b.Length
    modifies b
    ensures b[..from] == old(b[..from])
    ensures IsUnits(b[from..])
  {
    var i := from;
    ghost var before;
    while i < b.Length
      invariant from <= i <= b.Length
      invariant b[..from] == old(b[..from])
      invariant IsUnits(b[from..i])
    {
      ghost var at := i;
      before := b[..];
      var draw := Ran(10);
      i := PutNext(b, i, draw);
      assert before[..at] == b[..at];
      UnitAppended(before, b[..], from, at, i);
    }
    assert b[from..i] == b[from..];
  }

  lemma UnitAppended(before: seq<byte>, after: seq<byte>, from: nat, at: nat, i: nat)
    requires from <= at <= i <= |after| == |before| && before[..at] == after[..at]
    requires IsUnits(before[from..at]) && IsUnit(after[at..i])
    ensures IsUnits(after[from..i]) && after[..from] == before[..from]
  {
    UnitsExtend(before[from..at], after[at..i]);
    assert before[from..at] == before[..at][from..] && after[from..at] == after[..at][from..];
    assert after[from..i] == after[from..at] + after[at..i];
    assert after[..from] == after[..at][..from] && before[..from] == before[..at][..from];
  }

  /** One round: a draw that asks for more bytes than are left falls through to the next
      shorter unit. */
  method PutNext(b: array<byte>, i: nat, draw: nat) returns (next: nat)
    requires i < b.Length && draw < 10
    modifies b
    ensures i < next <= b.Length
    ensures var left := b.Length - i;
            next - i == if draw == 0 && left >= 4 then 4
                        else if draw <= 2 && left >= 3 then 3
                        else if draw <= 5 && left >= 2 then 2
                        else 1
    ensures b[..i] == old(b[..i]) && IsUnit(b[i..next])
  {
    var left := b.Length - i;
    if draw == 0 && left >= 4 {
      var r := RanByte();
      next := PutUnit(b, i, AsLead4(r));
    } else if draw <= 2 && left >= 3 {
      var r := RanByte();
      next := PutUnit(b, i, AsLead3(r));
    } else if draw <= 5 && left >= 2 {
      var r := RanByte();
      next := PutUnit(b, i, AsLead2(r));
    } else {
      var c := RanFillChar();
      b[i] := c;
      next := i + 1;
    }
  }

  /** A lead byte and the continuation bytes it announces. */
  method PutUnit(b: array<byte>, i: nat, lead: byte) returns (next: nat)
    requires 0xC0 <= lead <= 0xF7 && i + Continuations(lead) < b.Length
    modifies b
    ensures next == i + 1 + Continuations(lead)
    ensures b[..i] == old(b[..i]) && IsUnit(b[i..next])
  {
    b[i] := lead;
    next := i + 1;
    while next < i + 1 + Continuations(lead)
      invariant i < next <= i + 1 + Continuations(lead)
      invariant b[i] == lead && b[..i] == old(b[..i])
      invariant forall k :: i < k < next ==> IsFollow(b[k])
    {
      var r := RanByte();
      b[next] := AsFollow(r);
      next := next + 1;
    }
  }

  // ---- how the continued text reads ----

  /** The UTF-8 digester reads all of `s` without a break. */
  ghost predicate Passes(s: seq<byte>) {
    forall k :: 0 <= k < |s| ==> Accepts(s, k)
  }

  /** Whether a byte is accepted does not depend on what comes after it. */
  lemma {:induction false} AcceptsPrefix(s: seq<byte>, more: seq<byte>, k: nat)
    requires k < |s|
    ensures Accepts(s + more, k) == Accepts(s, k)
  {
    if k > 0 {
      AcceptsPrefix(s, more, k - 1);
    }
  }

  ghost predicate EndsInLead(s: seq<byte>) {
    s != [] && IsLead(s[|s| - 1])
  }

  lemma {:induction false} UnitAccepted(s: seq<byte>, u: seq<byte>, n: nat)
    requires IsUnit(u) && 0 < n <= |u| && Accepts(s + u, |s|)
    ensures forall k :: |s| <= k < |s| + n ==> Accepts(s + u, k)
  {
    if n > 1 {
      UnitAccepted(s, u, n - 1);
      assert (s + u)[|s| + n - 1] == u[n - 1] && (s + u)[|s| + n - 2] == u[n - 2];
      assert Accepts(s + u, |s| + n - 2);
    }
  }

  /** One more unit passes, unless it puts a lead byte after a lead byte. */
  lemma UnitPasses(s: seq<byte>, u: seq<byte>)
    requires Passes(s) && IsUnit(u)
    ensures Passes(s + u) <==> !(EndsInLead(s) && IsLead(u[0]))
    ensures Passes(s + u) ==> !EndsInLead(s + u)
  {
    var all := s + u;
    forall k | 0 <= k < |s| ensures Accepts(all, k) {
      AcceptsPrefix(s, u, k);
    }
    assert all[|s|] == u[0];
    assert |s| > 0 ==> Accepts(all, |s| - 1) && all[|s| - 1] == s[|s| - 1];
    assert Accepts(all, |s|) <==> !(EndsInLead(s) && IsLead(u[0]));
    if Accepts(all, |s|) {
      UnitAccepted(s, u, |u|);
    }
  }

  /** The continued text passes the UTF-8 digester if and only if no lead byte has been
      put after a lead byte at the seam; so always if the text does not end in one. */
  lemma {:induction false} ContinuedPasses(text: seq<byte>, more: seq<byte>)
    requires Passes(text) && IsUnits(more)
    ensures Passes(text + more) <==> more == [] || !(EndsInLead(text) && IsLead(more[0]))
    decreases |more|
  {
    if more == [] {
      assert text + more == text;
    } else {
      var n := UnitLength(more[0]);
      var u, rest := more[..n], more[n..];
      UnitPasses(text, u);
      assert text + more == (text + u) + rest;
      if Passes(text + u) {
        ContinuedPasses(text + u, rest);
      } else {
        BrokenStaysBroken(text + u, rest);
      }
    }
  }

  lemma BrokenStaysBroken(s: seq<byte>, more: seq<byte>)
    requires !Passes(s)
    ensures !Passes(s + more)
  {
    var k :| 0 <= k < |s| && !Accepts(s, k);
    AcceptsPrefix(s, more, k);
  }

  /** A text that the UTF-8 digester found passes on its own, too. */
  lemma {:induction false} FoundTextPasses(b: seq<byte>, lim: nat, t: Text, k: nat)
    requires IsText(b, Utf8Accepted(b), t.enc, lim, t) && k < t.len
    ensures Accepts(b[t.pos..t.End()], k)
  {
    var acc := Utf8Accepted(b);
    assert acc[t.pos + k] && acc[t.pos + k] == Accepts(b, t.pos + k);
    if k > 0 {
      FoundTextPasses(b, lim, t, k - 1);
      assert acc[t.pos + k - 1] && acc[t.pos + k - 1] == Accepts(b, t.pos + k - 1);
    } else if t.pos > 0 {
      assert !acc[t.pos - 1] && acc[t.pos - 1] == Accepts(b, t.pos - 1);
    }
  }

  /** What `fillString` makes of a found UTF-8 text is read as one text, unless the text
      ends in a lead byte and the first unit appended starts with one. */
  lemma FilledTextPasses(b: seq<byte>, lim: nat, t: Text, filled: seq<byte>)
    requires IsText(b, Utf8Accepted(b), t.enc, lim, t) && t.enc.Utf8?
    requires t.len <= |filled| && filled[..t.len] == b[t.pos..t.End()]
    requires IsContinuation(Utf8, b[t.pos..t.End()], filled[t.len..])
    ensures Passes(filled) <==> t.len == |filled| || !(IsLead(b[t.End() - 1]) && IsLead(filled[t.len]))
  {
    var text, more := b[t.pos..t.End()], filled[t.len..];
    forall k | 0 <= k < |text| ensures Accepts(text, k) {
      FoundTextPasses(b, lim, t, k);
    }
    ContinuedPasses(text, more);
    assert text + more == filled;
  }

  /** Whole units on their own are read without a break. */
  lemma UnitsPass(s: seq<byte>)
    requires IsUnits(s)
    ensures Passes(s)
  {
    ContinuedPasses([], s);
    assert [] + s == s;
  }

  /** `n` bytes of whole units that start with a lead byte. */
  lemma {:induction false} LeadingUnits(n: nat) returns (more: seq<byte>)
    requires 2 <= n
    ensures |more| == n && IsUnits(more) && IsLead(more[0])
  {
    if n == 2 {
      more := [0xC3, 0x80];
      assert more[..2] == more && more[2..] == [];
    } else {
      var less := LeadingUnits(n - 1);
      UnitsExtend(less, [0x41]);
      more := less + [0x41];
    }
  }

  lemma ShortUnits(more: seq<byte>)
    requires IsUnits(more) && |more| < 2
    ensures more == [] || !IsLead(more[0])
  {
    if more != [] {
      assert more[..1] == more;
    }
  }

  /** When lengthening a found text to `length` bytes is sure to give one text again: if and
      only if the text does not end in a lead byte, or there is no room for one after it. */
  lemma AlwaysPassesIff(b: seq<byte>, lim: nat, t: Text, length: nat)
    requires IsText(b, Utf8Accepted(b), t.enc, lim, t) && t.enc.Utf8? && t.len <= length
    ensures (forall more :: IsUnits(more) && |more| == length - t.len ==> Passes(b[t.pos..t.End()] + more))
            <==> !IsLead(b[t.End() - 1]) || length - t.len < 2
  {
    var text := b[t.pos..t.End()];
    forall k | 0 <= k < |text| ensures Accepts(text, k) {
      FoundTextPasses(b, lim, t, k);
    }
    assert EndsInLead(text) <==> IsLead(b[t.End() - 1]);
    forall more | IsUnits(more) && |more| == length - t.len
      ensures Passes(text + more) <==> more == [] || !(EndsInLead(text) && IsLead(more[0]))
      ensures length - t.len < 2 ==> Passes(text + more)
    {
      ContinuedPasses(text, more);
      if |more| < 2 {
        ShortUnits(more);
      }
    }
    if IsLead(b[t.End() - 1]) && 2 <= length - t.len {
      var more := LeadingUnits(length - t.len);
      assert !Passes(text + more);
    }
  }
}
