/** The stages together: what the scans and the correlation leave behind is what the
    mutator needs. */
module Pipeline {
  import opened Bytes
  import opened Records
  import opened Segments
  import opened Digesters
  import Strs = ScanStrings
  import opened ScanInts
  import opened Correlate
  import opened FanOut
  import opened Fillers
  import Mut = StringMutator
  import DummyMutator
  import opened Rescan
  import opened MergedRescan

  /** The number of workers: at most one per string, and half the processors less the
      collectors. */
  function Cpus(strs: nat, numCPU: nat, sams: nat): int {
    var spare := numCPU / 2 - sams;
    if strs < spare then strs else spare
  }

  /** That is the largest number that leaves two processors for every worker and collector. */
  lemma CpusIsLargest(strs: nat, numCPU: nat, sams: nat, n: int)
    ensures n <= Cpus(strs, numCPU, sams) <==> n <= strs && 2 * (n + sams) <= numCPU
  {
  }

  function EmitInt(ints: seq<Int>): Text -> Option<Block> {
    t => IntBlock(ints, t)
  }

  /** `CorrelateIntStrings` as an instance of the protocol: two collectors. */
  function IntConfig(ints: seq<Int>, texts: seq<Text>, numCPU: nat, before: seq<Block>): Config<Text, Block> {
    Config(Cpus(|texts|, numCPU, 2), 2, 10, 1000, texts, EmitInt(ints), before)
  }

  /** A pair of groups lies inside the lists it refers to. */
  predicate IsPair(ints: seq<Int>, texts: seq<Text>, isc: GroupPair) {
    && isc.strBreaks.0 <= isc.strBreaks.1 <= |texts|
    && isc.intBreaks.0 <= isc.intBreaks.1 <= |ints|
  }

  ghost function EmitGroup(ints: seq<Int>, texts: seq<Text>): GroupPair -> Option<Block> {
    isc => if IsPair(ints, texts, isc) then GroupBlock(texts, ints, isc) else None
  }

  /** `CorrelateGroupStrings` on the pairs of groups it feeds: one collector. */
  ghost function GroupConfig(ints: seq<Int>, texts: seq<Text>, numCPU: nat, pairs: seq<GroupPair>, before: seq<Block>)
    : Config<GroupPair, Block>
  {
    Config(Cpus(|texts|, numCPU, 1), 1, 10, 1000, pairs, EmitGroup(ints, texts), before)
  }

  lemma ConfigsValid(ints: seq<Int>, texts: seq<Text>, numCPU: nat, pairs: seq<GroupPair>, before: seq<Block>)
    ensures IntConfig(ints, texts, numCPU, before).Valid()
    ensures GroupConfig(ints, texts, numCPU, pairs, before).Valid()
  {
  }

  ghost predicate HasNoField(ints: seq<Int>, texts: seq<Text>) {
    forall t :: t in texts ==> LengthFields(ints, t) == []
  }

  /** `CorrelateIntStrings` can return if and only if the machine has six processors or there
      are at most ten strings. */
  lemma IntStringsReturns(ints: seq<Int>, texts: seq<Text>, numCPU: nat, before: seq<Block>)
    ensures MayReturn(IntConfig(ints, texts, numCPU, before)) <==> 6 <= numCPU || |texts| <= 10
  {
    var cfg := IntConfig(ints, texts, numCPU, before);
    ConfigsValid(ints, texts, numCPU, [], before);
    ReturnsIff(cfg);
  }

  /** When it returns, it has delivered the blocks of all strings if and only if the machine
      has six processors or no string has a length field; otherwise it has delivered none. */
  lemma IntStringsDelivers(ints: seq<Int>, texts: seq<Text>, numCPU: nat, before: seq<Block>,
                           run: seq<State<Text, Block>>, last: State<Text, Block>)
    requires EndsIn(IntConfig(ints, texts, numCPU, before), run, last)
    ensures IsComplete(IntConfig(ints, texts, numCPU, before), last) <==> 6 <= numCPU || HasNoField(ints, texts)
    ensures numCPU < 6 ==> multiset(last.blocks) == multiset(before)
  {
    var cfg := IntConfig(ints, texts, numCPU, before);
    ConfigsValid(ints, texts, numCPU, [], before);
    Delivered(cfg, run);
    DeliveredIff(cfg, run);
    ProducedNothing(ints, texts);
    if 6 <= numCPU && texts == [] {
      assert Produced(EmitInt(ints), texts) == [];
    }
  }

  /** So it can deliver everything if and only if the machine has six processors, or there
      is nothing to deliver and there are at most ten strings. */
  lemma IntStringsCanDeliver(ints: seq<Int>, texts: seq<Text>, numCPU: nat, before: seq<Block>)
    ensures MayDeliver(IntConfig(ints, texts, numCPU, before)) <==> 6 <= numCPU || (HasNoField(ints, texts) && |texts| <= 10)
  {
    var cfg := IntConfig(ints, texts, numCPU, before);
    ConfigsValid(ints, texts, numCPU, [], before);
    DeliversIff(cfg);
    ProducedNothing(ints, texts);
  }

  /** The same for `CorrelateGroupStrings`, which keeps one collector. */
  lemma GroupStringsReturns(ints: seq<Int>, texts: seq<Text>, numCPU: nat, pairs: seq<GroupPair>, before: seq<Block>)
    ensures MayReturn(GroupConfig(ints, texts, numCPU, pairs, before)) <==> (4 <= numCPU && texts != []) || |pairs| <= 10
  {
    ConfigsValid(ints, texts, numCPU, pairs, before);
    ReturnsIff(GroupConfig(ints, texts, numCPU, pairs, before));
  }

  /** When it returns, it has delivered the blocks of all matching pairs if and only if the
      machine has four processors or no pair matches; otherwise it has delivered none. */
  lemma GroupStringsDelivers(ints: seq<Int>, texts: seq<Text>, numCPU: nat, pairs: seq<GroupPair>, before: seq<Block>,
                             run: seq<State<GroupPair, Block>>, last: State<GroupPair, Block>)
    requires EndsIn(GroupConfig(ints, texts, numCPU, pairs, before), run, last)
    ensures IsComplete(GroupConfig(ints, texts, numCPU, pairs, before), last)
            <==> 4 <= numCPU || Produced(EmitGroup(ints, texts), pairs) == []
    ensures numCPU < 4 ==> multiset(last.blocks) == multiset(before)
  {
    var cfg := GroupConfig(ints, texts, numCPU, pairs, before);
    ConfigsValid(ints, texts, numCPU, pairs, before);
    Delivered(cfg, run);
    DeliveredIff(cfg, run);
    if texts == [] {
      NoTextsNoGroups(ints, pairs);
    }
  }

  lemma {:induction false} ProducedNothing(ints: seq<Int>, texts: seq<Text>)
    ensures Produced(EmitInt(ints), texts) == [] <==> HasNoField(ints, texts)
  {
    if texts != [] {
      ProducedNothing(ints, texts[1..]);
      var e := EmitInt(ints)(texts[0]);
      assert e.None? <==> LengthFields(ints, texts[0]) == [];
      assert Produced(EmitInt(ints), texts) == [] <==> e.None? && Produced(EmitInt(ints), texts[1..]) == [];
      assert forall t :: t in texts <==> t == texts[0] || t in texts[1..];
    }
  }

  /** Where a produced block comes from. */
  lemma {:induction false} ProducedFrom<I, B>(emit: I -> Option<B>, xs: seq<I>, b: B) returns (x: I)
    requires b in Produced(emit, xs)
    ensures x in xs && emit(x) == Some(b)
  {
    if emit(xs[0]) == Some(b) {
      x := xs[0];
    } else {
      x := ProducedFrom(emit, xs[1..], b);
    }
  }

  // ---- what the mutator needs ----

  /** The places of the integers are disjoint from all texts, the texts are not empty, and a
      length field starts before its string: so it ends before the string, too. */
  lemma FieldEndsBeforeString(b: seq<byte>, lim: nat, texts: seq<Text>, t: Text, i: Int)
    requires Strs.FileTexts(b, lim, texts) && t in texts
    requires IsCandidate(b, texts, i) && i.pos < t.pos
    ensures Mut.IsField(i, t.pos)
  {
    Strs.FileTextsApart(b, lim, texts);
    if t.pos < i.End() {
      assert Covered(texts, t.pos);
      assert false;
    }
  }

  /** A block of `CorrelateIntStrings` can be mutated. */
  lemma IntBlockUsable(b: seq<byte>, lim: nat, texts: seq<Text>, ints: seq<Int>, t: Text, blk: Block)
    requires Strs.FileTexts(b, lim, texts) && t in texts
    requires forall i :: i in ints ==> IsCandidate(b, texts, i)
    requires IntBlock(ints, t) == Some(blk)
    ensures Mut.IsUsable(b, blk)
  {
    Strs.FileTextsApart(b, lim, texts);
    forall i | i in blk.length ensures Mut.IsField(i, t.pos) {
      FieldEndsBeforeString(b, lim, texts, t, i);
    }
  }

  /** The correlation of strings and integers, which a flag switches off. */
  ghost predicate IntStage(off: bool, ints: seq<Int>, texts: seq<Text>, numCPU: nat, before: seq<Block>, after: seq<Block>) {
    if off then after == before
    else exists run, last :: EndsIn(IntConfig(ints, texts, numCPU, before), run, last) && after == last.blocks
  }

  /** The correlation of groups, which another flag switches off. */
  ghost predicate GroupStage(off: bool, ints: seq<Int>, texts: seq<Text>, numCPU: nat, pairs: seq<GroupPair>,
                             before: seq<Block>, after: seq<Block>) {
    if off then after == before
    else exists run, last :: EndsIn(GroupConfig(ints, texts, numCPU, pairs, before), run, last) && after == last.blocks
  }

  /** The blocks after both stages, on a new file. */
  ghost predicate Correlated(noLC: bool, noOC: bool, ints: seq<Int>, texts: seq<Text>, numCPU: nat,
                             pairs: seq<GroupPair>, mid: seq<Block>, blocks: seq<Block>) {
    IntStage(noLC, ints, texts, numCPU, [], mid) && GroupStage(noOC, ints, texts, numCPU, pairs, mid, blocks)
  }

  /** The first stage adds the blocks of the strings, or nothing. */
  lemma IntStageBlocks(off: bool, ints: seq<Int>, texts: seq<Text>, numCPU: nat, after: seq<Block>)
    requires IntStage(off, ints, texts, numCPU, [], after)
    ensures multiset(after) == multiset(if off || numCPU < 6 then [] else Produced(EmitInt(ints), texts))
  {
    if !off {
      var run, last :| EndsIn(IntConfig(ints, texts, numCPU, []), run, last) && after == last.blocks;
      IntStringsDelivers(ints, texts, numCPU, [], run, last);
      assert [] + Produced(EmitInt(ints), texts) == Produced(EmitInt(ints), texts);
    }
  }

  /** The second stage adds the blocks of the matching pairs, or nothing. */
  lemma GroupStageBlocks(off: bool, ints: seq<Int>, texts: seq<Text>, numCPU: nat, pairs: seq<GroupPair>,
                         before: seq<Block>, after: seq<Block>)
    requires GroupStage(off, ints, texts, numCPU, pairs, before, after)
    ensures multiset(after) ==
            multiset(before + if off || numCPU < 4 then [] else Produced(EmitGroup(ints, texts), pairs))
  {
    assert before + [] == before;
    if !off {
      var run, last :| EndsIn(GroupConfig(ints, texts, numCPU, pairs, before), run, last) && after == last.blocks;
      GroupStringsDelivers(ints, texts, numCPU, pairs, before, run, last);
    }
  }

  lemma {:induction false} NoTextsNoGroups(ints: seq<Int>, pairs: seq<GroupPair>)
    ensures Produced(EmitGroup(ints, []), pairs) == []
  {
    if pairs != [] {
      NoTextsNoGroups(ints, pairs[1..]);
    }
  }

  /** A block of the first stage can be mutated, one of the second is skipped. */
  lemma StageOf(b: seq<byte>, lim: nat, texts: seq<Text>, ints: seq<Int>, pairs: seq<GroupPair>, blk: Block)
    requires Strs.FileTexts(b, lim, texts)
    requires forall i :: i in ints ==> IsCandidate(b, texts, i)
    ensures blk in Produced(EmitInt(ints), texts) ==> Mut.IsUsable(b, blk) && !Mut.IsIdle(blk)
    ensures blk in Produced(EmitGroup(ints, texts), pairs) ==> Mut.IsIdle(blk)
  {
    if blk in Produced(EmitInt(ints), texts) {
      var t := ProducedFrom(EmitInt(ints), texts, blk);
      IntBlockUsable(b, lim, texts, ints, t, blk);
    }
    if blk in Produced(EmitGroup(ints, texts), pairs) {
      var isc := ProducedFrom(EmitGroup(ints, texts), pairs, blk);
    }
  }

  /** The blocks in the list come from the two stages. */
  lemma BlocksFrom(noLC: bool, noOC: bool, ints: seq<Int>, texts: seq<Text>, numCPU: nat,
                   pairs: seq<GroupPair>, mid: seq<Block>, blocks: seq<Block>, blk: Block)
    requires Correlated(noLC, noOC, ints, texts, numCPU, pairs, mid, blocks)
    ensures blk in blocks <==>
            || (!noLC && 6 <= numCPU && blk in Produced(EmitInt(ints), texts))
            || (!noOC && 4 <= numCPU && blk in Produced(EmitGroup(ints, texts), pairs))
  {
    IntStageBlocks(noLC, ints, texts, numCPU, mid);
    GroupStageBlocks(noOC, ints, texts, numCPU, pairs, mid, blocks);
    var more := if noOC || numCPU < 4 then [] else Produced(EmitGroup(ints, texts), pairs);
    var first := if noLC || numCPU < 6 then [] else Produced(EmitInt(ints), texts);
    assert blk in blocks <==> blk in multiset(blocks);
    assert blk in mid + more <==> blk in multiset(mid + more);
    assert blk in mid <==> blk in multiset(mid);
    assert blk in first <==> blk in multiset(first);
  }

  /** All blocks in the list after the correlations that are switched on, in whatever order
      and by whatever interleaving they got there, can be mutated or are skipped. */
  lemma AllBlocksFit(b: seq<byte>, lim: nat, texts: seq<Text>, ints: seq<Int>, noLC: bool, noOC: bool, numCPU: nat,
                     pairs: seq<GroupPair>, mid: seq<Block>, blocks: seq<Block>)
    requires Strs.FileTexts(b, lim, texts)
    requires forall i :: i in ints ==> IsCandidate(b, texts, i)
    requires Correlated(noLC, noOC, ints, texts, numCPU, pairs, mid, blocks)
    ensures forall blk :: blk in blocks ==> Mut.IsUsable(b, blk) || Mut.IsIdle(blk)
  {
    forall blk | blk in blocks ensures Mut.IsUsable(b, blk) || Mut.IsIdle(blk) {
      BlocksFrom(noLC, noOC, ints, texts, numCPU, pairs, mid, blocks, blk);
      StageOf(b, lim, texts, ints, pairs, blk);
    }
  }

  /** When the mutator may return an empty file, in terms of the analysis: if the stage for
      strings and integers has added nothing, or the stage for groups something. */
  lemma EmptyMutantIff(b: seq<byte>, lim: nat, texts: seq<Text>, ints: seq<Int>, noLC: bool, noOC: bool, numCPU: nat,
                       pairs: seq<GroupPair>, mid: seq<Block>, blocks: seq<Block>)
    requires Strs.FileTexts(b, lim, texts)
    requires forall i :: i in ints ==> IsCandidate(b, texts, i)
    requires Correlated(noLC, noOC, ints, texts, numCPU, pairs, mid, blocks)
    ensures Mut.IsMutant(b, blocks, []) <==>
            || noLC || numCPU < 6 || HasNoField(ints, texts)
            || (!noOC && Produced(EmitGroup(ints, texts), pairs) != [])
  {
    var first, second := Produced(EmitInt(ints), texts), Produced(EmitGroup(ints, texts), pairs);
    ProducedNothing(ints, texts);
    Mut.EmptyIff(b, blocks);
    forall blk
      ensures blk in blocks <==> (!noLC && 6 <= numCPU && blk in first) || (!noOC && 4 <= numCPU && blk in second)
      ensures blk in first ==> !Mut.IsIdle(blk)
      ensures blk in second ==> Mut.IsIdle(blk)
    {
      BlocksFrom(noLC, noOC, ints, texts, numCPU, pairs, mid, blocks, blk);
      StageOf(b, lim, texts, ints, pairs, blk);
    }
    if blocks != [] {
      assert blocks[0] in blocks;
    }
    if first != [] {
      assert first[0] in first;
    }
    if second != [] {
      assert second[0] in second;
    }
  }

  /** Without blocks of the first stage the mutator returns an empty file, and nothing else. */
  lemma OnlyEmptyMutants(b: seq<byte>, lim: nat, texts: seq<Text>, ints: seq<Int>, noLC: bool, noOC: bool, numCPU: nat,
                         pairs: seq<GroupPair>, mid: seq<Block>, blocks: seq<Block>, r: seq<byte>)
    requires Strs.FileTexts(b, lim, texts)
    requires forall i :: i in ints ==> IsCandidate(b, texts, i)
    requires Correlated(noLC, noOC, ints, texts, numCPU, pairs, mid, blocks)
    requires noLC || numCPU < 6 || HasNoField(ints, texts)
    ensures Mut.IsMutant(b, blocks, r) <==> r == []
  {
    ProducedNothing(ints, texts);
    forall blk | blk in blocks ensures Mut.IsIdle(blk) {
      BlocksFrom(noLC, noOC, ints, texts, numCPU, pairs, mid, blocks, blk);
      StageOf(b, lim, texts, ints, pairs, blk);
    }
    Mut.OnlyEmpty(b, blocks, r);
  }

  /** Both scans of a file: they set up what the correlation and the mutator rely on. */
  method Analyse(f: Strs.File, strlim: nat, dedup: bool, unicodes: seq<Text>, magics: seq<nat>) returns (intz: Ints)
    requires 0 < strlim && 8 <= |f.content| && f.stringz.s == []
    requires !f.isPureAscii && !f.isPureUtf8 && !f.isPureUnicode
    requires forall t :: t in unicodes ==> t.enc.Unicode?
    modifies f, f.stringz
    ensures Strs.FileTexts(f.content, strlim, f.stringz.s)
    ensures fresh(intz) && SortedByPos(intz.i)
    ensures forall i :: i in intz.i ==> IsCandidate(f.content, f.stringz.s, i)
    ensures !dedup ==> forall i :: i in intz.i <==> IsCandidate(f.content, f.stringz.s, i)
  {
    Strs.Scan(f, strlim, unicodes, magics);
    Strs.FileTextsApart(f.content, strlim, f.stringz.s);
    intz := new Ints();
    var _ := Scan(f.content, f.stringz.s, dedup, intz);
  }

  /** `randomMutationEngine` and the mutation it leads to, after a complete analysis: for
      every file, scan order, interleaving and random choice the string mutator stays in
      range, and its result is the outcome of permitted choices. */
  method MutateAnalysed(f: Strs.File, strlim: nat, ints: seq<Int>, blocks: seq<Block>, ghost noLC: bool, ghost noOC: bool,
                        ghost numCPU: nat, ghost pairs: seq<GroupPair>, ghost mid: seq<Block>)
    returns (mutated: array<byte>)
    requires Strs.FileTexts(f.content, strlim, f.stringz.s)
    requires forall i :: i in ints ==> IsCandidate(f.content, f.stringz.s, i)
    requires Correlated(noLC, noOC, ints, f.stringz.s, numCPU, pairs, mid, blocks)
    ensures if f.stringz.s != [] && !f.isPureAscii && !f.isPureUnicode && !f.isPureUtf8
            then Mut.IsMutant(f.content, blocks, mutated[..])
            else DummyMutator.IsMutation(f.content, mutated[..])
  {
    if |f.stringz.s| > 0 && !f.isPureAscii && !f.isPureUnicode && !f.isPureUtf8 {
      AllBlocksFit(f.content, strlim, f.stringz.s, ints, noLC, noOC, numCPU, pairs, mid, blocks);
      ghost var c;
      mutated, c := Mut.Do(f.content, blocks);
    } else {
      var draw := Ran(2);
      var nl := Ran(2 * |f.content|);
      mutated := DummyMutator.Do(f.content, draw, nl);
    }
  }

  // ---- rescanning a mutated file ----

  /** The replacements of an ASCII text that are ASCII text again: those that leave,
      shorten, lengthen or remove it. */
  ghost predicate KeepsAscii(b: seq<byte>, t: Text, s: seq<byte>)
    requires t.End() <= |b|
  {
    var text := b[t.pos..t.End()];
    s <= text || (text <= s && IsContinuation(Ascii, text, s[|text|..]))
  }

  /** The string is replaced, and no length field has been written yet: the ASCII digester
      then finds the old texts, the replaced one with its new length or, when that is below
      the limit, not at all, and the later ones moved by the change of length. Invalid
      bytes make it disappear. */
  lemma SpliceRescanned(b: seq<byte>, lim: nat, texts: seq<Text>, t: Text, s: seq<byte>,
                        before: seq<Text>, j: nat, after: seq<Text>)
    requires 0 < lim && Strs.FileTexts(b, lim, texts) && t in texts && t.enc.Ascii? && t.End() <= |b|
    requires AsciiReport(b, lim, before) && j < |before| && before[j] == t
    requires AsciiReport(Spliced(b, t, s), lim, after)
    requires KeepsAscii(b, t, s) || (|s| == t.len && forall k :: 0 <= k < |s| ==> IsInvalidFor(Ascii, s[k]))
    ensures forall u :: u in before[j + 1..] ==> 0 <= u.pos + (|s| - t.len)
    ensures KeepsAscii(b, t, s) ==>
              after == Rescanned(before, j, if lim <= |s| then [t.(len := |s|)] else [], |s| - t.len)
    ensures !KeepsAscii(b, t, s) ==> after == before[..j] + before[j + 1..]
  {
    assert IsAscii(b, lim, t);
    AllAsciiText(b, lim, t);
    if KeepsAscii(b, t, s) {
      KeptBytesAreAscii(b, t, s);
    } else {
      assert forall c :: c in s ==> !IsAsciiText(c);
    }
    RescanAfterSplice(b, lim, before, j, s, after);
    if !KeepsAscii(b, t, s) {
      assert MovedAll(before[j + 1..], 0) == before[j + 1..];
    }
  }

  lemma KeptBytesAreAscii(b: seq<byte>, t: Text, s: seq<byte>)
    requires t.End() <= |b| && KeepsAscii(b, t, s)
    requires forall c :: c in b[t.pos..t.End()] ==> IsAsciiText(c)
    ensures forall c :: c in s ==> IsAsciiText(c)
  {
    var text := b[t.pos..t.End()];
    forall k | 0 <= k < |s| ensures IsAsciiText(s[k]) {
      if k < |text| {
        assert s[k] == text[k];
      } else {
        assert s[k] == s[|text|..][k - |text|];
      }
    }
  }

  /** An "ascii" text of the merged list is in the ASCII digester's list. */
  lemma AsciiTextIsReported(b: seq<byte>, lim: nat, texts: seq<Text>, t: Text, before: seq<Text>)
    requires Strs.FileTexts(b, lim, texts) && t in texts && t.enc.Ascii?
    requires AsciiReport(b, lim, before)
    ensures t in before
  {
    Strs.FileTextIsRelabelled(b, lim, t);
    var acc, aacc := Utf8Accepted(b), AsciiAccepted(b);
    assert t.pos > 0 ==> acc[t.pos - 1] == Accepts(b, t.pos - 1);
    assert t.End() < |b| ==> acc[t.End()] == Accepts(b, t.End());
    assert IsRun(aacc, t.pos, t.len);
    assert IsText(b, aacc, Ascii, lim, t);
  }

  /** The same replacement as the merged list shows it: the string has its new length or is
      gone, the strings behind it have moved, and all others, UTF-8 ones too, are as before. */
  lemma SpliceMerged(b: seq<byte>, lim: nat, texts: seq<Text>, j: nat, s: seq<byte>, after: seq<Text>)
    requires 0 < lim && Strs.FileTexts(b, lim, texts) && j < |texts| && texts[j].enc.Ascii? && texts[j].End() <= |b|
    requires KeepsAscii(b, texts[j], s) && Strs.FileTexts(Spliced(b, texts[j], s), lim, after)
    ensures forall u :: u in texts[j + 1..] ==> 0 <= u.pos + (|s| - texts[j].len)
    ensures after == Rescanned(texts, j, if lim <= |s| then [texts[j].(len := |s|)] else [], |s| - texts[j].len)
  {
    var t := texts[j];
    assert t in texts;
    forall c | c in b[t.pos..t.End()] ensures IsAsciiText(c) {
      var k :| 0 <= k < t.len && b[t.pos..t.End()][k] == c;
      assert b[t.pos + k] == c;
    }
    KeptBytesAreAscii(b, t, s);
    MergedAfterSplice(b, lim, texts, j, s, after);
  }
}
