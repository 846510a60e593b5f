/** The fan-out/fan-in protocol of `CorrelateIntStrings` and `CorrelateGroupStrings`: the
    main goroutine feeds a bounded channel, workers turn inputs into blocks, collectors add
    the blocks to the shared list, and `done` tokens announce the goroutines that end. A
    state machine over single channel operations, in any interleaving. */
module FanOut {
  import opened Records
  import opened Collections

  /** A worker or a collector: at its receive, holding a block it has to pass on, at its
      deferred send on `done`, or gone. */
  datatype Proc<B> = Ready | Holding(b: B) | Finishing | Gone

  /** Who put a token into `done`. The source sends plain booleans. */
  datatype Who = Worker(i: nat) | Collector(j: nat)

  datatype Main = Feeding | AwaitWorkers | Spinning | Closing | AwaitCollectors | Returned

  /** One call: `emit` is what a worker makes of an input, `before` the blocks already in
      the list. The number of workers may come out negative; then there are none. */
  datatype Config<!I, !B> = Config(cpus: int, sams: nat, capC: nat, capB: nat,
                                   inputs: seq<I>, emit: I -> Option<B>, before: seq<B>)
  {
    function Workers(): nat {
      if cpus < 0 then 0 else cpus
    }

    function CapDone(): int {
      cpus + sams
    }

    ghost predicate Valid() {
      0 < sams && 0 < capC && 0 < capB && 0 <= CapDone()
    }
  }

  /** `got` lists the tokens that main has received so far. */
  datatype State<I, B> = State(main: Main, todo: seq<I>, c: seq<I>, cClosed: bool, bc: seq<B>, bcClosed: bool,
                               done: seq<Who>, got: seq<Who>, workers: seq<Proc<B>>, collectors: seq<Proc<B>>,
                               blocks: seq<B>, panicked: bool)
  {
    predicate Has(w: Who) {
      match w
      case Worker(i) => i < |workers|
      case Collector(j) => j < |collectors|
    }

    function At(w: Who): Proc<B>
      requires Has(w)
    {
      match w
      case Worker(i) => workers[i]
      case Collector(j) => collectors[j]
    }

    function With(w: Who, p: Proc<B>): State<I, B>
      requires Has(w)
    {
      match w
      case Worker(i) => this.(workers := workers[i := p])
      case Collector(j) => this.(collectors := collectors[j := p])
    }
  }

  /** One channel operation, or one step of main's control flow. */
  datatype Action =
    | Feed | CloseC | TakeDone | WorkersIn | Spin | SeeEmpty | CloseB | Return
    | Receive(i: nat) | SendBlock(i: nat) | WorkerEnds(i: nat)
    | Collect(j: nat) | AddBlock(j: nat) | CollectorEnds(j: nat)
    | SendDone(w: Who) | HandOver(w: Who)

  function Start<I, B>(cfg: Config<I, B>): State<I, B> {
    State(Feeding, cfg.inputs, [], false, [], false, [], [],
          seq(cfg.Workers(), _ => Ready), seq(cfg.sams, _ => Ready), cfg.before, false)
  }

  ghost predicate Init<I, B>(cfg: Config<I, B>, s: State<I, B>) {
    s == Start(cfg)
  }

  /** Main is at one of its receives on `done`. */
  predicate AwaitsDone<I, B>(cfg: Config<I, B>, s: State<I, B>) {
    || (s.main.AwaitWorkers? && |s.got| < cfg.Workers())
    || (s.main.AwaitCollectors? && |s.got| < cfg.Workers() + cfg.sams)
  }

  /** The action can be taken: a send needs room or a closed channel (on which it panics),
      a receive needs an element, or a closed channel to learn of its end. A send on `done`
      may also meet main's receive directly. */
  predicate Enabled<I, B>(cfg: Config<I, B>, s: State<I, B>, a: Action) {
    match a
    case Feed => s.main.Feeding? && s.todo != [] && (s.cClosed || |s.c| < cfg.capC)
    case CloseC => s.main.Feeding? && s.todo == []
    case TakeDone => AwaitsDone(cfg, s) && s.done != []
    case WorkersIn => s.main.AwaitWorkers? && |s.got| >= cfg.Workers()
    case Spin => s.main.Spinning? && s.bc != []
    case SeeEmpty => s.main.Spinning? && s.bc == []
    case CloseB => s.main.Closing?
    case Return => s.main.AwaitCollectors? && |s.got| >= cfg.Workers() + cfg.sams
    case Receive(i) => i < |s.workers| && s.workers[i].Ready? && s.c != []
    case SendBlock(i) => i < |s.workers| && s.workers[i].Holding? && (s.bcClosed || |s.bc| < cfg.capB)
    case WorkerEnds(i) => i < |s.workers| && s.workers[i].Ready? && s.c == [] && s.cClosed
    case Collect(j) => j < |s.collectors| && s.collectors[j].Ready? && s.bc != []
    case AddBlock(j) => j < |s.collectors| && s.collectors[j].Holding?
    case CollectorEnds(j) => j < |s.collectors| && s.collectors[j].Ready? && s.bc == [] && s.bcClosed
    case SendDone(w) => s.Has(w) && s.At(w).Finishing? && |s.done| < cfg.CapDone()
    case HandOver(w) => s.Has(w) && s.At(w).Finishing? && s.done == [] && AwaitsDone(cfg, s)
  }

  function Next<I, B>(cfg: Config<I, B>, s: State<I, B>, a: Action): State<I, B>
    requires Enabled(cfg, s, a)
  {
    match a
    case Feed =>
      if s.cClosed then s.(panicked := true) else s.(todo := s.todo[1..], c := s.c + [s.todo[0]])
    case CloseC => s.(cClosed := true, main := AwaitWorkers, panicked := s.panicked || s.cClosed)
    case TakeDone => s.(got := s.got + [s.done[0]], done := s.done[1..])
    case WorkersIn => s.(main := Spinning)
    case Spin => s
    case SeeEmpty => s.(main := Closing)
    case CloseB => s.(bcClosed := true, main := AwaitCollectors, panicked := s.panicked || s.bcClosed)
    case Return => s.(main := Returned)
    case Receive(i) =>
      var b := cfg.emit(s.c[0]);
      s.(c := s.c[1..], workers := s.workers[i := if b.Some? then Holding(b.value) else Ready])
    case SendBlock(i) =>
      if s.bcClosed then s.(panicked := true)
      else s.(bc := s.bc + [s.workers[i].b], workers := s.workers[i := Ready])
    case WorkerEnds(i) => s.(workers := s.workers[i := Finishing])
    case Collect(j) => s.(bc := s.bc[1..], collectors := s.collectors[j := Holding(s.bc[0])])
    case AddBlock(j) => s.(blocks := s.blocks + [s.collectors[j].b], collectors := s.collectors[j := Ready])
    case CollectorEnds(j) => s.(collectors := s.collectors[j := Finishing])
    case SendDone(w) => s.With(w, Gone).(done := s.done + [w])
    case HandOver(w) => s.With(w, Gone).(got := s.got + [w])
  }

  /** A finite run: a start and steps that are all enabled. */
  ghost predicate IsExecution<I, B>(cfg: Config<I, B>, run: seq<State<I, B>>) {
    && run != []
    && Init(cfg, run[0])
    && (forall k :: 0 <= k < |run| - 1 ==> Steps(cfg, run[k], run[k + 1]))
  }

  ghost predicate Steps<I, B>(cfg: Config<I, B>, s: State<I, B>, s': State<I, B>) {
    exists a :: Enabled(cfg, s, a) && s' == Next(cfg, s, a)
  }

  // ---- conservation of blocks, counted one block value at a time ----

  ghost function HeldBy<B>(p: Proc<B>, b: B): nat {
    if p == Holding(b) then 1 else 0
  }

  ghost function Held<B>(ps: seq<Proc<B>>, b: B): nat {
    if ps == [] then 0
    else Held(ps[..|ps| - 1], b) + HeldBy(ps[|ps| - 1], b)
  }

  lemma {:induction false} HeldUpdate<B>(ps: seq<Proc<B>>, i: nat, p: Proc<B>, b: B)
    requires i < |ps|
    ensures Held(ps[i := p], b) + HeldBy(ps[i], b) == Held(ps, b) + HeldBy(p, b)
  {
    var n := |ps| - 1;
    if i < n {
      assert ps[i := p][..n] == ps[..n][i := p];
      HeldUpdate(ps[..n], i, p, b);
    } else {
      assert ps[i := p][..n] == ps[..n];
    }
  }

  lemma {:induction false} HeldNone<B>(ps: seq<Proc<B>>, b: B)
    requires forall i :: 0 <= i < |ps| ==> !ps[i].Holding?
    ensures Held(ps, b) == 0
  {
    if ps != [] {
      HeldNone(ps[..|ps| - 1], b);
    }
  }

  /** How often the inputs `xs` make the block `b`. */
  ghost function Emits<I, B>(emit: I -> Option<B>, xs: seq<I>, b: B): nat {
    if xs == [] then 0
    else EmitOf(emit, xs[0], b) + Emits(emit, xs[1..], b)
  }

  ghost function EmitOf<I, B>(emit: I -> Option<B>, x: I, b: B): nat {
    if emit(x) == Some(b) then 1 else 0
  }

  lemma {:induction false} EmitsAppend<I, B>(emit: I -> Option<B>, xs: seq<I>, x: I, b: B)
    ensures Emits(emit, xs + [x], b) == Emits(emit, xs, b) + EmitOf(emit, x, b)
  {
    if xs == [] {
      assert xs + [x] == [x];
    } else {
      assert (xs + [x])[1..] == xs[1..] + [x];
      EmitsAppend(emit, xs[1..], x, b);
    }
  }

  ghost function Occurs<B>(s: seq<B>, b: B): nat {
    multiset(s)[b]
  }

  lemma OccursAppend<B>(s: seq<B>, x: B, b: B)
    ensures Occurs(s + [x], b) == Occurs(s, b) + if x == b then 1 else 0
  {
  }

  lemma OccursHead<B>(s: seq<B>, b: B)
    requires s != []
    ensures Occurs(s, b) == Occurs(s[1..], b) + if s[0] == b then 1 else 0
  {
    assert s == [s[0]] + s[1..];
  }

  /** How often `b` is in the list, on its way, or still to be made. */
  ghost function Pool<I, B>(cfg: Config<I, B>, s: State<I, B>, b: B): nat {
    Occurs(s.blocks, b) + Held(s.collectors, b) + Occurs(s.bc, b) + Held(s.workers, b)
    + Emits(cfg.emit, s.c, b) + Emits(cfg.emit, s.todo, b)
  }

  predicate IsWorkers(a: Action) {
    a.Receive? || a.SendBlock? || a.WorkerEnds?
  }

  predicate IsCollectors(a: Action) {
    a.Collect? || a.AddBlock? || a.CollectorEnds?
  }

  predicate IsToken(a: Action) {
    a.SendDone? || a.HandOver?
  }

  lemma WorkersKeepPool<I, B>(cfg: Config<I, B>, s: State<I, B>, a: Action, b: B)
    requires Enabled(cfg, s, a) && IsWorkers(a)
    ensures Pool(cfg, Next(cfg, s, a), b) == Pool(cfg, s, b)
  {
    HeldUpdate(s.workers, a.i, Next(cfg, s, a).workers[a.i], b);
    if a.SendBlock? && !s.bcClosed {
      OccursAppend(s.bc, s.workers[a.i].b, b);
    }
  }

  lemma CollectorsKeepPool<I, B>(cfg: Config<I, B>, s: State<I, B>, a: Action, b: B)
    requires Enabled(cfg, s, a) && IsCollectors(a)
    ensures Pool(cfg, Next(cfg, s, a), b) == Pool(cfg, s, b)
  {
    HeldUpdate(s.collectors, a.j, Next(cfg, s, a).collectors[a.j], b);
    if a.Collect? {
      OccursHead(s.bc, b);
    } else if a.AddBlock? {
      OccursAppend(s.blocks, s.collectors[a.j].b, b);
    }
  }

  lemma PoolKept<I, B>(cfg: Config<I, B>, s: State<I, B>, a: Action, b: B)
    requires Enabled(cfg, s, a)
    ensures Pool(cfg, Next(cfg, s, a), b) == Pool(cfg, s, b)
  {
    if IsWorkers(a) {
      WorkersKeepPool(cfg, s, a, b);
    } else if IsCollectors(a) {
      CollectorsKeepPool(cfg, s, a, b);
    } else if IsToken(a) {
      GoneHoldsNothing(s, a.w, b);
    } else if a.Feed? && !s.cClosed {
      EmitsAppend(cfg.emit, s.c, s.todo[0], b);
    }
  }

  lemma GoneHoldsNothing<I, B>(s: State<I, B>, w: Who, b: B)
    requires s.Has(w) && s.At(w).Finishing?
    ensures Held(s.With(w, Gone).workers, b) == Held(s.workers, b)
    ensures Held(s.With(w, Gone).collectors, b) == Held(s.collectors, b)
  {
    match w {
      case Worker(i) => HeldUpdate(s.workers, i, Gone, b);
      case Collector(j) => HeldUpdate(s.collectors, j, Gone, b);
    }
  }

  // ---- the invariant ----

  predicate Ended<B>(p: Proc<B>) {
    p.Finishing? || p.Gone?
  }

  /** How far main is, and what that says about the channels and the goroutines. */
  ghost predicate Phases<I, B>(cfg: Config<I, B>, s: State<I, B>) {
    && |s.workers| == cfg.Workers() && |s.collectors| == cfg.sams
    && |s.c| <= cfg.capC && |s.bc| <= cfg.capB
    && !s.panicked
    && (s.cClosed <==> !s.main.Feeding?)
    && (s.bcClosed <==> s.main.AwaitCollectors? || s.main.Returned?)
    && (s.cClosed ==> s.todo == [])
    && (s.bcClosed || s.main.Closing? ==> s.bc == [])
    && (forall i :: 0 <= i < |s.workers| && Ended(s.workers[i]) ==> s.cClosed && s.c == [])
    && (forall j :: 0 <= j < |s.collectors| && Ended(s.collectors[j]) ==> s.bcClosed)
    && (s.main.Spinning? || s.main.Closing? || s.bcClosed ==>
          forall i :: 0 <= i < |s.workers| ==> s.workers[i].Gone?)
    && (s.main.Returned? ==> forall j :: 0 <= j < |s.collectors| ==> s.collectors[j].Gone?)
  }

  /** Main's count of tokens; the first ones, one for each worker, are the workers' own. */
  ghost predicate Counted<I, B>(cfg: Config<I, B>, s: State<I, B>) {
    && (s.main.Feeding? ==> |s.got| == 0)
    && (s.main.AwaitWorkers? ==> |s.got| <= cfg.Workers())
    && (s.main.Spinning? || s.main.Closing? ==> |s.got| == cfg.Workers())
    && (s.main.AwaitCollectors? ==> cfg.Workers() <= |s.got| <= cfg.Workers() + cfg.sams)
    && (s.main.Returned? ==> |s.got| == cfg.Workers() + cfg.sams)
    && (forall k :: 0 <= k < |s.got| && k < cfg.Workers() ==> s.got[k].Worker?)
  }

  /** Every goroutine that is gone has put exactly one token, and no other has. */
  ghost predicate Tokens<I, B>(s: State<I, B>) {
    && (forall m, n :: 0 <= m < n < |s.got + s.done| ==> (s.got + s.done)[m] != (s.got + s.done)[n])
    && (forall w :: w in s.got + s.done <==> s.Has(w) && s.At(w).Gone?)
  }

  /** Inputs are neither invented nor, without workers, consumed. */
  ghost predicate Inputs<I, B>(cfg: Config<I, B>, s: State<I, B>) {
    && |s.c| + |s.todo| <= |cfg.inputs|
    && (cfg.Workers() == 0 ==> s.c + s.todo == cfg.inputs)
  }

  ghost predicate Inv<I, B>(cfg: Config<I, B>, s: State<I, B>) {
    Phases(cfg, s) && Counted(cfg, s) && Tokens(s) && Inputs(cfg, s)
  }

  // ---- counting tokens ----

  ghost function AllWorkers(n: nat): (all: set<Who>)
    ensures |all| == n && forall w :: w in all <==> w.Worker? && w.i < n
  {
    if n == 0 then {} else AllWorkers(n - 1) + {Worker(n - 1)}
  }

  ghost function AllCollectors(n: nat): (all: set<Who>)
    ensures |all| == n && forall w :: w in all <==> w.Collector? && w.j < n
  {
    if n == 0 then {} else AllCollectors(n - 1) + {Collector(n - 1)}
  }

  ghost function Everyone(workers: nat, collectors: nat): (all: set<Who>)
    ensures |all| == workers + collectors
    ensures forall w :: w in all <==> match w case Worker(i) => i < workers case Collector(j) => j < collectors
  {
    AllWorkers(workers) + AllCollectors(collectors)
  }

  lemma {:induction false} DistinctSize(ws: seq<Who>)
    requires forall m, n :: 0 <= m < n < |ws| ==> ws[m] != ws[n]
    ensures |set w | w in ws| == |ws|
  {
    if ws != [] {
      var n := |ws| - 1;
      DistinctSize(ws[..n]);
      assert (set w | w in ws) == (set w | w in ws[..n]) + {ws[n]};
    }
  }

  /** As many tokens as goroutines, all of different goroutines: each has put one. */
  lemma AllHaveToken(ws: seq<Who>, workers: nat, collectors: nat)
    requires forall m, n :: 0 <= m < n < |ws| ==> ws[m] != ws[n]
    requires forall w :: w in ws ==> w in Everyone(workers, collectors)
    ensures |ws| <= workers + collectors
    ensures |ws| == workers + collectors ==> forall w :: w in Everyone(workers, collectors) ==> w in ws
  {
    var all, some := Everyone(workers, collectors), set w | w in ws;
    DistinctSize(ws);
    assert some <= all;
    SubsetSize(some, all);
  }

  /** Nobody misses: fewer tokens than goroutines means that one is not gone. */
  lemma SomeoneLeft(ws: seq<Who>, workers: nat, collectors: nat) returns (w: Who)
    requires |ws| < workers + collectors
    ensures w in Everyone(workers, collectors) && w !in ws
  {
    var all, some := Everyone(workers, collectors), set w | w in ws;
    SeqSetSize(ws);
    SubsetSize(all, some);
    w :| w in all && w !in some;
  }

  lemma {:induction false} SeqSetSize(ws: seq<Who>)
    ensures |set w | w in ws| <= |ws|
  {
    if ws != [] {
      var n := |ws| - 1;
      SeqSetSize(ws[..n]);
      assert (set w | w in ws) == (set w | w in ws[..n]) + {ws[n]};
    }
  }

  // ---- every step keeps the invariant ----

  lemma InitInv<I, B>(cfg: Config<I, B>, s: State<I, B>)
    requires cfg.Valid() && Init(cfg, s)
    ensures Inv(cfg, s)
  {
    forall w ensures w in s.got + s.done <==> s.Has(w) && s.At(w).Gone? {
    }
  }

  /** When main has as many tokens as there are workers, they are all gone. */
  lemma WorkersGone<I, B>(cfg: Config<I, B>, s: State<I, B>)
    requires Inv(cfg, s) && s.main.AwaitWorkers? && |s.got| == cfg.Workers()
    ensures forall i :: 0 <= i < |s.workers| ==> s.workers[i].Gone?
  {
    var ws := s.got + s.done;
    forall w | w in s.got ensures w in Everyone(cfg.Workers(), 0) {
      assert w in ws;
    }
    assert forall k :: 0 <= k < |s.got| ==> s.got[k] == ws[k];
    AllHaveToken(s.got, cfg.Workers(), 0);
    forall i | 0 <= i < |s.workers| ensures s.workers[i].Gone? {
      assert Worker(i) in Everyone(cfg.Workers(), 0);
      assert Worker(i) in ws;
    }
  }

  /** When main has all tokens, the collectors are gone too. */
  lemma CollectorsGone<I, B>(cfg: Config<I, B>, s: State<I, B>)
    requires Inv(cfg, s) && s.main.AwaitCollectors? && |s.got| == cfg.Workers() + cfg.sams
    ensures forall j :: 0 <= j < |s.collectors| ==> s.collectors[j].Gone?
  {
    var ws := s.got + s.done;
    forall w | w in s.got ensures w in Everyone(cfg.Workers(), cfg.sams) {
      assert w in ws;
    }
    assert forall k :: 0 <= k < |s.got| ==> s.got[k] == ws[k];
    AllHaveToken(s.got, cfg.Workers(), cfg.sams);
    forall j | 0 <= j < |s.collectors| ensures s.collectors[j].Gone? {
      assert Collector(j) in Everyone(cfg.Workers(), cfg.sams);
      assert Collector(j) in ws;
    }
  }

  lemma MainKeepsPhases<I, B>(cfg: Config<I, B>, s: State<I, B>, a: Action)
    requires Inv(cfg, s) && Enabled(cfg, s, a) && !IsWorkers(a) && !IsCollectors(a) && !IsToken(a)
    ensures Phases(cfg, Next(cfg, s, a))
  {
    if a.WorkersIn? {
      WorkersGone(cfg, s);
    } else if a.Return? {
      CollectorsGone(cfg, s);
    }
  }

  lemma WorkersKeepPhases<I, B>(cfg: Config<I, B>, s: State<I, B>, a: Action)
    requires Inv(cfg, s) && Enabled(cfg, s, a) && IsWorkers(a)
    ensures Phases(cfg, Next(cfg, s, a))
  {
  }

  lemma CollectorsKeepPhases<I, B>(cfg: Config<I, B>, s: State<I, B>, a: Action)
    requires Inv(cfg, s) && Enabled(cfg, s, a) && IsCollectors(a)
    ensures Phases(cfg, Next(cfg, s, a))
  {
  }

  lemma TokensKeepPhases<I, B>(cfg: Config<I, B>, s: State<I, B>, a: Action)
    requires Inv(cfg, s) && Enabled(cfg, s, a) && IsToken(a)
    ensures Phases(cfg, Next(cfg, s, a))
  {
  }

  lemma PhasesKept<I, B>(cfg: Config<I, B>, s: State<I, B>, a: Action)
    requires Inv(cfg, s) && Enabled(cfg, s, a)
    ensures Phases(cfg, Next(cfg, s, a))
  {
    if IsWorkers(a) {
      WorkersKeepPhases(cfg, s, a);
    } else if IsCollectors(a) {
      CollectorsKeepPhases(cfg, s, a);
    } else if IsToken(a) {
      TokensKeepPhases(cfg, s, a);
    } else {
      MainKeepsPhases(cfg, s, a);
    }
  }

  /** While collectors still run, a waiting token is a worker's. */
  lemma WaitingTokenIsWorkers<I, B>(cfg: Config<I, B>, s: State<I, B>)
    requires Inv(cfg, s) && s.done != [] && !s.bcClosed
    ensures s.done[0].Worker?
  {
    assert s.done[0] in s.got + s.done;
  }

  lemma CountedKept<I, B>(cfg: Config<I, B>, s: State<I, B>, a: Action)
    requires Inv(cfg, s) && Enabled(cfg, s, a)
    ensures Counted(cfg, Next(cfg, s, a))
  {
    match a {
      case TakeDone =>
        if !s.bcClosed {
          WaitingTokenIsWorkers(cfg, s);
        }
      case _ =>
    }
  }

  /** Who is gone has not changed, nor have the tokens. */
  lemma SameTokens<I, B>(s: State<I, B>, s': State<I, B>)
    requires Tokens(s) && s'.got + s'.done == s.got + s.done
    requires |s'.workers| == |s.workers| && |s'.collectors| == |s.collectors|
    requires forall i :: 0 <= i < |s.workers| ==> (s'.workers[i].Gone? <==> s.workers[i].Gone?)
    requires forall j :: 0 <= j < |s.collectors| ==> (s'.collectors[j].Gone? <==> s.collectors[j].Gone?)
    ensures Tokens(s')
  {
    forall w ensures w in s'.got + s'.done <==> s'.Has(w) && s'.At(w).Gone? {
      assert w in s.got + s.done <==> s.Has(w) && s.At(w).Gone?;
    }
  }

  lemma TokensKept<I, B>(cfg: Config<I, B>, s: State<I, B>, a: Action)
    requires Inv(cfg, s) && Enabled(cfg, s, a)
    ensures Tokens(Next(cfg, s, a))
  {
    var s' := Next(cfg, s, a);
    if IsToken(a) {
      TokenAdded(cfg, s, s', a.w);
    } else {
      SameTokens(s, s');
    }
  }

  lemma TokenAdded<I, B>(cfg: Config<I, B>, s: State<I, B>, s': State<I, B>, w: Who)
    requires Inv(cfg, s) && s.Has(w) && s.At(w).Finishing?
    requires s'.workers == s.With(w, Gone).workers && s'.collectors == s.With(w, Gone).collectors
    requires s'.got + s'.done == s.got + s.done + [w]
    ensures Tokens(s')
  {
    assert w !in s.got + s.done;
    forall v ensures v in s'.got + s'.done <==> s'.Has(v) && s'.At(v).Gone? {
      assert v in s.got + s.done <==> s.Has(v) && s.At(v).Gone?;
    }
  }

  lemma InputsKept<I, B>(cfg: Config<I, B>, s: State<I, B>, a: Action)
    requires Inv(cfg, s) && Enabled(cfg, s, a)
    ensures Inputs(cfg, Next(cfg, s, a))
  {
    if a.Feed? {
      assert s.c + s.todo == (s.c + [s.todo[0]]) + s.todo[1..];
    }
  }

  lemma InvKept<I, B>(cfg: Config<I, B>, s: State<I, B>, a: Action)
    requires Inv(cfg, s) && Enabled(cfg, s, a)
    ensures Inv(cfg, Next(cfg, s, a))
  {
    PhasesKept(cfg, s, a);
    CountedKept(cfg, s, a);
    TokensKept(cfg, s, a);
    InputsKept(cfg, s, a);
  }

  // ---- runs ----

  /** What the sequential loop over the inputs would add. */
  function Produced<I, B>(emit: I -> Option<B>, xs: seq<I>): seq<B> {
    if xs == [] then []
    else
      var e := emit(xs[0]);
      (if e.Some? then [e.value] else []) + Produced(emit, xs[1..])
  }

  /** What that is: nothing for no input, the blocks of two parts one after the other, and of
      one input the block that it makes, if any. */
  lemma {:induction false} ProducedParts<I, B>(emit: I -> Option<B>, xs: seq<I>, ys: seq<I>)
    ensures Produced(emit, xs + ys) == Produced(emit, xs) + Produced(emit, ys)
    ensures |xs| == 1 ==> Produced(emit, xs) == match emit(xs[0]) case Some(b) => [b] case None => []
  {
    if xs == [] {
      assert xs + ys == ys;
    } else {
      assert (xs + ys)[0] == xs[0] && (xs + ys)[1..] == xs[1..] + ys;
      ProducedParts(emit, xs[1..], ys);
    }
  }

  lemma {:induction false} EmitsProduced<I, B>(emit: I -> Option<B>, xs: seq<I>, b: B)
    ensures Emits(emit, xs, b) == Occurs(Produced(emit, xs), b)
  {
    if xs != [] {
      EmitsProduced(emit, xs[1..], b);
    }
  }

  /** Safety of every run: the invariant holds throughout, so nobody ever sends on a closed
      channel or closes one twice, and no block is lost or duplicated on the way. */
  lemma {:induction false} RunSafe<I, B>(cfg: Config<I, B>, run: seq<State<I, B>>, k: nat)
    requires cfg.Valid() && IsExecution(cfg, run) && k < |run|
    ensures Inv(cfg, run[k])
    ensures forall b :: Pool(cfg, run[k], b) == Occurs(cfg.before, b) + Emits(cfg.emit, cfg.inputs, b)
  {
    if k == 0 {
      InitInv(cfg, run[0]);
      forall b ensures Pool(cfg, run[0], b) == Occurs(cfg.before, b) + Emits(cfg.emit, cfg.inputs, b) {
        HeldNone(run[0].workers, b);
        HeldNone(run[0].collectors, b);
      }
    } else {
      RunSafe(cfg, run, k - 1);
      assert Steps(cfg, run[k - 1], run[k - 1 + 1]);
      var a :| Enabled(cfg, run[k - 1], a) && run[k] == Next(cfg, run[k - 1], a);
      InvKept(cfg, run[k - 1], a);
      forall b ensures Pool(cfg, run[k], b) == Occurs(cfg.before, b) + Emits(cfg.emit, cfg.inputs, b) {
        PoolKept(cfg, run[k - 1], a, b);
      }
    }
  }

  /** In every state of every run, nobody has panicked and the first tokens that main has
      received, one for each worker, are the workers' own. */
  lemma NoPanic<I, B>(cfg: Config<I, B>, run: seq<State<I, B>>, k: nat)
    requires cfg.Valid() && IsExecution(cfg, run) && k < |run|
    ensures !run[k].panicked
    ensures forall n :: 0 <= n < |run[k].got| && n < cfg.Workers() ==> run[k].got[n].Worker?
  {
    RunSafe(cfg, run, k);
  }

  /** What is left in the pool when main has returned. */
  lemma ReturnedPool<I, B>(cfg: Config<I, B>, s: State<I, B>, b: B)
    requires Inv(cfg, s) && s.main.Returned?
    ensures Pool(cfg, s, b) == Occurs(s.blocks, b) + Emits(cfg.emit, s.c, b)
    ensures 0 < cfg.Workers() ==> s.c == []
  {
    HeldNone(s.workers, b);
    HeldNone(s.collectors, b);
    if 0 < cfg.Workers() {
      assert Ended(s.workers[0]);
    }
  }

  /** Exactly-once delivery: when main returns, the list holds exactly the earlier blocks
      and those of the sequential loop, if there was a worker. Without workers it holds the
      earlier blocks only, and main returns only if the channel could hold all inputs. */
  lemma Delivered<I, B>(cfg: Config<I, B>, run: seq<State<I, B>>)
    requires cfg.Valid() && IsExecution(cfg, run) && run[|run| - 1].main.Returned?
    ensures var blocks := run[|run| - 1].blocks;
            if 0 < cfg.Workers() then multiset(blocks) == multiset(cfg.before + Produced(cfg.emit, cfg.inputs))
            else multiset(blocks) == multiset(cfg.before) && |cfg.inputs| <= cfg.capC
  {
    var s := run[|run| - 1];
    RunSafe(cfg, run, |run| - 1);
    var want := if 0 < cfg.Workers() then cfg.before + Produced(cfg.emit, cfg.inputs) else cfg.before;
    forall b ensures Occurs(s.blocks, b) == Occurs(want, b) {
      ReturnedPool(cfg, s, b);
      EmitsProduced(cfg.emit, cfg.inputs, b);
      assert Pool(cfg, s, b) == Occurs(cfg.before, b) + Emits(cfg.emit, cfg.inputs, b);
      if 0 < cfg.Workers() {
        assert Emits(cfg.emit, s.c, b) == 0;
      } else {
        assert s.c + [] == s.c;
      }
    }
    SameOccurs(s.blocks, want);
    if cfg.Workers() == 0 {
      assert s.c + [] == cfg.inputs;
    }
  }

  lemma SameOccurs<B>(xs: seq<B>, ys: seq<B>)
    requires forall b :: Occurs(xs, b) == Occurs(ys, b)
    ensures multiset(xs) == multiset(ys)
  {
    forall b ensures multiset(xs)[b] == multiset(ys)[b] {
      assert Occurs(xs, b) == Occurs(ys, b);
    }
  }

  /** So everything is delivered if and only if there is a worker or nothing to deliver. */
  lemma DeliveredIff<I, B>(cfg: Config<I, B>, run: seq<State<I, B>>)
    requires cfg.Valid() && IsExecution(cfg, run) && run[|run| - 1].main.Returned?
    ensures multiset(run[|run| - 1].blocks) == multiset(cfg.before + Produced(cfg.emit, cfg.inputs))
            <==> 0 < cfg.cpus || Produced(cfg.emit, cfg.inputs) == []
  {
    Delivered(cfg, run);
    var more := Produced(cfg.emit, cfg.inputs);
    assert |multiset(cfg.before + more)| == |cfg.before| + |more|;
    if more == [] {
      assert cfg.before + more == cfg.before;
    }
  }

  // ---- progress ----

  /** A collector can act whenever there is a block in the channel. */
  lemma CollectorActs<I, B>(cfg: Config<I, B>, s: State<I, B>) returns (a: Action)
    requires cfg.Valid() && Inv(cfg, s) && s.bc != []
    ensures Enabled(cfg, s, a) && !a.Spin?
  {
    assert !Ended(s.collectors[0]);
    a := if s.collectors[0].Ready? then Collect(0) else AddBlock(0);
  }

  /** A worker that has not ended can act, or a collector can make room for it. */
  lemma WorkerActs<I, B>(cfg: Config<I, B>, s: State<I, B>, i: nat) returns (a: Action)
    requires cfg.Valid() && Inv(cfg, s) && i < |s.workers| && !Ended(s.workers[i])
    requires s.c != [] || s.cClosed
    ensures Enabled(cfg, s, a) && !a.Spin?
  {
    if s.workers[i].Holding? {
      if |s.bc| < cfg.capB {
        a := SendBlock(i);
      } else {
        a := CollectorActs(cfg, s);
      }
    } else if s.c != [] {
      a := Receive(i);
    } else {
      a := WorkerEnds(i);
    }
  }

  /** Main waits for a worker's token: some worker, or a collector, can act. */
  lemma WorkersProgress<I, B>(cfg: Config<I, B>, s: State<I, B>) returns (a: Action)
    requires cfg.Valid() && Inv(cfg, s) && s.main.AwaitWorkers? && |s.got| < cfg.Workers()
    ensures Enabled(cfg, s, a) && !a.Spin?
  {
    if s.done != [] {
      a := TakeDone;
    } else {
      var w := SomeoneLeft(s.got, cfg.Workers(), 0);
      assert s.got + s.done == s.got;
      if Ended(s.At(w)) {
        a := HandOver(w);
      } else {
        a := WorkerActs(cfg, s, w.i);
      }
    }
  }

  lemma CollectorsProgress<I, B>(cfg: Config<I, B>, s: State<I, B>) returns (a: Action)
    requires cfg.Valid() && Inv(cfg, s) && s.main.AwaitCollectors? && |s.got| < cfg.Workers() + cfg.sams
    ensures Enabled(cfg, s, a) && !a.Spin?
  {
    if s.done != [] {
      a := TakeDone;
    } else {
      var w := SomeoneLeft(s.got, cfg.Workers(), cfg.sams);
      assert s.got + s.done == s.got;
      if Ended(s.At(w)) {
        a := HandOver(w);
      } else {
        a := if s.At(w).Ready? then CollectorEnds(w.j) else AddBlock(w.j);
      }
    }
  }

  /** Somebody drains the channel of inputs, or it can hold them all. */
  ghost predicate CanFinish<I, B>(cfg: Config<I, B>) {
    0 < cfg.cpus || |cfg.inputs| <= cfg.capC
  }

  /** No reachable state is stuck: before main returns, some step other than main's busy
      waiting can be taken, if there is a worker or the channel can hold all inputs. */
  lemma Progress<I, B>(cfg: Config<I, B>, run: seq<State<I, B>>, k: nat) returns (a: Action)
    requires cfg.Valid() && IsExecution(cfg, run) && k < |run|
    requires CanFinish(cfg)
    requires !run[k].main.Returned?
    ensures Enabled(cfg, run[k], a) && !a.Spin?
  {
    RunSafe(cfg, run, k);
    var s := run[k];
    match s.main {
      case Feeding =>
        if s.todo == [] {
          a := CloseC;
        } else if |s.c| < cfg.capC {
          a := Feed;
        } else {
          a := WorkerActs(cfg, s, 0);
        }
      case AwaitWorkers =>
        if |s.got| < cfg.Workers() {
          a := WorkersProgress(cfg, s);
        } else {
          a := WorkersIn;
        }
      case Spinning =>
        if s.bc == [] {
          a := SeeEmpty;
        } else {
          a := CollectorActs(cfg, s);
        }
      case Closing =>
        a := CloseB;
      case AwaitCollectors =>
        if |s.got| < cfg.Workers() + cfg.sams {
          a := CollectorsProgress(cfg, s);
        } else {
          a := Return;
        }
    }
  }

  // ---- termination ----

  ghost function LoadOf<B>(p: Proc<B>, hold: nat): nat {
    match p
    case Ready => 3
    case Holding(_) => 3 + hold
    case Finishing => 2
    case Gone => 0
  }

  ghost function Load<B>(ps: seq<Proc<B>>, hold: nat): nat {
    if ps == [] then 0 else Load(ps[..|ps| - 1], hold) + LoadOf(ps[|ps| - 1], hold)
  }

  lemma {:induction false} LoadUpdate<B>(ps: seq<Proc<B>>, i: nat, p: Proc<B>, hold: nat)
    requires i < |ps|
    ensures Load(ps[i := p], hold) + LoadOf(ps[i], hold) == Load(ps, hold) + LoadOf(p, hold)
  {
    var n := |ps| - 1;
    if i < n {
      assert ps[i := p][..n] == ps[..n][i := p];
      LoadUpdate(ps[..n], i, p, hold);
    } else {
      assert ps[i := p][..n] == ps[..n];
    }
  }

  ghost function Rank(m: Main): nat {
    match m
    case Feeding => 5
    case AwaitWorkers => 4
    case Spinning => 3
    case Closing => 2
    case AwaitCollectors => 1
    case Returned => 0
  }

  /** The steps that are still to come, at most. */
  ghost function Measure<I, B>(s: State<I, B>): nat {
    5 * |s.todo| + 4 * |s.c| + Load(s.workers, 3) + 2 * |s.bc| + Load(s.collectors, 1) + |s.done| + Rank(s.main)
  }

  lemma WorkersLower<I, B>(cfg: Config<I, B>, s: State<I, B>, a: Action)
    requires Inv(cfg, s) && Enabled(cfg, s, a) && IsWorkers(a)
    ensures Measure(Next(cfg, s, a)) < Measure(s)
  {
    if a.SendBlock? {
      SenderMeetsOpen(cfg, s, a.i);
    }
    LoadUpdate(s.workers, a.i, Next(cfg, s, a).workers[a.i], 3);
  }

  lemma CollectorsLower<I, B>(cfg: Config<I, B>, s: State<I, B>, a: Action)
    requires Inv(cfg, s) && Enabled(cfg, s, a) && IsCollectors(a)
    ensures Measure(Next(cfg, s, a)) < Measure(s)
  {
    LoadUpdate(s.collectors, a.j, Next(cfg, s, a).collectors[a.j], 1);
  }

  /** Every step but main's busy waiting brings the end closer. */
  lemma MeasureFalls<I, B>(cfg: Config<I, B>, run: seq<State<I, B>>, k: nat, a: Action)
    requires cfg.Valid() && IsExecution(cfg, run) && k < |run|
    requires Enabled(cfg, run[k], a) && !a.Spin?
    ensures Measure(Next(cfg, run[k], a)) < Measure(run[k])
  {
    RunSafe(cfg, run, k);
    if IsWorkers(a) {
      WorkersLower(cfg, run[k], a);
    } else if IsCollectors(a) {
      CollectorsLower(cfg, run[k], a);
    } else if IsToken(a) {
      LoadGone(run[k], a.w);
    }
  }

  /** A worker that holds a block still meets an open block channel. */
  lemma SenderMeetsOpen<I, B>(cfg: Config<I, B>, s: State<I, B>, i: nat)
    requires Inv(cfg, s) && i < |s.workers| && s.workers[i].Holding?
    ensures !s.bcClosed
  {
  }

  lemma LoadGone<I, B>(s: State<I, B>, w: Who)
    requires s.Has(w) && s.At(w).Finishing?
    ensures Load(s.With(w, Gone).workers, 3) + Load(s.With(w, Gone).collectors, 1) + 2
            == Load(s.workers, 3) + Load(s.collectors, 1)
  {
    match w {
      case Worker(i) => LoadUpdate(s.workers, i, Gone, 3);
      case Collector(j) => LoadUpdate(s.collectors, j, Gone, 1);
    }
  }

  /** Every execution can be completed: from any state reached, main gets to return. */
  lemma {:induction false} Completes<I, B>(cfg: Config<I, B>, run: seq<State<I, B>>) returns (full: seq<State<I, B>>)
    requires cfg.Valid() && IsExecution(cfg, run)
    requires CanFinish(cfg)
    ensures IsExecution(cfg, full) && run <= full && full[|full| - 1].main.Returned?
    decreases Measure(run[|run| - 1])
  {
    var last := |run| - 1;
    if run[last].main.Returned? {
      full := run;
    } else {
      var a := Progress(cfg, run, last);
      MeasureFalls(cfg, run, last, a);
      var more := run + [Next(cfg, run[last], a)];
      forall k | 0 <= k < |more| - 1 ensures Steps(cfg, more[k], more[k + 1]) {
        if k < last {
          assert Steps(cfg, run[k], run[k + 1]);
        }
      }
      full := Completes(cfg, more);
    }
  }

  /** The last state of an execution in which main has returned. */
  ghost predicate EndsIn<I, B>(cfg: Config<I, B>, run: seq<State<I, B>>, last: State<I, B>) {
    IsExecution(cfg, run) && run[|run| - 1] == last && last.main.Returned?
  }

  /** Some execution gets main to return. */
  ghost predicate MayReturn<I(!new), B(!new)>(cfg: Config<I, B>) {
    exists run, last :: EndsIn(cfg, run, last)
  }

  /** Main can return if and only if there is a worker or the channel can hold all inputs.
      Otherwise no execution ever gets there. */
  lemma ReturnsIff<I(!new), B(!new)>(cfg: Config<I, B>)
    requires cfg.Valid()
    ensures MayReturn(cfg) <==> CanFinish(cfg)
  {
    if CanFinish(cfg) {
      var run := SomeReturn(cfg);
      assert EndsIn(cfg, run, run[|run| - 1]);
    }
    forall run, last | EndsIn(cfg, run, last) ensures CanFinish(cfg) {
      Delivered(cfg, run);
    }
  }

  lemma SomeReturn<I, B>(cfg: Config<I, B>) returns (run: seq<State<I, B>>)
    requires cfg.Valid() && CanFinish(cfg)
    ensures IsExecution(cfg, run) && run[|run| - 1].main.Returned?
  {
    run := Completes(cfg, [Start(cfg)]);
  }

  /** Everything has been delivered. */
  ghost predicate IsComplete<I, B>(cfg: Config<I, B>, s: State<I, B>) {
    multiset(s.blocks) == multiset(cfg.before + Produced(cfg.emit, cfg.inputs))
  }

  /** Some execution ends with everything delivered. */
  ghost predicate MayDeliver<I(!new), B(!new)>(cfg: Config<I, B>) {
    exists run, last :: EndsIn(cfg, run, last) && IsComplete(cfg, last)
  }

  /** A call can end with everything delivered if and only if there is a worker, or nothing
      to deliver and room for all inputs; and when it can, it never ends otherwise. */
  lemma DeliversIff<I(!new), B(!new)>(cfg: Config<I, B>)
    requires cfg.Valid()
    ensures MayDeliver(cfg) <==> 0 < cfg.cpus || (Produced(cfg.emit, cfg.inputs) == [] && |cfg.inputs| <= cfg.capC)
    ensures MayDeliver(cfg) ==> forall run, last :: EndsIn(cfg, run, last) ==> IsComplete(cfg, last)
  {
    forall run, last | EndsIn(cfg, run, last)
      ensures CanFinish(cfg) && (IsComplete(cfg, last) <==> 0 < cfg.cpus || Produced(cfg.emit, cfg.inputs) == [])
    {
      Delivered(cfg, run);
      DeliveredIff(cfg, run);
    }
    if CanFinish(cfg) {
      var run := SomeReturn(cfg);
      assert EndsIn(cfg, run, run[|run| - 1]);
    }
  }
}
