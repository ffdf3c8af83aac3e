/** The generation barrier and the allgather of modules/module_shm.c as interleaved atomic steps.

    Any number of processes each run the initial barrier and then the same number of allgather calls. A run is a
    schedule: the order in which processes take steps. One slot of the shared buffer stands for the contribution of
    one rank; a slot that is being written is torn. */
module Barrier {

  type Data = seq<real>

  const WORD: nat := 0x1_0000_0000

  datatype Slot = Torn | Full(data: Data)

  /** Which barrier a process is in, and which spin loop. */
  datatype Site = Init | Gather | Release
  datatype Wait = AfterInit | Enter | Gathered

  datatype Pc =
    | Arrive(site: Site)        // about to add 1 to nwritter
    | Reset(site: Site)         // last arriver, about to store 0 to nwritter
    | Publish(site: Site)       // last arriver, about to add 1 to the shared generation
    | Bump(site: Site)          // about to add 1 to the local generation
    | Spin(wait: Wait)          // module_shm_sync_step_1
    | WriteBegin                // about to write the own slot
    | WriteEnd                  // the own slot is half written
    | Copy(next: nat)           // about to copy slot `next` out
    | Done

  /** A process: its local generation, the receive buffer of its current call, and what its finished calls returned. */
  datatype Proc = Proc(pc: Pc, round: nat, gen: nat, rbuf: seq<Slot>, out: seq<seq<Slot>>)

  /** Shared memory and all processes. `published` counts the additions to genId without wrapping. */
  datatype State = State(genId: nat, nwritter: nat, slots: seq<Slot>, procs: seq<Proc>, published: nat)

  /** What each rank contributes to each round. */
  datatype Job = Job(rounds: nat, input: seq<seq<Data>>) {
    ghost predicate Valid() {
      && 1 <= |input| < 0x8000_0000
      && forall p :: 0 <= p < |input| ==> |input[p]| == rounds
    }

    function Size(): nat {
      |input|
    }
  }

  ghost predicate Sized(job: Job, s: State) {
    |s.procs| == |s.slots| == job.Size()
  }

  function Start(job: Job): State {
    State(0, 0, seq(job.Size(), _ => Full([])),
          seq(job.Size(), _ => Proc(Arrive(Init), 0, 0, seq(job.Size(), _ => Torn), [])), 0)
  }

  function NextCall(job: Job, round: nat): Pc {
    if round == job.rounds then Done else Spin(Enter)
  }

  /** Process p takes one atomic step; a failed test of the spin loop changes nothing. */
  function Step(job: Job, s: State, p: nat): (t: State)
    requires job.Valid() && Sized(job, s) && p < job.Size()
    ensures Sized(job, t)
  {
    var x := s.procs[p];
    match x.pc
    case Arrive(site) =>
      var next := if s.nwritter == job.Size() - 1 then Reset(site) else Bump(site);
      s.(nwritter := (s.nwritter + 1) % WORD, procs := s.procs[p := x.(pc := next)])
    case Reset(site) =>
      s.(nwritter := 0, procs := s.procs[p := x.(pc := Publish(site))])
    case Publish(site) =>
      s.(genId := (s.genId + 1) % WORD, published := s.published + 1, procs := s.procs[p := x.(pc := Bump(site))])
    case Bump(site) =>
      var y := x.(gen := (x.gen + 1) % WORD);
      s.(procs := s.procs[p := match site
        case Init => y.(pc := Spin(AfterInit))
        case Gather => y.(pc := Spin(Gathered))
        case Release => y.(pc := NextCall(job, x.round + 1), round := x.round + 1, out := x.out + [x.rbuf])])
    case Spin(wait) =>
      if x.gen != s.genId then s
      else s.(procs := s.procs[p := x.(pc := match wait
        case AfterInit => NextCall(job, x.round)
        case Enter => WriteBegin
        case Gathered => Copy(0))])
    case WriteBegin =>
      s.(slots := s.slots[p := Torn], procs := s.procs[p := x.(pc := WriteEnd)])
    case WriteEnd =>
      var data := if x.round < job.rounds then job.input[p][x.round] else [];
      s.(slots := s.slots[p := Full(data)], procs := s.procs[p := x.(pc := Arrive(Gather))])
    case Copy(k) =>
      if k >= job.Size() || k >= |x.rbuf| then s.(procs := s.procs[p := x.(pc := Arrive(Release))])
      else s.(procs := s.procs[p := x.(pc := Copy(k + 1), rbuf := x.rbuf[k := s.slots[k]])])
    case Done => s
  }

  /** The state after a schedule. */
  function Run(job: Job, s: State, schedule: seq<nat>): (t: State)
    requires job.Valid() && Sized(job, s) && forall i :: 0 <= i < |schedule| ==> schedule[i] < job.Size()
    ensures Sized(job, t)
  {
    if schedule == [] then s
    else Step(job, Run(job, s, schedule[..|schedule|-1]), schedule[|schedule|-1])
  }

  ghost predicate Reachable(job: Job, s: State) {
    && job.Valid()
    && exists schedule: seq<nat> ::
         && (forall i :: 0 <= i < |schedule| ==> schedule[i] < job.Size())
         && Run(job, Start(job), schedule) == s
  }

  // ---------------------------------------------------------------- where a process stands

  predicate Closing(pc: Pc) {
    pc.Reset? || pc.Publish?
  }

  /** The process is between a passed spin loop and its next arrival. */
  predicate Working(pc: Pc) {
    pc.Arrive? || pc.WriteBegin? || pc.WriteEnd? || pc.Copy?
  }

  /** How often the process has added 1 to nwritter. */
  function Arrivals(x: Proc): nat {
    match x.pc
    case Arrive(Init) => 0
    case Reset(Init) => 1
    case Publish(Init) => 1
    case Bump(Init) => 1
    case Arrive(Release) => 2 + 2 * x.round
    case Reset(Gather) => 2 + 2 * x.round
    case Publish(Gather) => 2 + 2 * x.round
    case Bump(Gather) => 2 + 2 * x.round
    case Spin(Gathered) => 2 + 2 * x.round
    case Copy(_) => 2 + 2 * x.round
    case Reset(Release) => 3 + 2 * x.round
    case Publish(Release) => 3 + 2 * x.round
    case Bump(Release) => 3 + 2 * x.round
    case _ => 1 + 2 * x.round
  }

  /** How often it has added 1 to its own generation. */
  function Bumps(x: Proc): int {
    Arrivals(x) - if x.pc.Reset? || x.pc.Publish? || x.pc.Bump? then 1 else 0
  }

  /** The round that the process's slot holds, counted from 1; 0 before the first write. */
  function Written(x: Proc): nat {
    match x.pc
    case Arrive(Gather) => x.round + 1
    case Arrive(Release) => x.round + 1
    case Reset(site) => if site.Init? then 0 else x.round + 1
    case Publish(site) => if site.Init? then 0 else x.round + 1
    case Bump(site) => if site.Init? then 0 else x.round + 1
    case Spin(Gathered) => x.round + 1
    case Copy(_) => x.round + 1
    case _ => x.round
  }

  /** How many slots of the current round are already in its receive buffer. */
  function Copied(job: Job, x: Proc): nat {
    match x.pc
    case Copy(k) => k
    case Arrive(Release) => job.Size()
    case Reset(Release) => job.Size()
    case Publish(Release) => job.Size()
    case Bump(Release) => job.Size()
    case _ => 0
  }

  /** The program counter fits the round. */
  predicate InCall(job: Job, x: Proc) {
    match x.pc
    case Done => x.round == job.rounds
    case Spin(AfterInit) => x.round == 0
    case Arrive(Init) => x.round == 0
    case Reset(Init) => x.round == 0
    case Publish(Init) => x.round == 0
    case Bump(Init) => x.round == 0
    case Copy(k) => x.round < job.rounds && k <= job.Size()
    case _ => x.round < job.rounds
  }

  ghost predicate SlotOk(job: Job, slot: Slot, x: Proc, p: nat)
    requires job.Valid() && p < job.Size()
  {
    if x.pc.WriteEnd? then slot == Torn
    else Written(x) > 0 ==> Written(x) <= job.rounds && slot == Full(job.input[p][Written(x) - 1])
  }

  /** The result that every rank should get from round r. */
  ghost predicate IsGathered(job: Job, r: nat, buffer: seq<Slot>)
    requires job.Valid() && r < job.rounds
  {
    |buffer| == job.Size() && forall q :: 0 <= q < job.Size() ==> buffer[q] == Full(job.input[q][r])
  }

  ghost predicate BuffersOk(job: Job, x: Proc)
    requires job.Valid()
  {
    && |x.rbuf| == job.Size()
    && Copied(job, x) <= job.Size()
    && (Copied(job, x) > 0 ==> x.round < job.rounds)
    && (forall q :: 0 <= q < Copied(job, x) ==> x.rbuf[q] == Full(job.input[q][x.round]))
    && |x.out| == x.round <= job.rounds
    && forall r :: 0 <= r < x.round ==> IsGathered(job, r, x.out[r])
  }

  /** A process against the number of published generations. */
  ghost predicate ProcOk(job: Job, x: Proc, g: nat) {
    && InCall(job, x)
    && x.gen == Bumps(x) % WORD
    && (Arrivals(x) == g || Arrivals(x) == g + 1)
    && (Working(x.pc) ==> Arrivals(x) == g)
    && (Closing(x.pc) ==> Arrivals(x) == g + 1)
  }

  function Arrived(procs: seq<Proc>, g: nat): nat {
    if procs == [] then 0
    else Arrived(procs[..|procs|-1], g) + if Arrivals(procs[|procs|-1]) == g + 1 then 1 else 0
  }

  ghost predicate SomeoneCloses(procs: seq<Proc>) {
    exists p :: 0 <= p < |procs| && Closing(procs[p].pc)
  }

  /** nwritter is the number of arrivals in the open generation, except in the last arriver's reset window; then every
      process has arrived and no other one closes the generation. */
  ghost predicate CounterOk(job: Job, s: State) {
    && (!SomeoneCloses(s.procs) ==> s.nwritter == Arrived(s.procs, s.published) < job.Size())
    && forall p :: 0 <= p < |s.procs| && Closing(s.procs[p].pc) ==>
         && s.nwritter == (if s.procs[p].pc.Reset? then job.Size() else 0)
         && forall q :: 0 <= q < |s.procs| ==>
              Arrivals(s.procs[q]) == s.published + 1 && (q != p ==> !Closing(s.procs[q].pc))
  }

  /** Everything about process p alone. */
  ghost predicate PartOk(job: Job, x: Proc, slot: Slot, p: nat, g: nat)
    requires job.Valid() && p < job.Size()
  {
    ProcOk(job, x, g) && SlotOk(job, slot, x, p) && BuffersOk(job, x)
  }

  ghost predicate Inv(job: Job, s: State) {
    && job.Valid() && Sized(job, s)
    && s.genId == s.published % WORD
    && (forall p :: 0 <= p < job.Size() ==> PartOk(job, s.procs[p], s.slots[p], p, s.published))
    && CounterOk(job, s)
  }

  // ---------------------------------------------------------------- counting arrivals

  lemma {:induction false} ArrivedBounds(procs: seq<Proc>, g: nat)
    ensures Arrived(procs, g) <= |procs|
    ensures Arrived(procs, g) == |procs| <==> forall p :: 0 <= p < |procs| ==> Arrivals(procs[p]) == g + 1
  {
    if procs != [] {
      ArrivedBounds(procs[..|procs|-1], g);
    }
  }

  lemma {:induction false} ArrivedUpdate(procs: seq<Proc>, g: nat, p: nat, x: Proc)
    requires p < |procs|
    ensures Arrived(procs[p := x], g) == Arrived(procs, g)
      - (if Arrivals(procs[p]) == g + 1 then 1 else 0) + (if Arrivals(x) == g + 1 then 1 else 0)
  {
    var k := |procs| - 1;
    if p == k {
      assert procs[p := x][..k] == procs[..k];
    } else {
      assert procs[p := x][..k] == procs[..k][p := x];
      ArrivedUpdate(procs[..k], g, p, x);
    }
  }

  lemma {:induction false} NoneArrived(procs: seq<Proc>, g: nat)
    requires forall p :: 0 <= p < |procs| ==> Arrivals(procs[p]) != g + 1
    ensures Arrived(procs, g) == 0
  {
    if procs != [] {
      NoneArrived(procs[..|procs|-1], g);
    }
  }

  // ---------------------------------------------------------------- the invariant over all steps

  lemma StartInv(job: Job)
    requires job.Valid()
    ensures Inv(job, Start(job))
  {
    NoneArrived(Start(job).procs, 0);
  }

  /** The comparison of wrapped generations tells whether the process's own count is the published one. */
  lemma WrappedComparison(job: Job, x: Proc, g: nat)
    requires ProcOk(job, x, g)
    ensures x.gen == g % WORD <==> Bumps(x) == g
    ensures -1 <= Bumps(x) - g <= 1
  {
    assert -1 <= Bumps(x) - g <= 1 && x.gen == Bumps(x) % WORD;
    WordsDiffer(Bumps(x), g);
  }

  lemma WordsDiffer(a: int, b: int)
    requires -1 <= a - b <= 1
    ensures a % WORD == b % WORD <==> a == b
  {
    if a == b + 1 {
      assert (b + 1) % WORD == if b % WORD == WORD - 1 then 0 else b % WORD + 1;
    } else if a == b - 1 {
      assert (a + 1) % WORD == if a % WORD == WORD - 1 then 0 else a % WORD + 1;
    }
  }

  /** While a process copies the slots of a round out, every slot holds its rank's contribution to that round. */
  lemma CopyIsSafe(job: Job, s: State, p: nat, q: nat)
    requires Inv(job, s) && p < job.Size() && q < job.Size() && s.procs[p].pc.Copy?
    ensures s.procs[p].round < job.rounds && s.slots[q] == Full(job.input[q][s.procs[p].round])
  {
    assert PartOk(job, s.procs[q], s.slots[q], q, s.published);
    assert PartOk(job, s.procs[p], s.slots[p], p, s.published);
  }

  /** A step that changes neither the shared counters nor the process's number of arrivals. */
  lemma LocalStep(job: Job, s: State, p: nat, slot: Slot, x: Proc)
    requires Inv(job, s) && p < job.Size()
    requires Arrivals(x) == Arrivals(s.procs[p]) && !Closing(s.procs[p].pc) && !Closing(x.pc)
    requires PartOk(job, x, slot, p, s.published)
    ensures Inv(job, s.(slots := s.slots[p := slot], procs := s.procs[p := x]))
  {
    hide PartOk; hide Arrivals; hide Arrived;
    var t := s.(slots := s.slots[p := slot], procs := s.procs[p := x]);
    ArrivedUpdate(s.procs, s.published, p, x);
    assert SomeoneCloses(t.procs) <==> SomeoneCloses(s.procs) by {
      if q :| 0 <= q < |s.procs| && Closing(s.procs[q].pc) {
        assert Closing(t.procs[q].pc);
      }
      if q :| 0 <= q < |t.procs| && Closing(t.procs[q].pc) {
        assert Closing(s.procs[q].pc);
      }
    }
  }

  /** While nobody closes the generation, a process that is about to arrive finds fewer arrivals than processes; it is
      the last one exactly when everybody else has arrived. */
  lemma ArriveInv(job: Job, s: State, p: nat)
    requires Inv(job, s) && p < job.Size() && s.procs[p].pc.Arrive?
    ensures Inv(job, Step(job, s, p))
  {
    var x, g := s.procs[p], s.published;
    var t := Step(job, s, p);
    var y := t.procs[p];
    assert PartOk(job, x, s.slots[p], p, g) && Arrivals(x) == g;
    assert !SomeoneCloses(s.procs);
    assert PartOk(job, y, t.slots[p], p, g) && Arrivals(y) == g + 1;
    ArrivedCounter(job, s, t, p);
  }

  lemma ArrivedCounter(job: Job, s: State, t: State, p: nat)
    requires Inv(job, s) && p < job.Size() && s.procs[p].pc.Arrive? && t == Step(job, s, p)
    requires !SomeoneCloses(s.procs)
    requires Arrivals(s.procs[p]) == s.published && Arrivals(t.procs[p]) == s.published + 1
    ensures CounterOk(job, t)
  {
    hide PartOk; hide Arrivals;
    ArrivedUpdate(s.procs, s.published, p, t.procs[p]);
    ArrivedBounds(t.procs, s.published);
    hide Arrived;
    forall q | 0 <= q < |t.procs| && q != p ensures !Closing(t.procs[q].pc) {
      assert !Closing(s.procs[q].pc);
    }
    if Closing(t.procs[p].pc) {
      assert SomeoneCloses(t.procs);
    }
  }

  lemma ResetInv(job: Job, s: State, p: nat)
    requires Inv(job, s) && p < job.Size() && s.procs[p].pc.Reset?
    ensures Inv(job, Step(job, s, p))
  {
    var x, t := s.procs[p], Step(job, s, p);
    var y := t.procs[p];
    assert Closing(x.pc) && Closing(y.pc);
    assert PartOk(job, x, s.slots[p], p, s.published);
    assert PartOk(job, y, t.slots[p], p, s.published);
    hide PartOk; hide Arrivals;
    forall q | 0 <= q < |t.procs| && q != p ensures !Closing(t.procs[q].pc) {
      assert !Closing(s.procs[q].pc);
    }
    assert Arrivals(y) == Arrivals(x);
  }

  /** The counter of a generation that nobody has arrived in. */
  lemma OpenCounter(job: Job, t: State)
    requires job.Valid() && Sized(job, t) && t.nwritter == 0
    requires forall q :: 0 <= q < job.Size() ==> Arrivals(t.procs[q]) == t.published && !Closing(t.procs[q].pc)
    ensures CounterOk(job, t)
  {
    hide Arrivals; hide Closing;
    NoneArrived(t.procs, t.published);
  }

  /** Publishing opens the next generation, in which nobody has arrived. */
  lemma PublishInv(job: Job, s: State, p: nat)
    requires Inv(job, s) && p < job.Size() && s.procs[p].pc.Publish?
    ensures Inv(job, Step(job, s, p))
  {
    var t := Step(job, s, p);
    assert Closing(s.procs[p].pc);
    assert s.nwritter == 0;
    hide PartOk; hide Arrivals; hide Closing; hide CounterOk;
    WrapAdd(s.published);
    forall q | 0 <= q < job.Size()
      ensures PartOk(job, t.procs[q], t.slots[q], q, t.published)
      ensures Arrivals(t.procs[q]) == t.published && !Closing(t.procs[q].pc)
    {
      OpenNext(job, s, p, q);
    }
    OpenCounter(job, t);
  }

  lemma OpenNext(job: Job, s: State, p: nat, q: nat)
    requires Inv(job, s) && p < job.Size() && s.procs[p].pc.Publish? && q < job.Size()
    ensures var t := Step(job, s, p);
      && PartOk(job, t.procs[q], t.slots[q], q, t.published)
      && Arrivals(t.procs[q]) == t.published && !Closing(t.procs[q].pc)
  {
    assert Closing(s.procs[p].pc);
    assert PartOk(job, s.procs[q], s.slots[q], q, s.published);
  }

  lemma WrapAdd(g: nat)
    ensures (g % WORD + 1) % WORD == (g + 1) % WORD
  {
  }

  /** What Bump makes of one process. */
  lemma Bumped(job: Job, x: Proc, slot: Slot, p: nat, g: nat, y: Proc)
    requires job.Valid() && p < job.Size() && PartOk(job, x, slot, p, g) && x.pc.Bump?
    requires y == match x.pc.site
      case Init => x.(gen := (x.gen + 1) % WORD, pc := Spin(AfterInit))
      case Gather => x.(gen := (x.gen + 1) % WORD, pc := Spin(Gathered))
      case Release => x.(gen := (x.gen + 1) % WORD, pc := NextCall(job, x.round + 1), round := x.round + 1,
                         out := x.out + [x.rbuf])
    ensures PartOk(job, y, slot, p, g) && Arrivals(y) == Arrivals(x) && !Closing(y.pc)
  {
    WrapAdd(Bumps(x));
    if x.pc.site.Release? {
      assert IsGathered(job, x.round, x.rbuf);
    }
  }

  lemma BumpInv(job: Job, s: State, p: nat)
    requires Inv(job, s) && p < job.Size() && s.procs[p].pc.Bump?
    ensures Inv(job, Step(job, s, p))
  {
    var x, t := s.procs[p], Step(job, s, p);
    var y := t.procs[p];
    assert PartOk(job, x, s.slots[p], p, s.published);
    Bumped(job, x, s.slots[p], p, s.published, y);
    hide PartOk; hide Arrivals;
    LocalStep(job, s, p, s.slots[p], y);
    assert t == s.(slots := s.slots[p := s.slots[p]], procs := s.procs[p := y]);
  }

  lemma SpinInv(job: Job, s: State, p: nat)
    requires Inv(job, s) && p < job.Size() && s.procs[p].pc.Spin?
    ensures Inv(job, Step(job, s, p))
  {
    var x, t := s.procs[p], Step(job, s, p);
    var y := t.procs[p];
    assert PartOk(job, x, s.slots[p], p, s.published);
    WrappedComparison(job, x, s.published);
    if x.gen == s.genId {
      LocalStep(job, s, p, s.slots[p], y);
      assert t == s.(slots := s.slots[p := s.slots[p]], procs := s.procs[p := y]);
    }
  }

  lemma WriteInv(job: Job, s: State, p: nat)
    requires Inv(job, s) && p < job.Size() && (s.procs[p].pc.WriteBegin? || s.procs[p].pc.WriteEnd?)
    ensures Inv(job, Step(job, s, p))
  {
    var x, t := s.procs[p], Step(job, s, p);
    assert PartOk(job, x, s.slots[p], p, s.published);
    LocalStep(job, s, p, t.slots[p], t.procs[p]);
    assert t == s.(slots := s.slots[p := t.slots[p]], procs := s.procs[p := t.procs[p]]);
  }

  lemma CopyPart(job: Job, x: Proc, slot: Slot, p: nat, g: nat, v: Slot, y: Proc)
    requires job.Valid() && p < job.Size() && PartOk(job, x, slot, p, g) && x.pc.Copy? && x.round < job.rounds
    requires var k := x.pc.next;
      if k >= job.Size() || k >= |x.rbuf| then y == x.(pc := Arrive(Release))
      else y == x.(pc := Copy(k + 1), rbuf := x.rbuf[k := v]) && v == Full(job.input[k][x.round])
    ensures PartOk(job, y, slot, p, g)
    ensures Arrivals(y) == Arrivals(x) && !Closing(y.pc)
  {
  }

  lemma CopyInv(job: Job, s: State, p: nat)
    requires Inv(job, s) && p < job.Size() && s.procs[p].pc.Copy?
    ensures Inv(job, Step(job, s, p))
  {
    var x, t := s.procs[p], Step(job, s, p);
    var slot, k, y := s.slots[p], x.pc.next, t.procs[p];
    assert t == s.(slots := s.slots[p := slot], procs := s.procs[p := y]);
    assert PartOk(job, x, slot, p, s.published);
    assert x.round < job.rounds by {
      CopyIsSafe(job, s, p, p);
    }
    if k < job.Size() {
      CopyIsSafe(job, s, p, k);
    }
    hide Inv; hide PartOk; hide Arrivals;
    CopyPart(job, x, slot, p, s.published, if k < job.Size() then s.slots[k] else slot, y);
    LocalStep(job, s, p, slot, y);
  }

  lemma StepInv(job: Job, s: State, p: nat)
    requires Inv(job, s) && p < job.Size()
    ensures Inv(job, Step(job, s, p))
  {
    match s.procs[p].pc
    case Arrive(_) => ArriveInv(job, s, p);
    case Reset(_) => ResetInv(job, s, p);
    case Publish(_) => PublishInv(job, s, p);
    case Bump(_) => BumpInv(job, s, p);
    case Spin(_) => SpinInv(job, s, p);
    case WriteBegin => WriteInv(job, s, p);
    case WriteEnd => WriteInv(job, s, p);
    case Copy(_) => CopyInv(job, s, p);
    case Done =>
  }

  lemma {:induction false} RunInv(job: Job, s: State, schedule: seq<nat>)
    requires Inv(job, s) && forall i :: 0 <= i < |schedule| ==> schedule[i] < job.Size()
    ensures Inv(job, Run(job, s, schedule))
  {
    if schedule != [] {
      var k := |schedule| - 1;
      RunInv(job, s, schedule[..k]);
      StepInv(job, Run(job, s, schedule[..k]), schedule[k]);
    }
  }

  lemma ReachableInv(job: Job, s: State)
    requires Reachable(job, s)
    ensures Inv(job, s)
  {
    StartInv(job);
    var schedule: seq<nat> :| (forall i :: 0 <= i < |schedule| ==> schedule[i] < job.Size())
      && Run(job, Start(job), schedule) == s;
    RunInv(job, Start(job), schedule);
  }

  // ---------------------------------------------------------------- what every run keeps

  /** Phase safety of reading: while process p copies round r out, every slot holds its rank's contribution to round
      r, so all ranks have written round r and none is writing. */
  lemma NoEarlyRead(job: Job, s: State, p: nat, q: nat)
    requires Reachable(job, s) && p < job.Size() && q < job.Size() && s.procs[p].pc.Copy?
    ensures s.procs[p].round < job.rounds && s.slots[q] == Full(job.input[q][s.procs[p].round])
    ensures !s.procs[q].pc.WriteBegin? && !s.procs[q].pc.WriteEnd?
  {
    ReachableInv(job, s);
    assert PartOk(job, s.procs[p], s.slots[p], p, s.published);
    CopyIsSafe(job, s, p, q);
    SamePhase(job, s, p, q);
  }

  /** The process holds the complete result of round r - 1, returned or about to be returned. */
  ghost predicate HasResult(job: Job, x: Proc, r: nat)
    requires job.Valid() && 0 < r <= job.rounds
  {
    |x.out| >= r || (|x.out| == r - 1 && IsGathered(job, r - 1, x.rbuf))
  }

  /** Phase safety of writing: while process p is about to write its contribution to round r, or half through it,
      nobody is copying and everybody has the complete result of round r - 1. */
  lemma NoEarlyWrite(job: Job, s: State, p: nat, q: nat)
    requires Reachable(job, s) && p < job.Size() && q < job.Size()
    requires s.procs[p].pc.WriteBegin? || s.procs[p].pc.WriteEnd?
    ensures !s.procs[q].pc.Copy? && s.procs[p].round < job.rounds
    ensures s.procs[p].round > 0 ==> HasResult(job, s.procs[q], s.procs[p].round)
  {
    ReachableInv(job, s);
    if s.procs[q].pc.Copy? {
      SamePhase(job, s, q, p);
    }
    RoundFinished(job, s, p, q);
  }

  lemma SamePhase(job: Job, s: State, p: nat, q: nat)
    requires Inv(job, s) && p < job.Size() && q < job.Size() && s.procs[p].pc.Copy?
    ensures !s.procs[q].pc.WriteBegin? && !s.procs[q].pc.WriteEnd?
  {
    hide SlotOk; hide BuffersOk; hide CounterOk;
    assert PartOk(job, s.procs[p], s.slots[p], p, s.published);
    assert PartOk(job, s.procs[q], s.slots[q], q, s.published);
  }

  lemma RoundFinished(job: Job, s: State, p: nat, q: nat)
    requires Inv(job, s) && p < job.Size() && q < job.Size()
    requires s.procs[p].pc.WriteBegin? || s.procs[p].pc.WriteEnd?
    ensures s.procs[p].round < job.rounds
    ensures s.procs[p].round > 0 ==> HasResult(job, s.procs[q], s.procs[p].round)
  {
    hide SlotOk; hide CounterOk;
    assert PartOk(job, s.procs[p], s.slots[p], p, s.published);
    assert PartOk(job, s.procs[q], s.slots[q], q, s.published);
  }

  /** Every call of allgather, on every rank and in every run, returns the contributions of all ranks to that round. */
  lemma AllgatherReturnsAll(job: Job, s: State, p: nat, r: nat)
    requires Reachable(job, s) && p < job.Size() && r < |s.procs[p].out|
    ensures r < job.rounds && IsGathered(job, r, s.procs[p].out[r])
  {
    ReachableInv(job, s);
    assert PartOk(job, s.procs[p], s.slots[p], p, s.published);
  }

  /** A process's own count of generations differs from the published one by at most one, so that comparing the two
      wrapped words is comparing the counts. */
  lemma GenerationsStayClose(job: Job, s: State, p: nat)
    requires Reachable(job, s) && p < job.Size()
    ensures -1 <= Bumps(s.procs[p]) - s.published <= 1
    ensures s.procs[p].gen == s.genId <==> Bumps(s.procs[p]) == s.published
  {
    ReachableInv(job, s);
    assert PartOk(job, s.procs[p], s.slots[p], p, s.published);
    WrappedComparison(job, s.procs[p], s.published);
  }

  /** No arrival is lost: nwritter counts exactly the processes that have arrived in the open generation, unless the
      last arriver is in its reset window, in which everybody has arrived and nobody is about to. */
  lemma NoArrivalLost(job: Job, s: State)
    requires Reachable(job, s)
    ensures !SomeoneCloses(s.procs) ==> s.nwritter == Arrived(s.procs, s.published) < job.Size()
    ensures SomeoneCloses(s.procs) ==>
      Arrived(s.procs, s.published) == job.Size() && forall q :: 0 <= q < job.Size() ==> !s.procs[q].pc.Arrive?
  {
    ReachableInv(job, s);
    ArrivedBounds(s.procs, s.published);
    if SomeoneCloses(s.procs) {
      forall q | 0 <= q < job.Size() ensures !s.procs[q].pc.Arrive? {
        assert PartOk(job, s.procs[q], s.slots[q], q, s.published);
      }
    }
  }

  /** Process p can take a step that changes the state. */
  predicate Enabled(job: Job, s: State, p: nat)
    requires Sized(job, s) && p < job.Size()
  {
    match s.procs[p].pc
    case Spin(_) => s.procs[p].gen == s.genId
    case Done => false
    case _ => true
  }

  predicate AllDone(s: State) {
    forall p :: 0 <= p < |s.procs| ==> s.procs[p].pc.Done?
  }

  /** No deadlock: until every process has finished all its calls, one of them can move. */
  lemma NoDeadlock(job: Job, s: State) returns (p: nat)
    requires Inv(job, s) && !AllDone(s)
    ensures p < job.Size() && Enabled(job, s, p)
  {
    if q :| 0 <= q < job.Size() && Enabled(job, s, q) {
      p := q;
    } else {
      forall q | 0 <= q < job.Size() ensures Stuck(job, s.procs[q], s.published) && !Closing(s.procs[q].pc) {
        assert !Enabled(job, s, q);
        assert PartOk(job, s.procs[q], s.slots[q], q, s.published);
        WrappedComparison(job, s.procs[q], s.published);
      }
      var w :| 0 <= w < job.Size() && !s.procs[w].pc.Done?;
      assert Stuck(job, s.procs[w], s.published);
      forall q | 0 <= q < job.Size() ensures Arrivals(s.procs[q]) == s.published + 1 {
        assert Stuck(job, s.procs[q], s.published);
      }
      ArrivedBounds(s.procs, s.published);
      assert false;
    }
  }

  /** Finished, or waiting for a generation that is still open. */
  predicate Stuck(job: Job, x: Proc, g: nat) {
    || (x.pc.Done? && Arrivals(x) == 1 + 2 * job.rounds && g <= Arrivals(x) <= g + 1)
    || (x.pc.Spin? && Arrivals(x) == g + 1 <= 2 * job.rounds + 1)
  }

  /** Steps a process still has to take, not counting failed tests of a spin loop. */
  function StepsLeft(job: Job, x: Proc): int {
    var perCall := job.Size() + 14;
    var rest := (job.rounds - x.round) * perCall;
    match x.pc
    case Arrive(Init) => rest + 6
    case Reset(Init) => rest + 5
    case Publish(Init) => rest + 4
    case Bump(Init) => rest + 3
    case Spin(AfterInit) => rest + 2
    case Done => 0
    case Spin(Enter) => rest
    case WriteBegin => rest - 1
    case WriteEnd => rest - 2
    case Arrive(Gather) => rest - 3
    case Reset(Gather) => rest - 4
    case Publish(Gather) => rest - 5
    case Bump(Gather) => rest - 6
    case Spin(Gathered) => rest - 7
    case Copy(k) => rest - 8 - k
    case Arrive(Release) => rest - 9 - job.Size()
    case Reset(Release) => rest - 10 - job.Size()
    case Publish(Release) => rest - 11 - job.Size()
    case Bump(Release) => rest - 12 - job.Size()
  }

  lemma RoundsLeft(job: Job, round: nat)
    requires round < job.rounds
    ensures (job.rounds - round) * (job.Size() + 14) == (job.rounds - (round + 1)) * (job.Size() + 14) + job.Size() + 14
    ensures (job.rounds - (round + 1)) * (job.Size() + 14) >= 0
  {
  }

  lemma StepsLeftNonNegative(job: Job, x: Proc, g: nat)
    requires ProcOk(job, x, g) && job.Valid()
    ensures StepsLeft(job, x) >= 0
  {
    if x.round < job.rounds {
      RoundsLeft(job, x.round);
    }
  }

  /** Every step that is not a failed test of a spin loop uses up one of the steps the process has left. */
  lemma StepProgress(job: Job, s: State, p: nat)
    requires Inv(job, s) && p < job.Size()
    ensures Step(job, s, p) == s || StepsLeft(job, Step(job, s, p).procs[p]) < StepsLeft(job, s.procs[p])
    ensures Enabled(job, s, p) ==> StepsLeft(job, Step(job, s, p).procs[p]) < StepsLeft(job, s.procs[p])
  {
    hide SlotOk; hide CounterOk;
    assert PartOk(job, s.procs[p], s.slots[p], p, s.published);
    if s.procs[p].round < job.rounds {
      RoundsLeft(job, s.procs[p].round);
    }
  }

  function TotalLeft(job: Job, procs: seq<Proc>): int {
    if procs == [] then 0 else TotalLeft(job, procs[..|procs|-1]) + StepsLeft(job, procs[|procs|-1])
  }

  lemma {:induction false} TotalLeftUpdate(job: Job, procs: seq<Proc>, p: nat, x: Proc)
    requires p < |procs|
    ensures TotalLeft(job, procs[p := x]) == TotalLeft(job, procs) - StepsLeft(job, procs[p]) + StepsLeft(job, x)
  {
    hide StepsLeft;
    var k := |procs| - 1;
    if p == k {
      assert procs[p := x][..k] == procs[..k];
    } else {
      assert procs[p := x][..k] == procs[..k][p := x];
      TotalLeftUpdate(job, procs[..k], p, x);
    }
  }

  lemma {:induction false} TotalLeftNonNegative(job: Job, procs: seq<Proc>)
    requires forall p :: 0 <= p < |procs| ==> StepsLeft(job, procs[p]) >= 0
    ensures TotalLeft(job, procs) >= 0
  {
    hide StepsLeft;
    if procs != [] {
      TotalLeftNonNegative(job, procs[..|procs|-1]);
    }
  }

  lemma LeftNonNegative(job: Job, s: State)
    requires Inv(job, s)
    ensures TotalLeft(job, s.procs) >= 0
  {
    forall p | 0 <= p < |s.procs| ensures StepsLeft(job, s.procs[p]) >= 0 {
      assert PartOk(job, s.procs[p], s.slots[p], p, s.published);
      StepsLeftNonNegative(job, s.procs[p], s.published);
    }
    TotalLeftNonNegative(job, s.procs);
  }

  lemma StepUsesOne(job: Job, s: State, p: nat)
    requires Inv(job, s) && p < job.Size() && (Enabled(job, s, p) || Step(job, s, p) != s)
    ensures TotalLeft(job, Step(job, s, p).procs) < TotalLeft(job, s.procs)
  {
    StepProgress(job, s, p);
    var t := Step(job, s, p);
    assert t.procs == s.procs[p := t.procs[p]];
    TotalLeftUpdate(job, s.procs, p, t.procs[p]);
  }

  /** How many steps of a schedule change the state. */
  function Effective(job: Job, s: State, schedule: seq<nat>): nat
    requires job.Valid() && Sized(job, s) && forall i :: 0 <= i < |schedule| ==> schedule[i] < job.Size()
  {
    if schedule == [] then 0
    else
      var k := |schedule| - 1;
      var before := Run(job, s, schedule[..k]);
      Effective(job, s, schedule[..k]) + if Step(job, before, schedule[k]) == before then 0 else 1
  }

  /** Apart from failed tests of the spin loops, every run is bounded: no schedule goes on for ever. */
  lemma {:induction false} RunsAreBounded(job: Job, schedule: seq<nat>)
    requires job.Valid() && forall i :: 0 <= i < |schedule| ==> schedule[i] < job.Size()
    ensures Effective(job, Start(job), schedule) + TotalLeft(job, Run(job, Start(job), schedule).procs)
         <= TotalLeft(job, Start(job).procs)
    ensures Effective(job, Start(job), schedule) <= TotalLeft(job, Start(job).procs)
  {
    StartInv(job);
    RunInv(job, Start(job), schedule);
    LeftNonNegative(job, Run(job, Start(job), schedule));
    if schedule != [] {
      var k := |schedule| - 1;
      RunsAreBounded(job, schedule[..k]);
      StartInv(job);
      RunInv(job, Start(job), schedule[..k]);
      var before := Run(job, Start(job), schedule[..k]);
      if Step(job, before, schedule[k]) != before {
        StepUsesOne(job, before, schedule[k]);
      }
    }
  }

  /** From every reachable state the processes can all finish. */
  lemma {:induction false} CanFinish(job: Job, s: State) returns (schedule: seq<nat>)
    requires Inv(job, s)
    ensures forall i :: 0 <= i < |schedule| ==> schedule[i] < job.Size()
    ensures AllDone(Run(job, s, schedule))
    decreases TotalLeft(job, s.procs)
  {
    hide PartOk; hide CounterOk; hide StepsLeft; hide TotalLeft; hide Step; hide Enabled;
    LeftNonNegative(job, s);
    if AllDone(s) {
      schedule := [];
    } else {
      var p := NoDeadlock(job, s);
      var t := Step(job, s, p);
      StepInv(job, s, p);
      StepUsesOne(job, s, p);
      LeftNonNegative(job, t);
      var rest := CanFinish(job, t);
      schedule := [p] + rest;
      RunFrom(job, s, p, rest);
    }
  }

  lemma {:induction false} RunFrom(job: Job, s: State, p: nat, rest: seq<nat>)
    requires job.Valid() && Sized(job, s) && p < job.Size()
    requires forall i :: 0 <= i < |rest| ==> rest[i] < job.Size()
    ensures Run(job, s, [p] + rest) == Run(job, Step(job, s, p), rest)
  {
    var schedule := [p] + rest;
    if rest == [] {
      assert schedule[..0] == [];
    } else {
      assert schedule[..|schedule|-1] == [p] + rest[..|rest|-1];
      RunFrom(job, s, p, rest[..|rest|-1]);
    }
  }

  /** When everybody has finished, every rank holds the complete result of every round. */
  lemma FinishedRunsAreComplete(job: Job, s: State, p: nat)
    requires Reachable(job, s) && AllDone(s) && p < job.Size()
    ensures |s.procs[p].out| == job.rounds
    ensures forall r :: 0 <= r < job.rounds ==> IsGathered(job, r, s.procs[p].out[r])
  {
    ReachableInv(job, s);
    assert PartOk(job, s.procs[p], s.slots[p], p, s.published);
  }

  /** In no run do the processes get stuck: until all are done one of them can move, and all can still finish. */
  lemma NeverStuck(job: Job, s: State)
    requires Reachable(job, s)
    ensures !AllDone(s) ==> exists p :: 0 <= p < job.Size() && Enabled(job, s, p)
    ensures exists schedule: seq<nat> ::
      (forall i :: 0 <= i < |schedule| ==> schedule[i] < job.Size()) && AllDone(Run(job, s, schedule))
  {
    ReachableInv(job, s);
    if !AllDone(s) {
      var p := NoDeadlock(job, s);
    }
    var schedule := CanFinish(job, s);
  }

  // ---------------------------------------------------------------- fair runs

  predicate InRange(job: Job, schedule: seq<nat>) {
    forall i :: 0 <= i < |schedule| ==> schedule[i] < job.Size()
  }

  /** A stretch of a schedule in which every process gets at least one turn. */
  predicate Fair(job: Job, block: seq<nat>) {
    InRange(job, block) && forall p: nat :: p < job.Size() ==> p in block
  }

  function Joined(blocks: seq<seq<nat>>): (schedule: seq<nat>) {
    if blocks == [] then [] else Joined(blocks[..|blocks|-1]) + blocks[|blocks|-1]
  }

  lemma {:induction false} JoinedInRange(job: Job, blocks: seq<seq<nat>>)
    requires forall b :: 0 <= b < |blocks| ==> InRange(job, blocks[b])
    ensures InRange(job, Joined(blocks))
  {
    if blocks != [] {
      JoinedInRange(job, blocks[..|blocks|-1]);
    }
  }

  lemma {:induction false} RunJoined(job: Job, s: State, first: seq<nat>, second: seq<nat>)
    requires job.Valid() && Sized(job, s) && InRange(job, first) && InRange(job, second)
    ensures InRange(job, first + second)
    ensures Run(job, s, first + second) == Run(job, Run(job, s, first), second)
  {
    if second == [] {
      assert first + second == first;
    } else {
      var k := |second| - 1;
      RunJoined(job, s, first, second[..k]);
      assert (first + second)[..|first| + k] == first + second[..k];
    }
  }

  /** A process that can move is still able to when its turn comes, unless something has moved before. */
  lemma {:induction false} TurnComes(job: Job, s: State, p: nat, block: seq<nat>)
    requires Inv(job, s) && InRange(job, block) && p < job.Size() && Enabled(job, s, p)
    ensures var t := Run(job, s, block);
      && Inv(job, t)
      && (TotalLeft(job, t.procs) < TotalLeft(job, s.procs) || (t == s && p !in block))
  {
    hide Inv; hide Step; hide Enabled; hide TotalLeft;
    SizedByInv(job, s);
    if block != [] {
      var k := |block| - 1;
      TurnComes(job, s, p, block[..k]);
      var t := Run(job, s, block[..k]);
      StepInv(job, t, block[k]);
      if Step(job, t, block[k]) != t || (t == s && block[k] == p) {
        StepUsesOne(job, t, block[k]);
      }
    }
  }

  /** What is done stays done. */
  lemma {:induction false} DoneStays(job: Job, s: State, block: seq<nat>)
    requires job.Valid() && Sized(job, s) && InRange(job, block) && AllDone(s)
    ensures Run(job, s, block) == s
  {
    if block != [] {
      DoneStays(job, s, block[..|block|-1]);
    }
  }

  /** Every fair block uses up a step, until all are done. */
  lemma {:induction false} FairProgress(job: Job, s: State, blocks: seq<seq<nat>>)
    requires Inv(job, s) && forall b :: 0 <= b < |blocks| ==> Fair(job, blocks[b])
    ensures InRange(job, Joined(blocks))
    ensures var t := Run(job, s, Joined(blocks));
      Inv(job, t) && (AllDone(t) || TotalLeft(job, t.procs) + |blocks| <= TotalLeft(job, s.procs))
  {
    hide Inv; hide Step; hide Enabled; hide TotalLeft; hide AllDone;
    JoinedInRange(job, blocks);
    if blocks != [] {
      var k := |blocks| - 1;
      var block := blocks[k];
      FairProgress(job, s, blocks[..k]);
      SizedByInv(job, s);
      RunJoined(job, s, Joined(blocks[..k]), block);
      var t := Run(job, s, Joined(blocks[..k]));
      if AllDone(t) {
        DoneStays(job, t, block);
      } else {
        var p := NoDeadlock(job, t);
        TurnComes(job, t, p, block);
      }
    }
  }

  lemma SizedByInv(job: Job, s: State)
    requires Inv(job, s)
    ensures job.Valid() && Sized(job, s)
  {
  }

  /** Liveness under every fair schedule: from any reachable state, after as many stretches in which everybody gets a
      turn as there are steps left, all processes are done. */
  lemma FairRunsFinish(job: Job, s: State, blocks: seq<seq<nat>>)
    requires Reachable(job, s) && |blocks| >= TotalLeft(job, s.procs)
    requires forall b :: 0 <= b < |blocks| ==> Fair(job, blocks[b])
    ensures InRange(job, Joined(blocks))
    ensures AllDone(Run(job, s, Joined(blocks)))
  {
    hide Inv; hide Step; hide Enabled; hide TotalLeft;
    ReachableInv(job, s);
    FairProgress(job, s, blocks);
    var t := Run(job, s, Joined(blocks));
    LeftNonNegative(job, t);
    if !AllDone(t) {
      var p := NoDeadlock(job, t);
      StepInv(job, t, p);
      StepUsesOne(job, t, p);
      LeftNonNegative(job, Step(job, t, p));
    }
  }
}
