/** The resumable search: a state machine driven by whatever budgets its caller has, whose outcome
    is that of one sequential search. */
module StampSearches {
  import opened Bytes
  import opened IntDecoders
  import opened Message
  import opened Workblocks

  /** What a search is for; it never changes. */
  datatype Job = Job(material: digest, kind: StampKind, cost: byte, seed: key32, limit: nat)

  datatype Progress =
    | Preparing(completed: nat, total: nat)
    | Searching(attempts: nat)
    | Complete(stamp: key32, value: nat)
    | Exhausted
    | Cancelled

  /** The state of a search, apart from its job. */
  datatype State = State(completed: nat, attempts: nat, progress: Progress)

  function ZeroStamp(): key32 {
    Zeros(32)
  }

  // ---- the transitions ----

  function ValueAt(k: Kdf, job: Job, i: nat): nat {
    ValueOf(k, job.material, job.kind.Rounds(), NonceAt(job.seed, i))
  }

  predicate Hit(k: Kdf, job: Job, i: nat) {
    ValueAt(k, job, i) >= job.cost
  }

  function Start(job: Job): State {
    State(0, 0,
          if job.cost == 0 then Complete(ZeroStamp(), 0)
          else if job.limit == 0 then Exhausted
          else Preparing(0, job.kind.Rounds()))
  }

  /** `n` attempts, or fewer if one of them hits. */
  function Scan(k: Kdf, job: Job, s: State, n: nat): State
    decreases n
  {
    if n == 0 then
      s.(progress := if s.attempts == job.limit then Exhausted else Searching(s.attempts))
    else if Hit(k, job, s.attempts) then
      State(s.completed, s.attempts + 1, Complete(NonceAt(job.seed, s.attempts), ValueAt(k, job, s.attempts)))
    else
      Scan(k, job, s.(attempts := s.attempts + 1), n - 1)
  }

  /** One slice: preparation and search never happen in the same one. */
  function Step(k: Kdf, job: Job, s: State, rounds: nat, attempts: nat): State {
    match s.progress
    case Preparing(_, total) =>
      var left := if s.completed <= job.kind.Rounds() then job.kind.Rounds() - s.completed else 0;
      var completed := s.completed + Least(rounds, left);
      State(completed, s.attempts,
            if completed == job.kind.Rounds() then Searching(s.attempts) else Preparing(completed, total))
    case Searching(_) =>
      Scan(k, job, s, Least(attempts, if s.attempts <= job.limit then job.limit - s.attempts else 0))
    case _ => s
  }

  predicate Active(s: State) {
    s.progress.Preparing? || s.progress.Searching?
  }

  function Cancel(s: State): State {
    if Active(s) then s.(progress := Cancelled) else s
  }

  // ---- the object ----

  class StampSearch {
    ghost const job: Job
    const workblock: Workblock
    const nonce: array<byte>
    const cost: byte
    const limit: nat
    var attempts: nat
    var progress: Progress

    ghost function View(): State
      reads this, workblock
    {
      State(workblock.completed, attempts, progress)
    }

    ghost predicate Valid(k: Kdf)
      reads this, workblock, nonce
    {
      && workblock.Valid(k)
      && workblock.material == job.material && workblock.rounds == job.kind.Rounds()
      && nonce.Length == 32 && cost == job.cost && limit == job.limit
      && Inv(k, job, View())
      && (!progress.Complete? ==> nonce[..] == NonceAt(job.seed, attempts))
    }

    constructor (ghost k: Kdf, material: digest, kind: StampKind, cost: byte, seed: key32, limit: nat)
      ensures Valid(k) && job == Job(material, kind, cost, seed, limit) && View() == Start(job)
      ensures fresh(workblock) && fresh(nonce)
    {
      job := Job(material, kind, cost, seed, limit);
      workblock := new Workblock(k, material, kind);
      nonce := new byte[32](i requires 0 <= i < 32 => seed[i]);
      this.cost, this.limit, attempts := cost, limit, 0;
      progress := if cost == 0 then Complete(ZeroStamp(), 0)
                  else if limit == 0 then Exhausted
                  else Preparing(0, kind.Rounds());
      new;
      assert nonce[..] == seed;
    }

    method CancelSearch(ghost k: Kdf)
      requires Valid(k)
      modifies this
      ensures Valid(k) && View() == Cancel(old(View()))
    {
      if progress.Preparing? || progress.Searching? {
        progress := Cancelled;
      }
    }

    method Slice(k: Kdf, roundBudget: nat, attemptBudget: nat) returns (r: Progress)
      requires Valid(k)
      modifies this, workblock, nonce
      ensures Valid(k) && View() == Step(k, job, old(View()), roundBudget, attemptBudget) && r == progress
    {
      hide Scan;
      hide Hit;
      hide ValueAt;
      match progress {
        case Preparing(_, total) =>
          var ready := workblock.Advance(k, roundBudget);
          progress := if ready then Searching(attempts) else Preparing(workblock.completed, total);
        case Searching(_) => Search(k, attemptBudget);
        case _ =>
      }
      return progress;
    }

    /** The nonce in hand is the next of the search, and the block is ready to value it. */
    ghost predicate Armed(k: Kdf)
      reads this, workblock, nonce
    {
      && workblock.Valid(k)
      && workblock.material == job.material && workblock.rounds == job.kind.Rounds() == workblock.completed
      && nonce.Length == 32 && cost == job.cost && limit == job.limit
      && nonce[..] == NonceAt(job.seed, attempts)
    }

    /** One attempt: value the nonce, and stop there or step to the next. */
    method Attempt(k: Kdf) returns (hit: bool)
      requires Armed(k)
      modifies this`attempts, this`progress, nonce
      ensures attempts == old(attempts) + 1 && hit == Hit(k, job, old(attempts))
      ensures hit ==> progress == Complete(NonceAt(job.seed, old(attempts)), ValueAt(k, job, old(attempts)))
      ensures !hit ==> progress == old(progress) && Armed(k)
    {
      hide ValueOf;
      hide Increment;
      hide BlockPrefix;
      var value := workblock.Value(k, nonce[..]);
      attempts := attempts + 1;
      if value.value >= cost {
        progress := Complete(nonce[..], value.value);
        return true;
      }
      IncrementInPlace(nonce);
      NonceStep(job.seed, attempts);
      return false;
    }

    method Search(k: Kdf, attemptBudget: nat)
      requires Valid(k) && progress.Searching?
      modifies this, nonce
      ensures Valid(k) && View() == Scan(k, job, old(View()), Least(attemptBudget, limit - old(attempts)))
    {
      hide NonceAt;
      hide ValueAt;
      hide Hit;
      hide BlockPrefix;
      var n := Least(attemptBudget, limit - attempts);
      ghost var s := View();
      ScanKeeps(k, job, s, n);
      hide Inv;
      for i := 0 to n
        invariant progress == s.progress && attempts == s.attempts + i && Armed(k)
        invariant Scan(k, job, s, n) == Scan(k, job, s.(attempts := attempts), n - i)
      {
        var hit := Attempt(k);
        if hit {
          return;
        }
      }
      progress := if attempts == limit then Exhausted else Searching(attempts);
    }
  }

  // ---- what every state keeps ----

  ghost predicate NoHitBefore(k: Kdf, job: Job, n: nat) {
    forall i :: 0 <= i < n ==> !Hit(k, job, i)
  }

  ghost predicate Inv(k: Kdf, job: Job, s: State) {
    && s.completed <= job.kind.Rounds() && s.attempts <= job.limit
    && match s.progress
       case Preparing(completed, total) =>
         && completed == s.completed < total == job.kind.Rounds()
         && s.attempts == 0 < job.limit && job.cost > 0
       case Searching(attempts) =>
         && attempts == s.attempts < job.limit && job.cost > 0
         && s.completed == job.kind.Rounds() && NoHitBefore(k, job, s.attempts)
       case Complete(stamp, value) =>
         if job.cost == 0 then
           stamp == ZeroStamp() && value == 0 && s.attempts == 0
         else
           && s.attempts > 0 && Hit(k, job, s.attempts - 1) && NoHitBefore(k, job, s.attempts - 1)
           && stamp == NonceAt(job.seed, s.attempts - 1) && value == ValueAt(k, job, s.attempts - 1)
       case Exhausted => s.attempts == job.limit && job.cost > 0 && NoHitBefore(k, job, s.attempts)
       case Cancelled => job.cost > 0 && NoHitBefore(k, job, s.attempts)
  }

  lemma InitiallyInv(k: Kdf, job: Job)
    ensures Inv(k, job, Start(job))
  {
  }

  lemma {:induction false} ScanKeeps(k: Kdf, job: Job, s: State, n: nat)
    requires s.completed == job.kind.Rounds() && job.cost > 0 && s.attempts + n <= job.limit
    requires NoHitBefore(k, job, s.attempts)
    ensures Inv(k, job, Scan(k, job, s, n))
    ensures Scan(k, job, s, n).completed == s.completed
    ensures s.attempts <= Scan(k, job, s, n).attempts <= s.attempts + n
    ensures Active(Scan(k, job, s, n)) ==> Scan(k, job, s, n).attempts == s.attempts + n
    ensures !Scan(k, job, s, n).progress.Cancelled?
    decreases n
  {
    hide ValueAt;
    if n > 0 && !Hit(k, job, s.attempts) {
      ScanKeeps(k, job, s.(attempts := s.attempts + 1), n - 1);
    }
  }

  /** Every slice and every cancellation keep the invariant. */
  lemma StepKeeps(k: Kdf, job: Job, s: State, rounds: nat, attempts: nat)
    requires Inv(k, job, s)
    ensures Inv(k, job, Step(k, job, s, rounds, attempts))
  {
    hide Scan;
    hide Hit;
    if s.progress.Searching? {
      ScanKeeps(k, job, s, Least(attempts, job.limit - s.attempts));
    }
  }

  lemma CancelKeeps(k: Kdf, job: Job, s: State)
    requires Inv(k, job, s)
    ensures Inv(k, job, Cancel(s))
  {
  }

  /** No slice exceeds its budgets, and none both prepares and searches; while the search stays
      active it uses its budgets in full. */
  lemma StepWithinBudgets(k: Kdf, job: Job, s: State, rounds: nat, attempts: nat)
    requires Inv(k, job, s)
    ensures var t := Step(k, job, s, rounds, attempts);
            && s.completed <= t.completed <= s.completed + rounds
            && s.attempts <= t.attempts <= s.attempts + attempts
            && (t.completed == s.completed || t.attempts == s.attempts)
    ensures var t := Step(k, job, s, rounds, attempts);
            Active(s) && Active(t) && rounds > 0 && attempts > 0
            ==> t.completed + t.attempts > s.completed + s.attempts
    ensures var t, all := Step(k, job, s, rounds, attempts), job.kind.Rounds();
            && (s.progress.Preparing? ==> t.completed == (if s.completed + rounds < all then s.completed + rounds else all))
            && (s.progress.Preparing? ==> (t.progress.Searching? <==> s.completed + rounds >= all))
            && (s.progress.Searching? && Active(t) ==> t.attempts == s.attempts + attempts)
            && (s.progress.Searching? && t.progress.Exhausted? ==> s.attempts + attempts >= job.limit)
  {
    hide Scan;
    hide Hit;
    if s.progress.Searching? {
      ScanKeeps(k, job, s, Least(attempts, job.limit - s.attempts));
    }
  }

  /** Terminal states never change. */
  lemma TerminalIsStable(k: Kdf, job: Job, s: State, rounds: nat, attempts: nat)
    requires !Active(s)
    ensures Step(k, job, s, rounds, attempts) == s && Cancel(s) == s
  {
  }

  /** A cancellation ends an active search at once and touches nothing else. */
  lemma CancelMeaning(s: State)
    ensures s.progress.Preparing? || s.progress.Searching? ==> Cancel(s) == State(s.completed, s.attempts, Cancelled)
    ensures s.progress.Complete? || s.progress.Exhausted? || s.progress.Cancelled? ==> Cancel(s) == s
  {
  }

  // ---- whole runs ----

  datatype Event = Slice(rounds: nat, attempts: nat) | Stop

  function Handle(k: Kdf, job: Job, s: State, event: Event): State {
    match event
    case Slice(rounds, attempts) => Step(k, job, s, rounds, attempts)
    case Stop => Cancel(s)
  }

  /** The state after a run of events. */
  function Run(k: Kdf, job: Job, events: seq<Event>): State {
    if events == [] then
      Start(job)
    else
      Handle(k, job, Run(k, job, events[..|events| - 1]), events[|events| - 1])
  }

  lemma {:induction false} RunKeeps(k: Kdf, job: Job, events: seq<Event>)
    ensures Inv(k, job, Run(k, job, events))
  {
    hide Step;
    hide Inv;
    if events == [] {
      InitiallyInv(k, job);
    } else {
      var before, event := Run(k, job, events[..|events| - 1]), events[|events| - 1];
      RunKeeps(k, job, events[..|events| - 1]);
      match event {
        case Slice(rounds, attempts) => StepKeeps(k, job, before, rounds, attempts);
        case Stop => CancelKeeps(k, job, before);
      }
    }
  }

  /** Once stopped while active, a search stays cancelled whatever follows. */
  lemma {:induction false} StaysCancelled(k: Kdf, job: Job, events: seq<Event>, i: nat)
    requires i < |events| && events[i] == Stop && Active(Run(k, job, events[..i]))
    ensures Run(k, job, events).progress == Cancelled
    ensures Run(k, job, events).attempts == Run(k, job, events[..i]).attempts
    decreases |events|
  {
    hide Step;
    var prior := events[..|events| - 1];
    if i == |events| - 1 {
      CancelMeaning(Run(k, job, prior));
    } else {
      assert prior[..i] == events[..i];
      StaysCancelled(k, job, prior, i);
      var before, event := Run(k, job, prior), events[|events| - 1];
      match event {
        case Slice(rounds, attempts) => TerminalIsStable(k, job, before, rounds, attempts);
        case Stop => TerminalIsStable(k, job, before, 0, 0);
      }
    }
  }

  // ---- the sequential search ----

  /** The least attempt from `i` on that hits, if any does before the limit. */
  function FirstHit(k: Kdf, job: Job, i: nat): (r: Option<nat>)
    ensures r.Some? ==> i <= r.value < job.limit && Hit(k, job, r.value)
    ensures r.Some? ==> forall j :: i <= j < r.value ==> !Hit(k, job, j)
    ensures r.None? ==> forall j :: i <= j < job.limit ==> !Hit(k, job, j)
    decreases if i <= job.limit then job.limit - i else 0
  {
    if i >= job.limit then None else if Hit(k, job, i) then Some(i) else FirstHit(k, job, i + 1)
  }

  /** How a search that nobody cancels must end. */
  function Outcome(k: Kdf, job: Job): (nat, Progress) {
    if job.cost == 0 then
      (0, Complete(ZeroStamp(), 0))
    else
      match FirstHit(k, job, 0)
      case Some(i) => (i + 1, Complete(NonceAt(job.seed, i), ValueAt(k, job, i)))
      case None => (job.limit, Exhausted)
  }

  predicate Uncancelled(events: seq<Event>) {
    forall i :: 0 <= i < |events| ==> events[i].Slice?
  }

  lemma {:induction false} UncancelledRun(k: Kdf, job: Job, events: seq<Event>)
    requires Uncancelled(events)
    ensures !Run(k, job, events).progress.Cancelled?
  {
    hide Inv;
    if events != [] {
      var prior := events[..|events| - 1];
      UncancelledRun(k, job, prior);
      var before, event := Run(k, job, prior), events[|events| - 1];
      RunKeeps(k, job, prior);
      NotCancelledByStep(k, job, before, event.rounds, event.attempts);
      hide Step;
      assert Run(k, job, events) == Handle(k, job, before, event);
    }
  }

  lemma NotCancelledByStep(k: Kdf, job: Job, s: State, rounds: nat, attempts: nat)
    requires Inv(k, job, s) && !s.progress.Cancelled?
    ensures !Step(k, job, s, rounds, attempts).progress.Cancelled?
  {
    hide Scan;
    hide Hit;
    if s.progress.Searching? {
      ScanKeeps(k, job, s, Least(attempts, job.limit - s.attempts));
    }
  }

  /** A terminal state that was not cancelled is the outcome of the sequential search. */
  lemma TerminalIsOutcome(k: Kdf, job: Job, s: State)
    requires Inv(k, job, s) && !Active(s) && !s.progress.Cancelled?
    ensures s.attempts == Outcome(k, job).0 && s.progress == Outcome(k, job).1
  {
    hide Hit;
    hide ValueAt;
    hide NonceAt;
    if job.cost > 0 && s.progress.Complete? {
      var hit := FirstHit(k, job, 0);
      assert Hit(k, job, s.attempts - 1);
    }
  }

  /** Schedule independence: however the budgets slice it, a run that has ended without being
      cancelled has ended as the sequential search does, with the first nonce that reaches the
      cost, or with the limit spent when there is none. Only a cancellation cancels. */
  lemma ScheduleIndependence(k: Kdf, job: Job, events: seq<Event>)
    ensures var s := Run(k, job, events);
            !Active(s) && !s.progress.Cancelled?
            ==> s.attempts == Outcome(k, job).0 && s.progress == Outcome(k, job).1
    ensures Uncancelled(events) ==> !Run(k, job, events).progress.Cancelled?
  {
    hide *;
    RunKeeps(k, job, events);
    if Uncancelled(events) {
      UncancelledRun(k, job, events);
    }
    var s := Run(k, job, events);
    if !Active(s) && !s.progress.Cancelled? {
      TerminalIsOutcome(k, job, s);
    }
  }

  predicate Positive(events: seq<Event>) {
    forall i :: 0 <= i < |events| ==> events[i].Slice? && events[i].rounds > 0 && events[i].attempts > 0
  }

  lemma {:induction false} Progresses(k: Kdf, job: Job, events: seq<Event>)
    requires Positive(events)
    ensures var s := Run(k, job, events); Active(s) ==> s.completed + s.attempts >= |events|
  {
    hide Inv;
    if events != [] {
      var prior := events[..|events| - 1];
      Progresses(k, job, prior);
      RunKeeps(k, job, prior);
      var before, event := Run(k, job, prior), events[|events| - 1];
      StepWithinBudgets(k, job, before, event.rounds, event.attempts);
      TerminalIsStableIf(k, job, before, event.rounds, event.attempts);
      hide Step;
      assert Run(k, job, events) == Handle(k, job, before, event);
    }
  }

  lemma TerminalIsStableIf(k: Kdf, job: Job, s: State, rounds: nat, attempts: nat)
    ensures !Active(s) ==> Step(k, job, s, rounds, attempts) == s
  {
  }

  /** With budgets that allow any work at all, the end comes within rounds + limit slices. */
  lemma EndsInTime(k: Kdf, job: Job, events: seq<Event>)
    requires Positive(events) && |events| >= job.kind.Rounds() + job.limit
    ensures !Active(Run(k, job, events))
  {
    Progresses(k, job, events);
    RunKeeps(k, job, events);
    hide Run;
    hide Hit;
  }

  // ---- what a search finds, in numbers ----

  /** The hash of the block and a stamp, as a big-endian number, has at least `cost` zero bits in
      front. */
  ghost predicate Reaches(k: Kdf, block: bytes, stamp: key32, cost: nat)
    requires cost <= 256
  {
    BigEndian(k.sha256(block + stamp)) < Pow2(256 - cost)
  }

  /** `stamp` is the number seed + i, modulo 2^256. */
  ghost predicate IsNonce(seed: key32, i: nat, stamp: key32) {
    BigEndian(stamp) == (BigEndian(seed) + i) % Pow256(32)
  }

  /** None of the first `n` nonces reaches the cost. */
  ghost predicate NoneReaches(k: Kdf, job: Job, block: bytes, n: nat) {
    forall i, stamp: key32 :: 0 <= i < n && IsNonce(job.seed, i, stamp) ==> !Reaches(k, block, stamp, job.cost)
  }

  lemma NonceOnly(seed: key32, i: nat, stamp: key32)
    ensures IsNonce(seed, i, stamp) <==> stamp == NonceAt(seed, i)
  {
    NonceIsSum(seed, i);
    hide BigEndian;
    hide Pow256;
    hide NonceAt;
    if IsNonce(seed, i, stamp) {
      BigEndianInjective(stamp, NonceAt(seed, i));
    }
  }

  lemma ValueMeaning(k: Kdf, job: Job, block: bytes, i: nat, cost: nat)
    requires cost <= 256 && IsBlock(k, job.material, job.kind.Rounds(), block)
    ensures ValueAt(k, job, i) >= cost <==> Reaches(k, block, NonceAt(job.seed, i), cost)
  {
    hide BlockPrefix;
    hide IsBlock;
    hide LeadingZeros;
    hide NonceAt;
    hide Pow2;
    hide BigEndian;
    BlockUnique(k, job.material, job.kind.Rounds(), block);
    LeadingZerosMeaning(k.sha256(block + NonceAt(job.seed, i)), cost);
  }

  lemma ValueBound(k: Kdf, job: Job, i: nat)
    ensures ValueAt(k, job, i) <= 256
  {
    hide BlockPrefix;
    hide NonceAt;
    LeadingZerosBound(k.sha256(BlockPrefix(k, job.material, job.kind.Rounds()) + NonceAt(job.seed, i)));
  }

  lemma {:induction false} LeadingZerosBound(s: bytes)
    ensures LeadingZeros(s) <= 8 * |s|
  {
    if s != [] {
      LeadingZerosBound(s[1..]);
    }
  }

  lemma NoHitMeaning(k: Kdf, job: Job, block: bytes, n: nat)
    requires IsBlock(k, job.material, job.kind.Rounds(), block) && NoHitBefore(k, job, n)
    ensures NoneReaches(k, job, block, n)
  {
    hide ValueAt;
    hide Reaches;
    hide IsNonce;
    hide IsBlock;
    forall i, stamp: key32 | 0 <= i < n && IsNonce(job.seed, i, stamp)
      ensures !Reaches(k, block, stamp, job.cost)
    {
      assert !Hit(k, job, i);
      NonceOnly(job.seed, i, stamp);
      ValueMeaning(k, job, block, i, job.cost);
    }
  }

  /** The state of every run, in numbers: a search completes with the first nonce from the seed
      whose hash over the whole block reaches the cost, and the exact zero bits of that hash; it is
      exhausted when none of the first `limit` does; and no state hides a nonce that did. */
  lemma SearchMeaning(k: Kdf, job: Job, events: seq<Event>, block: bytes)
    requires job.cost > 0
    requires IsBlock(k, job.material, match job.kind case MessageStamp => 3000 case PropagationStamp => 1000 case PeeringStamp => 25, block)
    ensures var s := Run(k, job, events);
            && s.attempts <= job.limit
            && match s.progress
               case Complete(stamp, value) =>
                 && 0 < s.attempts && NoneReaches(k, job, block, s.attempts - 1)
                 && IsNonce(job.seed, s.attempts - 1, stamp) && Reaches(k, block, stamp, job.cost)
                 && value <= 256 && Reaches(k, block, stamp, value) && (value < 256 ==> !Reaches(k, block, stamp, value + 1))
               case Exhausted => s.attempts == job.limit && NoneReaches(k, job, block, job.limit)
               case Searching(n) => n == s.attempts < job.limit && NoneReaches(k, job, block, s.attempts)
               case Preparing(_, _) => s.attempts == 0 < job.limit
               case Cancelled => NoneReaches(k, job, block, s.attempts)
  {
    RunKeeps(k, job, events);
    var s := Run(k, job, events);
    hide Run;
    hide ValueAt;
    hide Reaches;
    hide IsNonce;
    hide IsBlock;
    hide NoneReaches;
    match s.progress {
      case Complete(stamp, value) =>
        var i := s.attempts - 1;
        NoHitMeaning(k, job, block, i);
        NonceOnly(job.seed, i, stamp);
        ValueMeaning(k, job, block, i, job.cost);
        ValueBound(k, job, i);
        ValueMeaning(k, job, block, i, value);
        if value < 256 {
          ValueMeaning(k, job, block, i, value + 1);
        }
      case Preparing(_, _) =>
      case _ => NoHitMeaning(k, job, block, s.attempts);
    }
  }

  /** A search that costs nothing is complete from the start, with the zero stamp, and one without
      attempts is exhausted; neither ever does any work. */
  lemma {:induction false} NothingToSearch(k: Kdf, job: Job, events: seq<Event>)
    requires job.cost == 0 || job.limit == 0
    ensures Run(k, job, events)
         == State(0, 0, if job.cost == 0 then Complete(seq(32, _ => 0), 0) else Exhausted)
  {
    hide Step;
    if events == [] {
      assert ZeroStamp() == seq(32, _ => 0);
    } else {
      var prior := events[..|events| - 1];
      NothingToSearch(k, job, prior);
      match events[|events| - 1] {
        case Slice(rounds, attempts) => TerminalIsStable(k, job, Run(k, job, prior), rounds, attempts);
        case Stop => TerminalIsStable(k, job, Run(k, job, prior), 0, 0);
      }
    }
  }
}
