/**
 An NVMe queue pair as a state machine. The host submits one command, rings the doorbell, polls the
 phase tag of the completion slot at its head, takes the completion and moves the head on, or gives
 up after a timeout. The controller fetches and completes commands at any time in between. After a
 timeout the completion of the abandoned command is still to come, and nothing ever removes it: the
 host stays behind by one completion for each timeout.
 */
module NvmeRing {

  const CID_WRAP: nat := 0xffff

  datatype Command = Command(cid: nat, body: nat)

  datatype Completion = Completion(cid: nat, phase: bool, result: nat)

  /** Where the host is in submit_wait. */
  datatype Pc = Idle | Written | Polling | Seen | Copied | Advanced

  /**
   `flying` and `origin` say which submitted command each one in flight and each completion is,
   `lost` which commands the controller will never fetch. `late` counts the timeouts.
   */
  datatype State = State(
    sq: seq<Command>, cq: seq<Completion>,
    sqTail: nat, cqHead: nat, cycle: bool, nextCid: nat, pc: Pc,
    sqDoorbell: nat, cqDoorbell: nat,
    sqHead: nat, cqTail: nat, phase: bool, inFlight: seq<Command>,
    submitted: seq<Command>, fetched: nat, posted: seq<Completion>, consumed: seq<Completion>,
    flying: seq<nat>, origin: seq<nat>, lost: set<nat>, late: nat)

  // Ring arithmetic

  /** The next index of a ring of `n` slots. */
  function Bump(i: nat, n: nat): nat {
    if i + 1 >= n then 0 else i + 1
  }

  /** The slot of the `k`-th entry of a ring of `n` slots. */
  function Slot(k: nat, n: nat): (i: nat)
    requires n > 0
    ensures i < n
  {
    k % n
  }

  /** The phase of the `k`-th entry of a ring of `n` slots: it flips each time the ring wraps. */
  function PhaseOf(k: nat, n: nat): bool
    requires n > 0
  {
    (k / n) % 2 == 0
  }

  lemma DivMod(k: nat, n: nat, q: nat, r: nat)
    requires n > 0 && k == q * n + r && r < n
    ensures k / n == q && k % n == r
  {
    var q', r' := k / n, k % n;
    assert k == q' * n + r';
    assert q' < q ==> (q' + 1) * n <= q * n;
    assert (q' + 1) * n == q' * n + n;
    assert q < q' ==> (q + 1) * n <= q' * n;
    assert (q + 1) * n == q * n + n;
  }

  lemma Wrap(k: nat, n: nat)
    requires n > 0
    ensures Slot(k + 1, n) == Bump(Slot(k, n), n)
    ensures PhaseOf(k + 1, n) == if Slot(k + 1, n) == 0 then !PhaseOf(k, n) else PhaseOf(k, n)
  {
    var q, r := k / n, k % n;
    assert k == q * n + r;
    if r + 1 < n {
      DivMod(k + 1, n, q, r + 1);
    } else {
      assert (q + 1) * n == q * n + n;
      DivMod(k + 1, n, q + 1, 0);
    }
  }

  /** Entries less than a ring apart have different slots. */
  lemma Apart(j: nat, k: nat, n: nat)
    requires n > 0 && j < k < j + n
    ensures Slot(j, n) != Slot(k, n)
  {
    var q, r := j / n, j % n;
    assert j == q * n + r;
    if r + (k - j) < n {
      DivMod(k, n, q, r + (k - j));
    } else {
      assert (q + 1) * n == q * n + n;
      DivMod(k, n, q + 1, r + (k - j) - n);
    }
  }

  lemma OneRound(k: nat, n: nat)
    requires n > 0
    ensures Slot(k + n, n) == Slot(k, n) && PhaseOf(k + n, n) == !PhaseOf(k, n)
    ensures k < n ==> Slot(k, n) == k && PhaseOf(k, n)
  {
    var q, r := k / n, k % n;
    assert k == q * n + r;
    assert (q + 1) * n == q * n + n;
    DivMod(k + n, n, q + 1, r);
    if k < n {
      DivMod(k, n, 0, k);
    }
  }

  // Steps

  ghost predicate Init(s: State) {
    && |s.sq| > 0 && |s.cq| > 0
    && (forall i :: 0 <= i < |s.cq| ==> s.cq[i] == Completion(0, false, 0))
    && s.sqTail == 0 && s.cqHead == 0 && s.cycle && s.nextCid == 0 && s.pc == Idle
    && s.sqDoorbell == 0 && s.cqDoorbell == 0
    && s.sqHead == 0 && s.cqTail == 0 && s.phase && s.inFlight == []
    && s.submitted == [] && s.fetched == 0 && s.posted == [] && s.consumed == []
    && s.flying == [] && s.origin == [] && s.lost == {} && s.late == 0
  }

  ghost predicate Sane(s: State) {
    s.sqTail < |s.sq| && s.cqHead < |s.cq| && s.sqHead < |s.sq| && s.cqTail < |s.cq|
  }

  function NextCid(cid: nat): nat {
    if cid + 1 == CID_WRAP then 0 else cid + 1
  }

  /** A whole ring of commands waits to be fetched: the doorbell stands where the controller's head is. */
  ghost predicate RingFull(s: State) {
    |s.submitted| - s.fetched == |s.sq|
  }

  ghost function Range(lo: nat, hi: nat): (r: set<nat>)
    ensures forall x :: x in r <==> lo <= x < hi
    ensures lo <= hi ==> |r| == hi - lo
  {
    if hi <= lo then {} else Range(lo, hi - 1) + {hi - 1}
  }

  /** The commands that wait to be fetched. */
  ghost function Waiting(s: State): set<nat> {
    Range(s.fetched, |s.submitted|)
  }

  /**
   The command gets its id and its slot, and the tail moves on. If a whole ring of commands was
   waiting, the controller sees no more than the new one, and those that waited are lost.
   */
  ghost predicate Write(s: State, s': State, body: nat) {
    && s.pc == Idle && Sane(s)
    && var cmd := Command(s.nextCid, body);
       s' == s.(sq := s.sq[s.sqTail := cmd], sqTail := Bump(s.sqTail, |s.sq|), nextCid := NextCid(s.nextCid),
                pc := Written, submitted := s.submitted + [cmd],
                fetched := (if RingFull(s) then |s.submitted| else s.fetched),
                lost := s.lost + (if RingFull(s) then Waiting(s) else {}))
  }

  ghost predicate Ring(s: State, s': State) {
    s.pc == Written && s' == s.(sqDoorbell := s.sqTail, pc := Polling)
  }

  /** The phase tag of the slot at the head is the one the host waits for. */
  ghost predicate See(s: State, s': State) {
    s.pc == Polling && Sane(s) && s.cq[s.cqHead].phase == s.cycle && s' == s.(pc := Seen)
  }

  ghost predicate Copy(s: State, s': State) {
    s.pc == Seen && Sane(s) && s' == s.(consumed := s.consumed + [s.cq[s.cqHead]], pc := Copied)
  }

  ghost predicate Advance(s: State, s': State) {
    && s.pc == Copied && Sane(s)
    && var head := Bump(s.cqHead, |s.cq|);
       s' == s.(cqHead := head, cycle := (if head == 0 then !s.cycle else s.cycle), pc := Advanced)
  }

  ghost predicate Release(s: State, s': State) {
    s.pc == Advanced && s' == s.(cqDoorbell := s.cqHead, pc := Idle)
  }

  /** The host has polled long enough and gives up. */
  ghost predicate Timeout(s: State, s': State) {
    s.pc == Polling && s' == s.(late := s.late + 1, pc := Idle)
  }

  /** The controller fetches a command it can see. */
  ghost predicate Fetch(s: State, s': State) {
    && Sane(s) && s.sqHead != s.sqDoorbell
    && s' == s.(sqHead := Bump(s.sqHead, |s.sq|), inFlight := s.inFlight + [s.sq[s.sqHead]], fetched := s.fetched + 1,
                flying := s.flying + [s.fetched])
  }

  /** The sequence without its `i`-th element. */
  function Without<T>(a: seq<T>, i: nat): seq<T>
    requires i < |a|
  {
    a[..i] + a[i + 1..]
  }

  /** The state after the completion `c` of the `i`-th command in flight. */
  ghost function Posting(s: State, i: nat, c: Completion): State
    requires Sane(s) && i < |s.inFlight| == |s.flying|
  {
    var tail := Bump(s.cqTail, |s.cq|);
    s.(cq := s.cq[s.cqTail := c], cqTail := tail, phase := (if tail == 0 then !s.phase else s.phase),
       inFlight := Without(s.inFlight, i), posted := s.posted + [c],
       flying := Without(s.flying, i), origin := s.origin + [s.flying[i]])
  }

  /** The controller completes any command it has fetched, if the completion queue is not full. */
  ghost predicate Post(s: State, s': State, i: nat, result: nat) {
    && Sane(s) && i < |s.inFlight| == |s.flying| && Bump(s.cqTail, |s.cq|) != s.cqDoorbell
    && s' == Posting(s, i, Completion(s.inFlight[i].cid, s.phase, result))
  }

  ghost predicate HostStep(s: State, s': State) {
    || (exists body :: Write(s, s', body))
    || Ring(s, s') || See(s, s') || Copy(s, s') || Advance(s, s') || Release(s, s') || Timeout(s, s')
  }

  ghost predicate ControllerStep(s: State, s': State) {
    Fetch(s, s') || exists i, result :: Post(s, s', i, result)
  }

  /** One step of either side; a poll that finds the old phase changes nothing. */
  ghost predicate Step(s: State, s': State) {
    HostStep(s, s') || ControllerStep(s, s') || s' == s
  }

  // The invariant

  /** How many completions the host's head has passed. */
  ghost function Passed(s: State): int {
    |s.consumed| - if s.pc == Copied then 1 else 0
  }

  /** The indices and phases count entries. */
  ghost predicate Indices(s: State)
    requires |s.sq| > 0 && |s.cq| > 0
  {
    && Passed(s) >= 0 && (s.pc == Advanced ==> Passed(s) >= 1) && (s.pc == Written ==> s.submitted != [])
    && s.sqTail == Slot(|s.submitted|, |s.sq|)
    && s.sqDoorbell == Slot(|s.submitted| - (if s.pc == Written then 1 else 0), |s.sq|)
    && s.sqHead == Slot(s.fetched, |s.sq|)
    && s.cqHead == Slot(Passed(s), |s.cq|) && s.cycle == PhaseOf(Passed(s), |s.cq|)
    && s.cqDoorbell == Slot(Passed(s) - (if s.pc == Advanced then 1 else 0), |s.cq|)
    && s.cqTail == Slot(|s.posted|, |s.cq|) && s.phase == PhaseOf(|s.posted|, |s.cq|)
    && s.nextCid == Slot(|s.submitted|, CID_WRAP)
  }

  /** How many completions the host has given back. */
  ghost function Returned(s: State): int {
    Passed(s) - if s.pc == Advanced then 1 else 0
  }

  /** How far each side has come: neither ring is overrun. */
  ghost predicate Progress(s: State) {
    && |s.consumed| <= |s.posted| <= s.fetched <= |s.submitted|
    && |s.submitted| == |s.consumed| + s.late + (if s.pc in {Written, Polling, Seen} then 1 else 0)
    && (s.pc == Written ==> s.fetched < |s.submitted|)
    && (s.pc == Seen ==> |s.consumed| < |s.posted|)
    && |s.submitted| - s.fetched <= |s.sq|
    && |s.posted| - Returned(s) < |s.cq|
  }

  /** The submission slots hold the commands not yet fetched. */
  ghost predicate Announced(sq: seq<Command>, submitted: seq<Command>, fetched: nat)
    requires |sq| > 0
  {
    forall j: nat :: fetched <= j < |submitted| ==> sq[Slot(j, |sq|)] == submitted[j]
  }

  /** The completion slots hold the last ring of completions, and no phase before the first round. */
  ghost predicate Answered(cq: seq<Completion>, posted: seq<Completion>)
    requires |cq| > 0
  {
    && (forall j: nat :: |posted| - |cq| <= j < |posted| ==> cq[Slot(j, |cq|)] == posted[j])
    && (forall i: nat :: |posted| <= i < |cq| ==> !cq[i].phase)
  }

  ghost predicate Phases(posted: seq<Completion>, n: nat)
    requires n > 0
  {
    forall i :: 0 <= i < |posted| ==> posted[i].phase == PhaseOf(i, n)
  }

  ghost predicate Numbered(submitted: seq<Command>) {
    forall i :: 0 <= i < |submitted| ==> submitted[i].cid == Slot(i, CID_WRAP)
  }

  ghost predicate Different(a: seq<nat>, n: nat) {
    && (forall k :: 0 <= k < |a| ==> a[k] < n)
    && (forall k, m :: 0 <= k < m < |a| ==> a[k] != a[m])
  }

  /** Each command that does not wait is completed, in flight or lost, and only one of these. */
  ghost predicate Origins(
    submitted: seq<Command>, fetched: nat, inFlight: seq<Command>, posted: seq<Completion>,
    flying: seq<nat>, origin: seq<nat>, lost: set<nat>)
  {
    && |flying| == |inFlight| && |origin| == |posted| && |origin + flying| + |lost| == fetched <= |submitted|
    && Different(origin + flying, fetched)
    && (forall x :: x in lost ==> x < fetched && x !in origin + flying)
    && (forall k :: 0 <= k < |flying| ==> flying[k] < fetched && inFlight[k] == submitted[flying[k]])
    && (forall k :: 0 <= k < |origin| ==> origin[k] < fetched && posted[k].cid == submitted[origin[k]].cid)
  }

  /** The controller has completed the commands in the order in which they were submitted. */
  ghost predicate InOrder(origin: seq<nat>, flying: seq<nat>) {
    && (forall k :: 0 <= k < |origin| ==> origin[k] == k)
    && (forall k :: 0 <= k < |flying| ==> flying[k] == |origin| + k)
  }

  /** The command that the host works on, or the number of commands when it works on none. */
  ghost function Last(s: State): int {
    |s.submitted| - if s.pc in {Written, Polling, Seen} then 1 else 0
  }

  /** What the host has taken and what is lost are commands before the present one. */
  ghost predicate Older(origin: seq<nat>, lost: set<nat>, taken: nat, last: int) {
    && (forall k :: 0 <= k < taken && k < |origin| ==> origin[k] < last)
    && (forall x :: x in lost ==> x < last)
  }

  /** What is in the slots, and what has happened. */
  ghost predicate Contents(s: State)
    requires |s.sq| > 0 && |s.cq| > 0 && Progress(s)
  {
    && Announced(s.sq, s.submitted, s.fetched) && Answered(s.cq, s.posted)
    && Numbered(s.submitted) && Phases(s.posted, |s.cq|)
    && Origins(s.submitted, s.fetched, s.inFlight, s.posted, s.flying, s.origin, s.lost)
    && (s.late == 0 ==> InOrder(s.origin, s.flying)) && (s.late < |s.sq| ==> s.lost == {})
    && Older(s.origin, s.lost, |s.consumed|, Last(s))
    && s.consumed == s.posted[..|s.consumed|]
  }

  ghost predicate Inv(s: State) {
    |s.sq| > 0 && |s.cq| > 0 && Indices(s) && Progress(s) && Contents(s)
  }

  /**
   The phase test is exact: a host that has passed `c` completions, with at most a ring of them
   waiting, sees the phase it waits for just when there is one more, and then finds that one.
   */
  lemma PhaseExact(cq: seq<Completion>, posted: seq<Completion>, c: nat)
    requires |cq| > 0 && c <= |posted| <= c + |cq|
    requires Answered(cq, posted) && Phases(posted, |cq|)
    ensures cq[Slot(c, |cq|)].phase == PhaseOf(c, |cq|) <==> |posted| > c
    ensures |posted| > c ==> cq[Slot(c, |cq|)] == posted[c]
  {
    hide Slot;
    hide PhaseOf;
    var n := |cq|;
    if |posted| > c {
      assert cq[Slot(c, n)] == posted[c];
    } else if c < n {
      OneRound(c, n);
    } else {
      OneRound(c - n, n);
      assert cq[Slot(c - n, n)] == posted[c - n];
      assert c - n + n == c;
    }
  }

  lemma InvSane(s: State)
    requires Inv(s)
    ensures Sane(s)
  {
  }

  lemma SlotZero(n: nat)
    requires n > 0
    ensures Slot(0, n) == 0 && PhaseOf(0, n)
  {
    OneRound(0, n);
  }

  lemma InitInv(s: State)
    requires Init(s)
    ensures Inv(s)
  {
    hide Slot;
    hide PhaseOf;
    SlotZero(|s.sq|);
    SlotZero(|s.cq|);
    SlotZero(CID_WRAP);
  }

  lemma WriteOrigins(s: State, s': State, cmd: Command)
    requires Origins(s.submitted, s.fetched, s.inFlight, s.posted, s.flying, s.origin, s.lost)
    requires s'.submitted == s.submitted + [cmd] && s'.inFlight == s.inFlight && s'.posted == s.posted
    requires s'.flying == s.flying && s'.origin == s.origin
    requires s'.fetched == if RingFull(s) then |s.submitted| else s.fetched
    requires s'.lost == s.lost + if RingFull(s) then Waiting(s) else {}
    ensures Origins(s'.submitted, s'.fetched, s'.inFlight, s'.posted, s'.flying, s'.origin, s'.lost)
  {
    assert s.lost !! Waiting(s);
  }

  lemma AnnouncedWrite(s: State, cmd: Command)
    requires |s.sq| > 0 && Announced(s.sq, s.submitted, s.fetched) && |s.submitted| - s.fetched <= |s.sq|
    ensures var fetched' := if RingFull(s) then |s.submitted| else s.fetched;
            Announced(s.sq[Slot(|s.submitted|, |s.sq|) := cmd], s.submitted + [cmd], fetched')
  {
    hide Slot;
    forall j: nat | s.fetched <= j < |s.submitted| && !RingFull(s)
      ensures Slot(j, |s.sq|) != Slot(|s.submitted|, |s.sq|)
    {
      Apart(j, |s.submitted|, |s.sq|);
    }
  }

  /** The controller's head does not notice that a ring of commands has been lost. */
  lemma HeadStays(s: State)
    requires |s.sq| > 0 && s.fetched <= |s.submitted|
    ensures RingFull(s) ==> Slot(|s.submitted|, |s.sq|) == Slot(s.fetched, |s.sq|)
  {
    OneRound(s.fetched, |s.sq|);
  }

  lemma NumberedGrow(submitted: seq<Command>, cmd: Command)
    requires Numbered(submitted) && cmd.cid == Slot(|submitted|, CID_WRAP)
    ensures Numbered(submitted + [cmd])
  {
  }

  lemma OriginsBounds(s: State)
    requires Origins(s.submitted, s.fetched, s.inFlight, s.posted, s.flying, s.origin, s.lost)
    ensures |s.origin| == |s.posted| && |s.flying| == |s.inFlight|
    ensures |s.posted| + |s.flying| + |s.lost| == s.fetched <= |s.submitted|
    ensures forall k :: 0 <= k < |s.origin| ==> s.origin[k] < s.fetched
    ensures forall x :: x in s.lost ==> x < s.fetched
  {
  }

  lemma OlderWrite(s: State, s': State)
    requires Origins(s.submitted, s.fetched, s.inFlight, s.posted, s.flying, s.origin, s.lost)
    requires s'.origin == s.origin && s'.lost == s.lost + if RingFull(s) then Waiting(s) else {}
    ensures Older(s'.origin, s'.lost, |s.consumed|, |s.submitted|)
  {
  }

  lemma OlderPost(origin: seq<nat>, lost: set<nat>, taken: nat, last: int, x: nat)
    requires Older(origin, lost, taken, last) && taken <= |origin|
    ensures Older(origin + [x], lost, taken, last)
  {
  }

  lemma WriteInv(s: State, s': State, body: nat)
    requires Inv(s) && Write(s, s', body)
    ensures Inv(s')
  {
    hide Slot;
    hide PhaseOf;
    hide Announced;
    hide Answered;
    hide Numbered;
    hide Phases;
    hide Origins;
    hide InOrder;
    hide Older;
    hide Range;
    var cmd := Command(s.nextCid, body);
    Wrap(|s.submitted|, |s.sq|);
    Wrap(|s.submitted|, CID_WRAP);
    HeadStays(s);
    OlderWrite(s, s');
    WriteOrigins(s, s', cmd);
    AnnouncedWrite(s, cmd);
    NumberedGrow(s.submitted, cmd);
  }

  lemma QuietInv(s: State, s': State)
    requires Inv(s) && (Ring(s, s') || Release(s, s') || Timeout(s, s'))
    ensures Inv(s')
  {
    hide Slot;
    hide PhaseOf;
    hide Announced;
    hide Answered;
    hide Numbered;
    hide Phases;
    hide Origins;
    hide InOrder;
  }

  /** The host accepts a slot only after the controller has posted it in this round. */
  lemma SeeInv(s: State, s': State)
    requires Inv(s) && See(s, s')
    ensures Inv(s') && |s.posted| > |s.consumed|
  {
    hide Slot;
    hide PhaseOf;
    hide Announced;
    hide Answered;
    hide Numbered;
    hide Phases;
    hide Origins;
    hide InOrder;
    PhaseExact(s.cq, s.posted, |s.consumed|);
  }

  /** What the host takes is the next completion that was posted. */
  lemma CopyInv(s: State, s': State)
    requires Inv(s) && Copy(s, s')
    ensures Inv(s') && s'.consumed == s.posted[..|s.consumed| + 1]
  {
    hide Slot;
    hide PhaseOf;
    hide Announced;
    hide Answered;
    hide Numbered;
    hide Phases;
    hide Origins;
    hide InOrder;
    PhaseExact(s.cq, s.posted, |s.consumed|);
    OriginsBounds(s);
    assert s.posted[..|s.consumed| + 1] == s.posted[..|s.consumed|] + [s.posted[|s.consumed|]];
  }

  lemma AdvanceInv(s: State, s': State)
    requires Inv(s) && Advance(s, s')
    ensures Inv(s')
  {
    hide Slot;
    hide PhaseOf;
    hide Announced;
    hide Answered;
    hide Numbered;
    hide Phases;
    hide Origins;
    hide InOrder;
    Wrap(Passed(s), |s.cq|);
  }

  lemma FetchOrigins(s: State)
    requires Origins(s.submitted, s.fetched, s.inFlight, s.posted, s.flying, s.origin, s.lost)
    requires s.fetched < |s.submitted|
    ensures Origins(s.submitted, s.fetched + 1, s.inFlight + [s.submitted[s.fetched]], s.posted,
                    s.flying + [s.fetched], s.origin, s.lost)
    ensures InOrder(s.origin, s.flying) && s.lost == {} ==> InOrder(s.origin, s.flying + [s.fetched])
  {
    assert s.origin + (s.flying + [s.fetched]) == s.origin + s.flying + [s.fetched];
  }

  lemma FetchNext(s: State)
    requires Inv(s) && s.sqHead != s.sqDoorbell
    ensures s.fetched < |s.submitted| && s.sq[s.sqHead] == s.submitted[s.fetched]
    ensures s.pc == Written ==> s.fetched + 1 < |s.submitted|
    ensures Announced(s.sq, s.submitted, s.fetched + 1)
  {
    hide Slot;
    hide PhaseOf;
    hide Answered;
    hide Numbered;
    hide Phases;
    hide Origins;
    hide InOrder;
    assert s.sq[Slot(s.fetched, |s.sq|)] == s.submitted[s.fetched];
  }

  lemma FetchInv(s: State, s': State)
    requires Inv(s) && Fetch(s, s')
    ensures Inv(s')
  {
    hide Slot;
    hide PhaseOf;
    hide Announced;
    hide Answered;
    hide Numbered;
    hide Phases;
    hide Origins;
    hide InOrder;
    hide Older;
    hide Range;
    Wrap(s.fetched, |s.sq|);
    FetchNext(s);
    FetchOrigins(s);
  }

  lemma PostAnswered(cq: seq<Completion>, posted: seq<Completion>, c: Completion)
    requires |cq| > 0 && Answered(cq, posted)
    ensures Answered(cq[Slot(|posted|, |cq|) := c], posted + [c])
  {
    hide Slot;
    var n, p := |cq|, |posted|;
    forall j: nat | p + 1 - n <= j < p
      ensures Slot(j, n) != Slot(p, n) && cq[Slot(j, n)] == posted[j]
    {
      Apart(j, p, n);
    }
    if p < n {
      OneRound(p, n);
    }
  }

  lemma PhasesGrow(posted: seq<Completion>, n: nat, c: Completion)
    requires n > 0 && Phases(posted, n) && c.phase == PhaseOf(|posted|, n)
    ensures Phases(posted + [c], n)
  {
  }

  /** Where the `k`-th stood before the `i`-th behind `n` moved to `n`. */
  function WasAt(n: nat, i: nat, k: nat): nat {
    if k < n || k > n + i then k else if k == n then n + i else k - 1
  }

  /** The completed command moves from those in flight to those completed. */
  lemma Moved(a: seq<nat>, b: seq<nat>, i: nat, n: nat)
    requires i < |b| && Different(a + b, n)
    ensures var c := a + [b[i]] + (b[..i] + b[i + 1..]);
            |c| == |a + b| && Different(c, n) && forall x :: x in c <==> x in a + b
  {
    var c := a + [b[i]] + (b[..i] + b[i + 1..]);
    forall k | 0 <= k < |c|
      ensures c[k] == (a + b)[WasAt(|a|, i, k)]
    {
    }
  }

  lemma PostOrigins(s: State, i: nat, c: Completion)
    requires Origins(s.submitted, s.fetched, s.inFlight, s.posted, s.flying, s.origin, s.lost)
    requires i < |s.inFlight| && c.cid == s.inFlight[i].cid
    ensures Origins(s.submitted, s.fetched, Without(s.inFlight, i), s.posted + [c],
                    Without(s.flying, i), s.origin + [s.flying[i]], s.lost)
    ensures i == 0 && InOrder(s.origin, s.flying) ==>
              InOrder(s.origin + [s.flying[i]], Without(s.flying, i))
  {
    Moved(s.origin, s.flying, i, s.fetched);
  }

  /** The guard of a completion: the ring has room for it. */
  lemma PostRoom(s: State)
    requires Inv(s) && Bump(s.cqTail, |s.cq|) != s.cqDoorbell
    ensures |s.posted| + 1 - Returned(s) < |s.cq|
  {
    hide PhaseOf;
    hide Contents;
    Wrap(|s.posted|, |s.cq|);
    hide Slot;
    if |s.posted| + 1 == Returned(s) + |s.cq| {
      OneRound(Returned(s), |s.cq|);
    }
  }

  lemma Outstanding(s: State)
    requires Inv(s)
    ensures |s.flying| == |s.inFlight| == s.fetched - |s.posted| - |s.lost| && |s.origin| == |s.posted|
    ensures s.late == 0 ==> |s.inFlight| <= 1 && s.lost == {}
  {
  }

  lemma PostInv(s: State, s': State, i: nat, result: nat)
    requires Inv(s) && Post(s, s', i, result)
    ensures Inv(s') && (i == 0 && InOrder(s.origin, s.flying) ==> InOrder(s'.origin, s'.flying))
  {
    hide Slot;
    hide PhaseOf;
    hide Announced;
    hide Answered;
    hide Numbered;
    hide Phases;
    hide Origins;
    hide InOrder;
    hide Older;
    hide Range;
    var c := Completion(s.inFlight[i].cid, s.phase, result);
    Outstanding(s);
    PostRoom(s);
    PostAnswered(s.cq, s.posted, c);
    PhasesGrow(s.posted, |s.cq|, c);
    PostOrigins(s, i, c);
    OlderPost(s.origin, s.lost, |s.consumed|, Last(s), s.flying[i]);
    Wrap(|s.posted|, |s.cq|);
    assert (s.posted + [c])[..|s.consumed|] == s.posted[..|s.consumed|];
  }

  lemma StepInv(s: State, s': State)
    requires Inv(s) && Step(s, s')
    ensures Inv(s')
  {
    hide Inv;
    if body :| Write(s, s', body) {
      WriteInv(s, s', body);
    } else if Ring(s, s') || Release(s, s') || Timeout(s, s') {
      QuietInv(s, s');
    } else if See(s, s') {
      SeeInv(s, s');
    } else if Copy(s, s') {
      CopyInv(s, s');
    } else if Advance(s, s') {
      AdvanceInv(s, s');
    } else if Fetch(s, s') {
      FetchInv(s, s');
    } else if i, result :| Post(s, s', i, result) {
      PostInv(s, s', i, result);
    }
  }

  // Whole runs

  ghost predicate IsRun(run: seq<State>) {
    run != [] && Init(run[0]) && forall i :: 0 <= i < |run| - 1 ==> Step(run[i], run[i + 1])
  }

  lemma {:induction false} RunInv(run: seq<State>, i: nat)
    requires IsRun(run) && i < |run|
    ensures Inv(run[i])
  {
    hide Init;
    hide Step;
    hide Inv;
    if i == 0 {
      InitInv(run[0]);
    } else {
      RunInv(run, i - 1);
      StepInv(run[i - 1], run[i]);
    }
  }

  /**
   In every run each command is in exactly one place: completed, in flight, lost, or waiting to be
   fetched. None is lost before there have been as many timeouts as submission slots.
   */
  lemma Accounted(run: seq<State>, i: nat, x: nat)
    requires IsRun(run) && i < |run| && x < |run[i].submitted|
    ensures var s := run[i];
            var places := [x in s.origin, x in s.flying, x in s.lost, x >= s.fetched];
            && (exists k :: 0 <= k < 4 && places[k])
            && (forall k, l :: 0 <= k < l < 4 ==> !(places[k] && places[l]))
            && (s.late < |s.sq| ==> x !in s.lost)
  {
    RunInv(run, i);
    hide Init;
    hide Step;
    var s := run[i];
    InOnePlace(s, x);
    var places := [x in s.origin, x in s.flying, x in s.lost, x >= s.fetched];
    assert places[0] || places[1] || places[2] || places[3];
  }

  ghost function Elements(a: seq<nat>): (r: set<nat>)
    ensures forall y :: y in r <==> y in a
  {
    if a == [] then {} else assert a == a[..|a| - 1] + [a[|a| - 1]]; Elements(a[..|a| - 1]) + {a[|a| - 1]}
  }

  lemma DifferentFront(a: seq<nat>, n: nat)
    requires a != [] && Different(a, n)
    ensures Different(a[..|a| - 1], n) && a[|a| - 1] !in a[..|a| - 1]
  {
  }

  lemma {:induction false} ElementsSize(a: seq<nat>, n: nat)
    requires Different(a, n)
    ensures |Elements(a)| == |a|
  {
    hide Different;
    if a != [] {
      DifferentFront(a, n);
      ElementsSize(a[..|a| - 1], n);
    }
  }

  /** Nothing below `n` is missing from `n` different numbers below `n`. */
  lemma AllThere(a: seq<nat>, lost: set<nat>, n: nat, x: nat)
    requires Different(a, n) && |a| + |lost| == n && x < n && forall y :: y in lost ==> y < n && y !in a
    ensures x in a || x in lost
  {
    ElementsSize(a, n);
    var there := Elements(a);
    assert there !! lost;
    assert |there + lost| == n;
    Full(Range(0, n), there + lost);
  }

  lemma Full(all: set<nat>, part: set<nat>)
    requires part <= all && |part| == |all|
    ensures part == all
  {
    if x :| x in all && x !in part {
      assert part <= all - {x};
      Smaller(part, all - {x});
    }
  }

  lemma {:induction false} Smaller(a: set<nat>, b: set<nat>)
    requires a <= b
    ensures |a| <= |b|
  {
    if a != {} {
      var x :| x in a;
      Smaller(a - {x}, b - {x});
    }
  }

  lemma InOnePlace(s: State, x: nat)
    requires Inv(s) && x < |s.submitted|
    ensures x in s.origin || x in s.flying || x in s.lost || x >= s.fetched
    ensures !(x in s.origin && x in s.flying) && !(x in s.lost && (x in s.origin || x in s.flying))
    ensures x >= s.fetched ==> x !in s.origin && x !in s.flying && x !in s.lost
    ensures s.late < |s.sq| ==> x !in s.lost
  {
    hide Slot;
    hide PhaseOf;
    var a := s.origin + s.flying;
    assert forall y :: y in a <==> y in s.origin || y in s.flying;
    if x < s.fetched {
      AllThere(a, s.lost, s.fetched, x);
    }
    forall k, l | 0 <= k < |s.origin| && 0 <= l < |s.flying|
      ensures s.origin[k] != s.flying[l]
    {
      assert a[k] == s.origin[k] && a[|s.origin| + l] == s.flying[l];
    }
  }

  /** In every run a command that is lost stays lost: it is never fetched and never completed. */
  lemma {:induction false} LostForGood(run: seq<State>, i: nat, j: nat)
    requires IsRun(run) && i <= j < |run|
    ensures run[i].lost <= run[j].lost
    ensures forall x :: x in run[i].lost ==> x !in run[j].origin && x !in run[j].flying
    decreases j - i
  {
    hide Init;
    hide Step;
    hide Inv;
    if i < j {
      LostForGood(run, i, j - 1);
      StepLost(run[j - 1], run[j]);
    }
    RunInv(run, j);
    forall x | x in run[j].lost
      ensures x !in run[j].origin && x !in run[j].flying
    {
      LostNotFetched(run[j], x);
    }
  }

  lemma StepLost(s: State, s': State)
    requires Step(s, s')
    ensures s.lost <= s'.lost
  {
  }

  lemma LostNotFetched(s: State, x: nat)
    requires Inv(s) && x in s.lost
    ensures x !in s.origin && x !in s.flying
  {
    assert forall y :: y in s.origin + s.flying <==> y in s.origin || y in s.flying;
  }

  /**
   In every run a write loses commands exactly when a whole ring of them waits, and then all of these;
   the first of them is overwritten on the spot.
   */
  lemma Overrun(run: seq<State>, i: nat, body: nat)
    requires IsRun(run) && i + 1 < |run| && Write(run[i], run[i + 1], body)
    ensures run[i + 1].lost != run[i].lost <==> RingFull(run[i])
    ensures RingFull(run[i]) ==>
              var s, s' := run[i], run[i + 1];
              && s.late >= |s.sq| && s'.lost == s.lost + Waiting(s) && s.lost !! Waiting(s)
              && s.sqTail == Slot(s.fetched, |s.sq|) && s.sq[s.sqTail] == s.submitted[s.fetched]
  {
    RunInv(run, i);
    hide Init;
    hide Step;
    HeadStays(run[i]);
    hide Slot;
    var s := run[i];
    if RingFull(s) {
      assert s.fetched in Waiting(s) && s.fetched !in s.lost;
      assert s.sq[Slot(s.fetched, |s.sq|)] == s.submitted[s.fetched];
    }
  }

  /**
   In every run each completion is taken once and in the order of posting, no two of them are of the
   same command, and without a timeout each is that of the command it was waited for.
   */
  lemma OneCompletionEach(run: seq<State>, i: nat)
    requires IsRun(run) && i < |run|
    ensures var s := run[i];
            && |s.consumed| <= |s.submitted| <= |s.consumed| + s.late + 1
            && s.consumed <= s.posted && |s.origin| == |s.posted|
            && (forall k :: 0 <= k < |s.consumed| ==>
                  s.origin[k] < |s.submitted| && s.consumed[k].cid == s.submitted[s.origin[k]].cid)
            && (forall k, m :: 0 <= k < m < |s.consumed| ==> s.origin[k] != s.origin[m])
            && (s.late == 0 ==> forall k :: 0 <= k < |s.consumed| ==> s.origin[k] == k)
            && (s.pc == Idle ==> |s.submitted| == |s.consumed| + s.late)
  {
    RunInv(run, i);
    hide Init;
    hide Step;
    var s := run[i];
    assert forall k :: 0 <= k < |s.origin| ==> s.origin[k] == (s.origin + s.flying)[k];
  }

  /** In every run the host accepts a slot only after the controller posted it in this round. */
  lemma AcceptsPosted(run: seq<State>, i: nat)
    requires IsRun(run) && i + 1 < |run| && See(run[i], run[i + 1])
    ensures |run[i].posted| > |run[i].consumed|
    ensures var s := run[i]; s.cqHead < |s.cq| && s.cq[s.cqHead] == s.posted[|s.consumed|]
  {
    RunInv(run, i);
    hide Init;
    hide Step;
    SeeInv(run[i], run[i + 1]);
    PhaseExact(run[i].cq, run[i].posted, |run[i].consumed|);
  }

  /**
   With a controller that completes in order, the host takes the completion of the command that was
   submitted as many calls ago as there have been timeouts: its own exactly when there was none.
   */
  lemma LateForever(run: seq<State>, i: nat)
    requires IsRun(run) && i + 1 < |run| && See(run[i], run[i + 1]) && InOrder(run[i].origin, run[i].flying)
    ensures var s := run[i];
            && s.cqHead < |s.cq| && |s.submitted| - 1 - s.late >= 0
            && s.cq[s.cqHead].cid == s.submitted[|s.submitted| - 1 - s.late].cid
            && (s.late < CID_WRAP ==>
                  (s.cq[s.cqHead].cid == s.submitted[|s.submitted| - 1].cid <==> s.late == 0))
  {
    RunInv(run, i);
    AcceptsPosted(run, i);
    hide Init;
    hide Step;
    hide PhaseOf;
    var s := run[i];
    if 0 < s.late < CID_WRAP {
      Apart(|s.submitted| - 1 - s.late, |s.submitted| - 1, CID_WRAP);
    }
  }

  ghost function Fresh(): State {
    var c, e := Command(0, 0), Completion(0, false, 0);
    State([c, c, c, c], [e, e, e, e], 0, 0, true, 0, Idle, 0, 0, 0, 0, true, [], [], 0, [], [], [], [], {}, 0)
  }

  /** Command 0 was announced and timed out. */
  ghost function Abandoned(): State {
    Fresh().(sq := Fresh().sq[0 := Command(0, 7)], sqTail := 1, sqDoorbell := 1, nextCid := 1,
             submitted := [Command(0, 7)], late := 1)
  }

  /** Command 1 has been announced as well, and command 0 is in flight. */
  ghost function FetchedLate(): State {
    Abandoned().(sq := Abandoned().sq[1 := Command(1, 8)], sqTail := 2, sqDoorbell := 2, nextCid := 2, pc := Polling,
                 submitted := [Command(0, 7), Command(1, 8)],
                 sqHead := 1, inFlight := [Command(0, 7)], fetched := 1, flying := [0])
  }

  lemma TimesOut() returns (s1: State, s2: State)
    ensures Step(Fresh(), s1) && Step(s1, s2) && Step(s2, Abandoned()) && s1.pc == Written && s2.pc == Polling
  {
    var s0 := Fresh();
    s1 := s0.(sq := s0.sq[0 := Command(0, 7)], sqTail := 1, nextCid := 1, pc := Written, submitted := [Command(0, 7)]);
    s2 := s1.(sqDoorbell := 1, pc := Polling);
    assert Write(s0, s1, 7) && Ring(s1, s2) && Timeout(s2, Abandoned());
  }

  lemma FetchesLate() returns (s1: State, s2: State)
    ensures Step(Abandoned(), s1) && Step(s1, s2) && Step(s2, FetchedLate()) && s1.pc == Written && s2.pc == Polling
  {
    var s0 := Abandoned();
    s1 := s0.(sq := s0.sq[1 := Command(1, 8)], sqTail := 2, nextCid := 2, pc := Written,
    submitted := s0.submitted + [Command(1, 8)]);
    s2 := s1.(sqDoorbell := 2, pc := Polling);
    assert Write(s0, s1, 8) && Ring(s1, s2) && Fetch(s2, FetchedLate());
  }

  lemma AnswersLate() returns (s1: State, s2: State)
    ensures Step(FetchedLate(), s1) && Step(s1, s2) && See(s1, s2) && s1.pc == Polling && s2.pc == Seen
    ensures FetchedLate().pc == Polling && s1.submitted == [Command(0, 7), Command(1, 8)]
    ensures s1.cqHead < |s1.cq| && s1.cq[s1.cqHead] == Completion(0, true, 9)
  {
    s1 := Posting(FetchedLate(), 0, Completion(0, true, 9));
    s2 := s1.(pc := Seen);
    assert Post(FetchedLate(), s1, 0, 9);
  }

  lemma StartsFresh()
    ensures Init(Fresh())
  {
  }

  /** One command times out; the call for the next one takes the first one's completion. */
  lemma TakesStale() returns (run: seq<State>)
    ensures IsRun(run) && |run| == 9 && See(run[7], run[8])
    ensures run[7].submitted == [Command(0, 7), Command(1, 8)]
    ensures run[7].cqHead < |run[7].cq| && run[7].cq[run[7].cqHead] == Completion(0, true, 9)
  {
    hide Init;
    hide Step;
    hide See;
    hide Fresh;
    hide Abandoned;
    hide FetchedLate;
    StartsFresh();
    var s1, s2 := TimesOut();
    var s4, s5 := FetchesLate();
    var s7, s8 := AnswersLate();
    run := [Fresh(), s1, s2, Abandoned(), s4, s5, FetchedLate(), s7, s8];
  }

  // A run that loses commands, for rings of any size

  function Backlog(k: nat): (cmds: seq<Command>)
    ensures |cmds| == k
  {
    seq(k, i requires 0 <= i < k => Command(Slot(i, CID_WRAP), i))
  }

  /** Rings of `n` and `m` slots after `k` commands that all timed out; the controller has done nothing. */
  ghost function Ignored(n: nat, m: nat, k: nat): State
    requires k <= n && n > 0 && m > 0
  {
    State(Backlog(k) + seq(n - k, _ => Command(0, 0)), seq(m, _ => Completion(0, false, 0)),
          Slot(k, n), 0, true, Slot(k, CID_WRAP), Idle, Slot(k, n), 0, 0, 0, true, [],
          Backlog(k), 0, [], [], [], [], {}, k)
  }

  lemma IgnoredInit(n: nat, m: nat)
    requires n > 0 && m > 0
    ensures Init(Ignored(n, m, 0))
  {
    SlotZero(n);
    SlotZero(CID_WRAP);
  }

  /** The slots before and after one more command. */
  lemma NextSlot(n: nat, k: nat)
    requires k < n
    ensures Slot(k, n) == k
    ensures (Backlog(k) + seq(n - k, _ => Command(0, 0)))[k := Command(Slot(k, CID_WRAP), k)] ==
            Backlog(k + 1) + seq(n - k - 1, _ => Command(0, 0))
    ensures Backlog(k) + [Command(Slot(k, CID_WRAP), k)] == Backlog(k + 1)
  {
    OneRound(k, n);
  }

  /** Another command is written, announced and abandoned. */
  lemma IgnoredStep(n: nat, m: nat, k: nat) returns (s1: State, s2: State)
    requires k < n && m > 0
    ensures Step(Ignored(n, m, k), s1) && Step(s1, s2) && Step(s2, Ignored(n, m, k + 1))
  {
    hide Slot;
    NextSlot(n, k);
    Wrap(k, n);
    Wrap(k, CID_WRAP);
    var s := Ignored(n, m, k);
    s1 := s.(sq := s.sq[s.sqTail := Command(s.nextCid, k)], sqTail := Slot(k + 1, n), nextCid := Slot(k + 1, CID_WRAP),
    pc := Written, submitted := Backlog(k + 1));
    s2 := s1.(sqDoorbell := s1.sqTail, pc := Polling);
    hide Backlog;
    assert Write(s, s1, k);
    assert Ring(s1, s2);
    assert Timeout(s2, Ignored(n, m, k + 1));
  }

  lemma RunMore(run: seq<State>, s: State)
    requires IsRun(run) && Step(run[|run| - 1], s)
    ensures IsRun(run + [s])
  {
    hide Init;
    hide Step;
  }

  lemma {:induction false} IgnoredRun(n: nat, m: nat, k: nat) returns (run: seq<State>)
    requires k <= n && n > 0 && m > 0
    ensures IsRun(run) && |run| == 3 * k + 1 && run[3 * k] == Ignored(n, m, k)
  {
    hide Step;
    hide Init;
    hide Ignored;
    if k == 0 {
      IgnoredInit(n, m);
      run := [Ignored(n, m, 0)];
    } else {
      run := IgnoredRun(n, m, k - 1);
      var s1, s2 := IgnoredStep(n, m, k - 1);
      RunMore(run, s1);
      RunMore(run + [s1], s2);
      RunMore(run + [s1] + [s2], Ignored(n, m, k));
      run := run + [s1] + [s2] + [Ignored(n, m, k)];
    }
  }

  /** A whole ring of commands waits, and there comes another one. */
  lemma OneTooMany(n: nat, m: nat) returns (s': State)
    requires n > 0 && m > 0
    ensures var s := Ignored(n, m, n);
            && |s.sq| == n && |s.cq| == m && s.late == n && s.fetched == 0 && |s.submitted| == n && s.lost == {}
            && s.sqTail == 0 && s.sq[0] == s.submitted[0] == Command(0, 0)
            && Write(s, s', n) && s'.sq[0] == Command(s.nextCid, n)
  {
    var s := Ignored(n, m, n);
    OneRound(0, n);
    SlotZero(CID_WRAP);
    s' := s.(sq := s.sq[0 := Command(s.nextCid, n)], sqTail := Bump(0, n), nextCid := NextCid(s.nextCid),
    pc := Written, submitted := s.submitted + [Command(s.nextCid, n)], fetched := n, lost := Waiting(s));
    assert s.lost + Waiting(s) == Waiting(s);
  }

  /** As many timeouts as slots, whatever their number, can be enough: the next command replaces command 0. */
  lemma Overwrites(n: nat, m: nat) returns (run: seq<State>)
    requires n > 0 && m > 0
    ensures IsRun(run) && |run| == 3 * n + 2
    ensures var s, s' := run[3 * n], run[3 * n + 1];
            && |s.sq| == n && |s.cq| == m && s.late == n && s.fetched == 0 && |s.submitted| == n && s.lost == {}
            && Write(s, s', n) && s.sq[0] == s.submitted[0] && 0 < |s'.sq| && s'.sq[0] != s.submitted[0]
            && s'.lost == Range(0, n)
  {
    hide Init;
    hide Ignored;
    hide Step;
    var s' := OneTooMany(n, m);
    var s := Ignored(n, m, n);
    run := IgnoredRun(n, m, n);
    WriteSteps(s, s', n);
    RunMore(run, s');
    run := run + [s'];
  }

  lemma WriteSteps(s: State, s': State, body: nat)
    requires Write(s, s', body)
    ensures Step(s, s') && |s'.sq| == |s.sq| && s'.lost == s.lost + if RingFull(s) then Waiting(s) else {}
  {
  }

  /** With fewer timeouts than slots a submission slot is written only when what was in it has been fetched. */
  lemma OverwritesFetched(run: seq<State>, i: nat, body: nat)
    requires IsRun(run) && i + 1 < |run| && Write(run[i], run[i + 1], body)
    ensures run[i].late < |run[i].sq| ==> !RingFull(run[i])
    ensures run[i].late == 0 ==> run[i].fetched == |run[i].submitted|
  {
    RunInv(run, i);
    hide Init;
    hide Step;
  }

  /** The controller sees a command to fetch just when less than a ring of them wait. */
  lemma CommandVisible(s: State)
    requires Inv(s) && s.pc == Polling && s.fetched < |s.submitted|
    ensures s.sqHead != s.sqDoorbell <==> |s.submitted| - s.fetched < |s.sq|
  {
    hide PhaseOf;
    if |s.submitted| - s.fetched < |s.sq| {
      Apart(s.fetched, |s.submitted|, |s.sq|);
    } else {
      OneRound(s.fetched, |s.sq|);
    }
  }

  /** What the controller has still to do. */
  ghost function Rank(s: State): int {
    2 * (|s.submitted| - s.fetched) + |s.flying|
  }

  lemma ControllerProgress(s: State, s': State)
    requires Inv(s) && ControllerStep(s, s')
    ensures Inv(s') && s'.pc == s.pc && s'.late == s.late && s'.sq == s.sq && |s'.cq| == |s.cq|
    ensures s'.submitted == s.submitted && s'.consumed == s.consumed && 0 <= Rank(s') == Rank(s) - 1
    ensures s.fetched <= s'.fetched && (!RingFull(s) ==> !RingFull(s'))
  {
    hide Inv;
    if Fetch(s, s') {
      FetchInv(s, s');
    } else {
      var i, result :| Post(s, s', i, result);
      PostInv(s, s', i, result);
    }
    RankBounds(s');
    RingBound(s);
  }

  lemma RingBound(s: State)
    requires Inv(s)
    ensures s.fetched <= |s.submitted| <= s.fetched + |s.sq|
  {
  }

  lemma RankBounds(s: State)
    requires Inv(s)
    ensures 0 <= Rank(s) <= 2 * (s.late + 1)
  {
    Outstanding(s);
  }

  /** While the host waits and nothing is posted, something is in flight or waits. */
  lemma Pending(s: State)
    requires Inv(s) && s.pc == Polling && |s.posted| == |s.consumed|
    ensures s.inFlight != [] || s.fetched < |s.submitted|
  {
    hide Slot;
    hide PhaseOf;
    Outstanding(s);
    var x := |s.submitted| - 1;
    if s.fetched == |s.submitted| {
      InOnePlace(s, x);
      assert x !in s.lost;
      assert forall k :: 0 <= k < |s.origin| ==> s.origin[k] < x;
    }
  }

  /** With a whole ring waiting and nothing in flight the controller is stuck. */
  lemma Stuck(s: State, s': State)
    requires Inv(s) && s.pc == Polling && RingFull(s) && s.inFlight == []
    ensures !ControllerStep(s, s')
  {
    CommandVisible(s);
    hide Slot;
  }

  /** Unless a whole ring waits, a waiting host can go on, or the controller can. */
  lemma NoDeadlock(s: State) returns (s': State)
    requires Inv(s) && s.pc == Polling && !RingFull(s) && |s.cq| >= 2
    ensures s' != s && if |s.posted| > |s.consumed| then See(s, s') else ControllerStep(s, s')
  {
    hide PhaseOf;
    InvSane(s);
    if |s.posted| > |s.consumed| {
      PhaseExact(s.cq, s.posted, |s.consumed|);
      s' := s.(pc := Seen);
    } else if s.inFlight != [] {
      s' := PostOne(s);
    } else {
      Pending(s);
      CommandVisible(s);
      s' := s.(sqHead := Bump(s.sqHead, |s.sq|), inFlight := s.inFlight + [s.sq[s.sqHead]], fetched := s.fetched + 1,
      flying := s.flying + [s.fetched]);
      assert Fetch(s, s');
    }
  }

  lemma PostOne(s: State) returns (s': State)
    requires Inv(s) && s.pc == Polling && |s.cq| >= 2 && |s.posted| == |s.consumed| && s.inFlight != []
    ensures s' != s && ControllerStep(s, s')
  {
    hide PhaseOf;
    InvSane(s);
    Wrap(|s.posted|, |s.cq|);
    Apart(|s.consumed|, |s.posted| + 1, |s.cq|);
    hide Slot;
    s' := Posting(s, 0, Completion(s.inFlight[0].cid, s.phase, 0));
    assert Post(s, s', 0, 0);
    assert |s'.posted| != |s.posted|;
  }

  /**
   The host never waits in vain: the controller makes at most two steps for each command that is
   outstanding, and when it can make no more, the host sees its phase.
   */
  lemma {:induction false} WaitEnds(steps: seq<State>)
    requires steps != [] && Inv(steps[0]) && steps[0].pc == Polling
    requires !RingFull(steps[0]) && |steps[0].cq| >= 2
    requires forall i :: 0 <= i < |steps| - 1 ==> ControllerStep(steps[i], steps[i + 1])
    ensures |steps| - 1 <= Rank(steps[0]) <= 2 * (steps[0].late + 1)
    ensures var s := steps[|steps| - 1];
            (forall s' :: !ControllerStep(s, s')) ==> s.cqHead < |s.cq| && s.cq[s.cqHead].phase == s.cycle
    decreases |steps|
  {
    hide Inv;
    hide ControllerStep;
    RankBounds(steps[0]);
    if |steps| == 1 {
      var s' := NoDeadlock(steps[0]);
    } else {
      ControllerProgress(steps[0], steps[1]);
      RankBounds(steps[1]);
      WaitEnds(steps[1..]);
    }
  }
}
