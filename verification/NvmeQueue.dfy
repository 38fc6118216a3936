/** The host side of an NVMe queue pair, next to a controller that works on its own. */
module NvmeQueue {
  import opened NvmeRing

  const MAX_POLLS: nat := 500000

  /** What the controller may do: fetch the next command, or complete one that it has fetched. */
  datatype Move = FetchNext | Complete(i: nat, result: nat)

  datatype Log = Log(
    pc: Pc, submitted: seq<Command>, fetched: nat, posted: seq<Completion>, consumed: seq<Completion>,
    flying: seq<nat>, origin: seq<nat>, lost: set<nat>, late: nat)

  datatype Outcome = Done(completion: Completion) | TimedOut

  // What happens during a call, as a function of the state before it

  /** A move of the controller: the step it names, or nothing where that step is not possible. */
  ghost function Reacted(s: State, m: Move): State {
    match m
    case FetchNext =>
      if Sane(s) && s.sqHead != s.sqDoorbell then
        s.(sqHead := Bump(s.sqHead, |s.sq|), inFlight := s.inFlight + [s.sq[s.sqHead]],
           fetched := s.fetched + 1, flying := s.flying + [s.fetched])
      else s
    case Complete(i, result) =>
      if Sane(s) && i < |s.inFlight| == |s.flying| && Bump(s.cqTail, |s.cq|) != s.cqDoorbell then
        Posting(s, i, Completion(s.inFlight[i].cid, s.phase, result))
      else s
  }

  /** A move is a step of the controller, and it is made whenever it can be. */
  lemma ReactedSteps(s: State, s': State, i: nat, result: nat)
    ensures Fetch(s, s') ==> s' == Reacted(s, FetchNext)
    ensures Reacted(s, FetchNext) == s || Fetch(s, Reacted(s, FetchNext))
    ensures Post(s, s', i, result) ==> s' == Reacted(s, Complete(i, result))
    ensures Reacted(s, Complete(i, result)) == s || Post(s, Reacted(s, Complete(i, result)), i, result)
  {
    hide Posting;
  }

  /** The moves of one yield. */
  ghost function Yielded(s: State, ms: seq<Move>): State {
    if ms == [] then s else Reacted(Yielded(s, ms[..|ms| - 1]), ms[|ms| - 1])
  }

  function MovesAt(moves: seq<seq<Move>>, k: nat): seq<Move> {
    if k < |moves| then moves[k] else []
  }

  /** The state after `k` yields. */
  ghost function After(s: State, moves: seq<seq<Move>>, k: nat): State {
    if k == 0 then s else Yielded(After(s, moves, k - 1), MovesAt(moves, k - 1))
  }

  lemma AfterNext(s: State, moves: seq<seq<Move>>, k: nat)
    ensures After(s, moves, 0) == s
    ensures After(s, moves, k + 1) == Yielded(After(s, moves, k), MovesAt(moves, k))
  {
  }

  /** The slot at the head has the phase that the host waits for. */
  ghost predicate Sees(s: State) {
    s.cqHead < |s.cq| && s.cq[s.cqHead].phase == s.cycle
  }

  /** The host looks after no more yields than these. */
  ghost predicate Looks(k: int) {
    0 <= k <= 500001
  }

  /** The host sees its phase after `k` yields and not before. */
  ghost predicate SeesFirst(s: State, moves: seq<seq<Move>>, k: nat) {
    Looks(k) && Sees(After(s, moves, k)) && forall j :: 0 <= j < k ==> !Sees(After(s, moves, j))
  }

  /** `s'` is `s` with the command `body` in its slot and announced. */
  ghost predicate Submits(s: State, body: nat, s': State) {
    exists w :: Write(s, w, body) && Ring(w, s')
  }

  lemma SubmitsOne(s: State, body: nat, s1: State, s2: State)
    requires Submits(s, body, s1) && Submits(s, body, s2)
    ensures s1 == s2
  {
  }

  /** `s'` is `s` with the completion `c` at the head taken and the head moved on. */
  ghost predicate Takes(s: State, c: Completion, s': State) {
    && s.cqHead < |s.cq| && c == s.cq[s.cqHead]
    && exists s1, s2, s3 :: See(s, s1) && Copy(s1, s2) && Advance(s2, s3) && Release(s3, s')
  }

  class NvmeQueue {
    const sq: array<Command>
    const cq: array<Completion>
    var sqTail: nat
    var cqHead: nat
    var cycle: bool
    var nextCid: nat
    var sqDoorbell: nat
    var cqDoorbell: nat

    // The controller's side
    var sqHead: nat
    var cqTail: nat
    var phase: bool
    var inFlight: seq<Command>

    /** Where the host is, and what has happened. */
    ghost var log: Log

    ghost function S(): State
      reads this, sq, cq
    {
      State(sq[..], cq[..], sqTail, cqHead, cycle, nextCid, log.pc, sqDoorbell, cqDoorbell,
            sqHead, cqTail, phase, inFlight, log.submitted, log.fetched, log.posted, log.consumed,
            log.flying, log.origin, log.lost, log.late)
    }

    /** What only the host changes. */
    ghost function Host(): (Pc, seq<Command>, seq<Completion>, set<nat>, nat)
      reads `log
    {
      (log.pc, log.submitted, log.consumed, log.lost, log.late)
    }

    constructor (sqCount: nat, cqCount: nat)
      requires sqCount > 0 && cqCount > 0
      ensures fresh(sq) && fresh(cq) && sq.Length == sqCount && cq.Length == cqCount && Init(S())
    {
      sq := new Command[sqCount](_ => Command(0, 0));
      cq := new Completion[cqCount](_ => Completion(0, false, 0));
      sqTail, cqHead, cycle, nextCid, sqDoorbell, cqDoorbell := 0, 0, true, 0, 0, 0;
      sqHead, cqTail, phase, inFlight := 0, 0, true, [];
      log := Log(Idle, [], 0, [], [], [], [], {}, 0);
    }

    method ControllerFetch()
      requires Inv(S())
      modifies `inFlight, `sqHead, `log
      ensures Inv(S()) && S() == Reacted(old(S()), FetchNext) && Host() == old(Host())
    {
      hide Inv;
      InvSane(S());
      if sqHead != sqDoorbell {
        inFlight, sqHead := inFlight + [sq[sqHead]], Bump(sqHead, sq.Length);
        log := log.(flying := log.flying + [log.fetched], fetched := log.fetched + 1);
        assert Fetch(old(S()), S());
        FetchInv(old(S()), S());
      }
    }

    method ControllerPost(i: nat, result: nat)
      requires Inv(S())
      modifies cq, `cqTail, `phase, `inFlight, `log
      ensures Inv(S()) && S() == Reacted(old(S()), Complete(i, result)) && Host() == old(Host())
    {
      hide Inv;
      InvSane(S());
      NvmeRing.Outstanding(S());
      var tail := Bump(cqTail, cq.Length);
      if i < |inFlight| && tail != cqDoorbell {
        var c := Completion(inFlight[i].cid, phase, result);
        ghost var s := S();
        assert Post(s, Posting(s, i, c), i, result);
        PostInv(s, Posting(s, i, c), i, result);
        Answer(i, c, tail);
      }
    }

    /** The completion `c` of the `i`-th command in flight is stored, and the tail moves to `tail`. */
    method Answer(i: nat, c: Completion, tail: nat)
      requires Sane(S()) && i < |inFlight| == |log.flying| && tail == Bump(cqTail, cq.Length)
      modifies cq, `cqTail, `phase, `inFlight, `log
      ensures S() == Posting(old(S()), i, c)
    {
      hide Without;
      cq[cqTail] := c;
      cqTail, phase, inFlight := tail, if tail == 0 then !phase else phase, Without(inFlight, i);
      log := log.(posted := log.posted + [c], origin := log.origin + [log.flying[i]], flying := Without(log.flying, i));
      assert cq[..] == old(cq[..])[old(cqTail) := c];
    }

    /** The controller makes a move if it can. */
    method ControllerMove(m: Move)
      requires Inv(S())
      modifies this, cq
      ensures Inv(S()) && S() == Reacted(old(S()), m) && Host() == old(Host())
    {
      hide Inv;
      hide Reacted;
      match m {
        case FetchNext =>
          ControllerFetch();
        case Complete(i, result) =>
          ControllerPost(i, result);
      }
    }

    /** What happens on the controller's side while the host yields. */
    method Yield(moves: seq<Move>)
      requires Inv(S())
      modifies this, cq
      ensures Inv(S()) && S() == Yielded(old(S()), moves) && Host() == old(Host())
    {
      hide *;
      YieldedNone(S(), moves);
      for i := 0 to |moves|
        invariant Inv(S()) && S() == Yielded(old(S()), moves[..i]) && Host() == old(Host())
      {
        YieldedNext(old(S()), moves, i);
        ControllerMove(moves[i]);
      }
      assert moves[..|moves|] == moves;
    }

    /** The command gets its id and its slot. */
    method WriteCommand(body: nat) returns (cid: nat)
      requires Inv(S()) && log.pc == Idle
      modifies sq, `nextCid, `sqTail, `log
      ensures Inv(S()) && log.submitted == old(log).submitted + [Command(cid, body)]
      ensures log == old(log).(pc := Written, submitted := log.submitted, fetched := log.fetched, lost := log.lost)
      ensures log.lost == old(log).lost + if RingFull(old(S())) then Waiting(old(S())) else {}
      ensures cid == old(nextCid) && Write(old(S()), S(), body)
    {
      hide Inv;
      InvSane(S());
      cid := nextCid;
      nextCid := NextCid(cid);
      sq[sqTail] := Command(cid, body);
      sqTail := Bump(sqTail, sq.Length);
      log := log.(submitted := log.submitted + [Command(cid, body)], pc := Written,
      fetched := if RingFull(old(S())) then |log.submitted| else log.fetched,
      lost := log.lost + if RingFull(old(S())) then Waiting(old(S())) else {});
      assert sq[..] == old(sq[..])[old(sqTail) := Command(cid, body)];
      assert Write(old(S()), S(), body);
      WriteInv(old(S()), S(), body);
    }

    method RingSubmission()
      requires Inv(S()) && log.pc == Written
      modifies `sqDoorbell, `log
      ensures Inv(S()) && log == old(log).(pc := Polling) && Ring(old(S()), S())
    {
      hide Inv;
      sqDoorbell, log := sqTail, log.(pc := Polling);
      assert Ring(old(S()), S());
      QuietInv(old(S()), S());
    }

    /** The completion at the head is copied out. */
    method CopyOut() returns (c: Completion)
      requires Inv(S()) && log.pc == Polling && cqHead < cq.Length && cq[cqHead].phase == cycle
      modifies `log
      ensures Inv(S()) && log == old(log).(pc := Copied, consumed := old(log).consumed + [c])
      ensures Belongs(|old(log.consumed)|, c) && c == cq[cqHead]
      ensures exists s :: See(old(S()), s) && Copy(s, S())
    {
      hide Inv;
      InvSane(S());
      log := log.(pc := Seen);
      ghost var s := S();
      assert See(old(S()), s);
      SeeInv(old(S()), s);
      c := cq[cqHead];
      log := log.(consumed := log.consumed + [c], pc := Copied);
      assert Copy(s, S());
      CopyInv(s, S());
      Taken(S(), |old(log.consumed)|);
    }

    /** Completion number `k` is `c`, of some command submitted before, or of number `k` if all came in order. */
    ghost predicate Belongs(k: nat, c: Completion)
      reads this
    {
      && k < |log.origin| && log.origin[k] < |log.submitted| && c.cid == log.submitted[log.origin[k]].cid
      && (log.late == 0 ==> log.origin[k] == k)
    }

    lemma Taken(s: State, k: nat)
      requires Inv(s) && k < |s.consumed|
      ensures k < |s.origin| && s.origin[k] < |s.submitted| && s.consumed[k].cid == s.submitted[s.origin[k]].cid
      ensures s.late == 0 ==> s.origin[k] == k
    {
    }

    /** The head moves on; at the end of the ring the expected phase flips. */
    method MoveHead()
      requires Inv(S()) && log.pc == Copied
      modifies `cqHead, `cycle, `log
      ensures Inv(S()) && log == old(log).(pc := Advanced) && Advance(old(S()), S())
    {
      hide Inv;
      InvSane(S());
      cqHead := Bump(cqHead, cq.Length);
      cycle := if cqHead == 0 then !cycle else cycle;
      log := log.(pc := Advanced);
      assert Advance(old(S()), S());
      AdvanceInv(old(S()), S());
    }

    method RingCompletion()
      requires Inv(S()) && log.pc == Advanced
      modifies `cqDoorbell, `log
      ensures Inv(S()) && log == old(log).(pc := Idle) && Release(old(S()), S())
    {
      hide Inv;
      cqDoorbell, log := cqHead, log.(pc := Idle);
      assert Release(old(S()), S());
      QuietInv(old(S()), S());
    }

    /** The polling gives up. */
    method GiveUp()
      requires Inv(S()) && log.pc == Polling
      modifies `log
      ensures Inv(S()) && log == old(log).(pc := Idle, late := old(log).late + 1) && Timeout(old(S()), S())
    {
      hide Inv;
      log := log.(pc := Idle, late := log.late + 1);
      assert Timeout(old(S()), S());
      QuietInv(old(S()), S());
    }

    lemma Behind()
      requires Inv(S()) && log.pc == Idle
      ensures |log.submitted| == |log.consumed| + log.late
    {
    }

    lemma HeadInRange()
      requires Inv(S())
      ensures cqHead < cq.Length
    {
      InvSane(S());
    }

    /** The slot at the head is copied, and the head moves on. */
    method TakeCompletion() returns (c: Completion)
      requires Inv(S()) && log.pc == Polling && cqHead < cq.Length && cq[cqHead].phase == cycle
      modifies `log, `cqHead, `cycle, `cqDoorbell
      ensures Inv(S()) && log == old(log).(pc := Idle, consumed := old(log).consumed + [c])
      ensures Belongs(|old(log.consumed)|, c) && Takes(old(S()), c, S())
    {
      hide Inv;
      hide See;
      hide Copy;
      hide Advance;
      hide Release;
      c := CopyOut();
      ghost var s2 := S();
      MoveHead();
      ghost var s3 := S();
      RingCompletion();
      assert Advance(s2, s3) && Release(s3, S());
    }

    /** Submitting, up to the doorbell. */
    method Submit(body: nat) returns (cid: nat)
      requires Inv(S()) && log.pc == Idle
      modifies sq, `nextCid, `sqTail, `sqDoorbell, `log
      ensures Inv(S()) && log.submitted == old(log).submitted + [Command(cid, body)]
      ensures log == old(log).(pc := Polling, submitted := log.submitted, fetched := log.fetched, lost := log.lost)
      ensures log.lost == old(log).lost + if RingFull(old(S())) then Waiting(old(S())) else {}
      ensures cid == old(nextCid) && Submits(old(S()), body, S())
    {
      hide Inv;
      hide Write;
      hide Ring;
      cid := WriteCommand(body);
      ghost var w := S();
      RingSubmission();
      assert Write(old(S()), w, body) && Ring(w, S());
    }

    /**
     The polling: it ends as soon as the phase at the head is the awaited one, or after 500001 yields
     without it.
     */
    method Poll(moves: seq<seq<Move>>) returns (seen: bool, ghost k: nat)
      requires Inv(S()) && log.pc == Polling
      modifies this, cq
      ensures Inv(S()) && Host() == old(Host()) && Looks(k) && S() == After(old(S()), moves, k)
      ensures if seen then SeesFirst(old(S()), moves, k)
              else !Looks(k + 1) && forall j :: Looks(j) ==> !Sees(After(old(S()), moves, j))
      ensures seen <==> cqHead < cq.Length && cq[cqHead].phase == cycle
    {
      hide Inv;
      hide Sees;
      hide S;
      hide Yielded;
      hide MovesAt;
      hide After;
      HeadInRange();
      AfterNext(S(), moves, 0);
      var start := 0;
      while cycle == !cq[cqHead].phase
        invariant Inv(S()) && cqHead < cq.Length && Host() == old(Host())
        invariant start <= MAX_POLLS + 1 && S() == After(old(S()), moves, start)
        invariant forall j :: 0 <= j < start ==> !Sees(After(old(S()), moves, j))
        decreases MAX_POLLS + 1 - start
      {
        SeesNow();
        if start > MAX_POLLS {
          return false, start;
        }
        AfterNext(old(S()), moves, start);
        start := start + 1;
        Yield(MovesAt(moves, start - 1));
        HeadInRange();
      }
      SeesNow();
      return true, start;
    }

    lemma SeesNow()
      requires cqHead < cq.Length
      ensures Sees(S()) <==> cq[cqHead].phase == cycle
    {
    }

    /**
     submit_wait: `moves` is what the controller does at each yield. It times out exactly if the phase
     at the head is not the awaited one after any of 0 to 500001 yields; otherwise it takes the
     completion at the head as soon as it is. Without an earlier timeout the completion is that of this
     command; after some, that of a command as many calls ago, if the controller completes in order. If
     a whole ring of commands was waiting, those are lost.
     */
    method SubmitWait(body: nat, moves: seq<seq<Move>>) returns (r: Outcome, cid: nat, ghost s: State)
      requires Inv(S()) && log.pc == Idle
      modifies this, sq, cq
      ensures Inv(S()) && log.pc == Idle && log.submitted == old(log.submitted) + [Command(cid, body)]
      ensures cid == old(nextCid) && Submits(old(S()), body, s)
      ensures r.TimedOut? <==> forall k :: Looks(k) ==> !Sees(After(s, moves, k))
      ensures r.TimedOut? ==> exists k :: Looks(k) && !Looks(k + 1) && Timeout(After(s, moves, k), S())
      ensures r.Done? ==> exists k :: SeesFirst(s, moves, k) && Takes(After(s, moves, k), r.completion, S())
      ensures log.lost == old(log.lost) + if RingFull(old(S())) then Waiting(old(S())) else {}
      ensures r.Done? ==> log.late == old(log.late) && log.consumed == old(log.consumed) + [r.completion]
      ensures r.Done? ==> Belongs(|old(log.consumed)|, r.completion) && (log.late == 0 ==> r.completion.cid == cid)
      ensures r.Done? && InOrder(log.origin, log.flying) ==>
                |log.submitted| > log.late && r.completion.cid == log.submitted[|log.submitted| - 1 - log.late].cid
      ensures r.TimedOut? ==> log.late == old(log.late) + 1 && log.consumed == old(log.consumed)
    {
      hide Inv;
      hide S;
      hide After;
      hide Sees;
      hide Submits;
      hide Takes;
      hide Timeout;
      Behind();
      cid := Submit(body);
      s := S();
      ghost var k;
      var seen;
      seen, k := Poll(moves);
      if !seen {
        GiveUp();
        return TimedOut, cid, s;
      }
      var c := TakeCompletion();
      assert SeesFirst(s, moves, k) && Takes(After(s, moves, k), c, S());
      r := Done(c);
    }
  }

  lemma YieldedNone(s: State, ms: seq<Move>)
    ensures Yielded(s, ms[..0]) == s
  {
  }

  lemma YieldedNext(s: State, ms: seq<Move>, i: nat)
    requires i < |ms|
    ensures Yielded(s, ms[..i + 1]) == Reacted(Yielded(s, ms[..i]), ms[i])
  {
    assert ms[..i + 1][..i] == ms[..i];
  }
}
