/**
 `Lifecycle`: one-use prepared rows. The class follows the source's object; the
 state machine below it carries the laws over every run of operations, including
 refused ones and the admission that burns its rows and then raises.
 */
module MaterialLifecycle {

  datatype Phase = Idle | Prepared | Online | Closed

  datatype State = State(phase: Phase, issued: int, claimed: int, burned: int, discarded: int, pending: int,
                         session: nat)

  const INITIAL := State(Idle, 0, 0, 0, 0, 0, 0)

  datatype Operation = Prepare(rows: int) | Admit(acknowledged: bool) | Claim(rows: int) | Retire(confirmed: bool)

  /** Whether the call returns normally; a refused call raises ValueError. */
  predicate Accepted(s: State, op: Operation) {
    match op
    case Prepare(rows) => s.phase.Idle? && rows > 0
    case Admit(acknowledged) => s.phase.Prepared? && acknowledged
    case Claim(rows) => s.phase.Online? && 0 <= rows <= s.pending
    case Retire(_) => s.phase.Online? || s.phase.Prepared?
  }

  function Retired(s: State, confirmed: bool): State {
    var next := if confirmed then Idle else Closed;
    if s.phase.Online? then s.(burned := s.burned + s.pending, pending := 0, phase := next)
    else s.(discarded := s.discarded + s.pending, pending := 0, phase := next)
  }

  /** The state after a call, whether it returned or raised. */
  function Next(s: State, op: Operation): State {
    match op
    case Prepare(rows) =>
      if Accepted(s, op) then s.(issued := s.issued + rows, pending := rows, phase := Prepared) else s
    case Admit(acknowledged) =>
      if !s.phase.Prepared? then s
      else
        var online := s.(session := s.session + 1, phase := Online);
        if acknowledged then online else Retired(online, true)
    case Claim(rows) =>
      if Accepted(s, op) then s.(claimed := s.claimed + rows, pending := s.pending - rows) else s
    case Retire(confirmed) =>
      if Accepted(s, op) then Retired(s, confirmed) else s
  }

  function RunFrom(s: State, ops: seq<Operation>): State
    decreases |ops|
  {
    if ops == [] then s else RunFrom(Next(s, ops[0]), ops[1..])
  }

  class Lifecycle {
    var phase: Phase
    var issued: int
    var claimed: int
    var burned: int
    var discarded: int
    var pendingRows: int
    var session: nat

    function Abstract(): State
      reads this
    {
      State(phase, issued, claimed, burned, discarded, pendingRows, session)
    }

    constructor ()
      ensures Abstract() == INITIAL
    {
      phase := Idle;
      issued, claimed, burned, discarded, pendingRows, session := 0, 0, 0, 0, 0, 0;
    }

    method PrepareRows(rows: int) returns (ok: bool)
      modifies this
      ensures ok == Accepted(old(Abstract()), Prepare(rows))
      ensures Abstract() == Next(old(Abstract()), Prepare(rows))
      ensures ok <==> old(phase) == Idle && rows > 0
      ensures Abstract() == if !ok then old(Abstract())
                            else old(Abstract()).(phase := Prepared, issued := old(issued) + rows, pending := rows)
    {
      if phase != Idle || rows <= 0 {
        return false;
      }
      issued := issued + rows;
      pendingRows := rows;
      phase := Prepared;
      return true;
    }

    method AdmitSession(acknowledged: bool) returns (ok: bool)
      modifies this
      ensures ok == Accepted(old(Abstract()), Admit(acknowledged))
      ensures Abstract() == Next(old(Abstract()), Admit(acknowledged))
      ensures ok <==> old(phase) == Prepared && acknowledged
      ensures ok ==> Abstract() == old(Abstract()).(phase := Online, session := old(session) + 1)
      // A session was counted and its rows are burned before the refusal.
      ensures !ok && old(phase) == Prepared ==>
        Abstract() == old(Abstract()).(phase := Idle, session := old(session) + 1,
                                       burned := old(burned) + old(pendingRows), pending := 0)
      ensures old(phase) != Prepared ==> Abstract() == old(Abstract())
    {
      if phase != Prepared {
        return false;
      }
      session := session + 1;
      phase := Online;
      if !acknowledged {
        var retired := RetireRows(true);
        return false;
      }
      return true;
    }

    method ClaimRows(rows: int) returns (ok: bool)
      modifies this
      ensures ok == Accepted(old(Abstract()), Claim(rows))
      ensures Abstract() == Next(old(Abstract()), Claim(rows))
      ensures ok <==> old(phase) == Online && 0 <= rows <= old(pendingRows)
      ensures Abstract() == if !ok then old(Abstract())
                            else old(Abstract()).(claimed := old(claimed) + rows, pending := old(pendingRows) - rows)
    {
      if phase != Online || !(0 <= rows <= pendingRows) {
        return false;
      }
      claimed := claimed + rows;
      pendingRows := pendingRows - rows;
      return true;
    }

    method RetireRows(confirmed: bool) returns (ok: bool)
      modifies this
      ensures ok == Accepted(old(Abstract()), Retire(confirmed))
      ensures Abstract() == Next(old(Abstract()), Retire(confirmed))
      ensures ok <==> old(phase) == Online || old(phase) == Prepared
      // Rows that went online are burned, rows that did not are discarded.
      ensures ok ==> pendingRows == 0 && phase == (if confirmed then Idle else Closed)
      ensures ok ==> burned == old(burned) + if old(phase) == Online then old(pendingRows) else 0
      ensures ok ==> discarded == old(discarded) + if old(phase) == Prepared then old(pendingRows) else 0
      ensures issued == old(issued) && claimed == old(claimed) && session == old(session)
      ensures !ok ==> Abstract() == old(Abstract())
    {
      if phase != Online && phase != Prepared {
        return false;
      }
      if phase == Online {
        burned := burned + pendingRows;
      } else {
        discarded := discarded + pendingRows;
      }
      pendingRows := 0;
      phase := if confirmed then Idle else Closed;
      return true;
    }
  }

  // ----- Laws of every run

  /** Issued rows are conserved, nothing is negative, and only active phases hold rows. */
  ghost predicate Conserved(s: State) {
    && s.issued == s.claimed + s.burned + s.discarded + s.pending
    && s.claimed >= 0 && s.burned >= 0 && s.discarded >= 0 && s.pending >= 0
    && (s.phase.Idle? || s.phase.Closed? ==> s.pending == 0)
  }

  lemma {:induction false} RunConserves(s: State, ops: seq<Operation>)
    requires Conserved(s)
    ensures Conserved(RunFrom(s, ops))
    decreases |ops|
  {
    if ops != [] {
      RunConserves(Next(s, ops[0]), ops[1..]);
    }
  }

  /** Conservation from the initial state, after every sequence of calls. */
  lemma EveryRunConserves(ops: seq<Operation>)
    ensures Conserved(RunFrom(INITIAL, ops))
  {
    RunConserves(INITIAL, ops);
  }

  /** Rows are burned or claimed only after an admission. */
  lemma {:induction false} NothingBurnedUnadmitted(s: State, ops: seq<Operation>)
    requires !s.phase.Online? && forall i | 0 <= i < |ops| :: !ops[i].Admit?
    ensures var t := RunFrom(s, ops);
            !t.phase.Online? && t.burned == s.burned && t.claimed == s.claimed && t.session == s.session
    decreases |ops|
  {
    if ops != [] {
      assert forall i | 0 <= i < |ops[1..]| :: ops[1..][i] == ops[i + 1];
      NothingBurnedUnadmitted(Next(s, ops[0]), ops[1..]);
    }
  }

  /** Every preparation that goes online, or is refused its admission, leaves nothing to discard. */
  ghost predicate AdmittedBeforeRetired(s: State, ops: seq<Operation>)
    decreases |ops|
  {
    ops == [] || (!(ops[0].Retire? && s.phase.Prepared?) && AdmittedBeforeRetired(Next(s, ops[0]), ops[1..]))
  }

  lemma {:induction false} NothingDiscardedOnline(s: State, ops: seq<Operation>)
    requires AdmittedBeforeRetired(s, ops)
    ensures RunFrom(s, ops).discarded == s.discarded
    decreases |ops|
  {
    if ops != [] {
      NothingDiscardedOnline(Next(s, ops[0]), ops[1..]);
    }
  }

  /** Once closed, no call is accepted and nothing changes. */
  lemma {:induction false} ClosedIsAbsorbing(s: State, ops: seq<Operation>)
    requires s.phase.Closed?
    ensures RunFrom(s, ops) == s
    ensures forall i | 0 <= i < |ops| :: !Accepted(s, ops[i])
    decreases |ops|
  {
    if ops != [] {
      ClosedIsAbsorbing(Next(s, ops[0]), ops[1..]);
    }
  }

  /** The ledger only grows, whatever is called. */
  lemma {:induction false} LedgerMonotone(s: State, ops: seq<Operation>)
    requires Conserved(s)
    ensures var t := RunFrom(s, ops);
            t.issued >= s.issued && t.claimed >= s.claimed && t.burned >= s.burned && t.discarded >= s.discarded
    decreases |ops|
  {
    if ops != [] {
      LedgerMonotone(Next(s, ops[0]), ops[1..]);
    }
  }

  /** No operation of `ops` is an accepted preparation when run from `s`. */
  ghost predicate NoPreparation(s: State, ops: seq<Operation>)
    decreases |ops|
  {
    ops == [] || (!(ops[0].Prepare? && Accepted(s, ops[0])) && NoPreparation(Next(s, ops[0]), ops[1..]))
  }

  lemma {:induction false} ClaimsBounded(s: State, ops: seq<Operation>)
    requires Conserved(s) && NoPreparation(s, ops)
    ensures RunFrom(s, ops).claimed - s.claimed + RunFrom(s, ops).pending <= s.pending
    decreases |ops|
  {
    if ops != [] {
      ClaimsBounded(Next(s, ops[0]), ops[1..]);
    }
  }

  /** Until the next preparation, claims never exceed the rows freshly prepared. */
  lemma SessionClaimsBounded(s: State, rows: int, ops: seq<Operation>)
    requires Conserved(s) && Accepted(s, Prepare(rows)) && NoPreparation(Next(s, Prepare(rows)), ops)
    ensures RunFrom(s, [Prepare(rows)] + ops).claimed - s.claimed <= rows
  {
    var p := Next(s, Prepare(rows));
    RunConserves(p, ops);
    ClaimsBounded(p, ops);
    assert ([Prepare(rows)] + ops)[1..] == ops;
  }

  /** Rows are claimed, burned or discarded once: after an idle point none of the earlier rows can be claimed. */
  lemma IdleForgetsRows(s: State, ops: seq<Operation>)
    requires Conserved(s) && s.phase.Idle? && NoPreparation(s, ops)
    ensures RunFrom(s, ops).claimed == s.claimed
  {
    RunConserves(s, ops);
    ClaimsBounded(s, ops);
    LedgerMonotone(s, ops);
  }
}
