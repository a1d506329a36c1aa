/** The session registry: one cancellation token a session, replaced for every run. */
module CancellationTokens {
  import opened Prelude

  type SessionId = string

  // ---------------------------------------------------------------------
  // The registry
  // ---------------------------------------------------------------------

  class CancellationToken {
    var cancelled: bool

    constructor ()
      ensures !cancelled
    {
      cancelled := false;
    }

    /** Cancelling cannot be undone. */
    method Cancel()
      modifies this
      ensures cancelled
    {
      cancelled := true;
    }
  }

  /** `busy` stands for the executor's lock being held or its session processing. */
  datatype SessionEntry = SessionEntry(executor: nat, token: CancellationToken, busy: bool)

  class SessionRegistry {
    var sessions: map<SessionId, SessionEntry>

    constructor ()
      ensures sessions == map[]
    {
      sessions := map[];
    }

    method ExecutionHandles(id: SessionId) returns (r: Option<(nat, CancellationToken)>)
      ensures r.Some? <==> id in sessions
      ensures r.Some? ==> r.value == (sessions[id].executor, sessions[id].token)
    {
      if id in sessions {
        return Some((sessions[id].executor, sessions[id].token));
      }
      return None;
    }

    method Insert(id: SessionId, executor: nat)
      modifies this
      ensures id in sessions && fresh(sessions[id].token) && !sessions[id].token.cancelled
      ensures sessions == old(sessions)[id := SessionEntry(executor, sessions[id].token, false)]
    {
      var token := new CancellationToken();
      sessions := sessions[id := SessionEntry(executor, token, false)];
    }

    /** The part of a cancel that holds the lock. */
    method TokenOf(id: SessionId) returns (token: Option<CancellationToken>)
      ensures token == if id in sessions then Some(sessions[id].token) else None
    {
      token := if id in sessions then Some(sessions[id].token) else None;
    }

    /** Reads the token under the lock and cancels it outside. */
    method Cancel(id: SessionId) returns (found: bool)
      modifies if id in sessions then {sessions[id].token} else {}
      ensures found <==> id in sessions
      ensures found ==> sessions[id].token.cancelled
    {
      var token := TokenOf(id);
      if token.Some? {
        token.value.Cancel();
      }
      return token.Some?;
    }

    /** The old token stays with whoever holds it. */
    method RenewCancellationToken(id: SessionId)
      modifies this
      ensures id !in old(sessions) ==> sessions == old(sessions)
      ensures id in old(sessions) ==>
        && id in sessions && fresh(sessions[id].token) && !sessions[id].token.cancelled
        && sessions == old(sessions)[id := old(sessions)[id].(token := sessions[id].token)]
    {
      if id in sessions {
        var token := new CancellationToken();
        sessions := sessions[id := sessions[id].(token := token)];
      }
    }

    method RemoveIfIdle(id: SessionId) returns (removed: bool)
      modifies this
      ensures removed <==> id in old(sessions) && !old(sessions)[id].busy
      ensures sessions == if removed then old(sessions) - {id} else old(sessions)
    {
      if id !in sessions || sessions[id].busy {
        return false;
      }
      sessions := sessions - {id};
      return true;
    }
  }

  // ---------------------------------------------------------------------
  // Cancel, renew and run interleaving on one session
  // ---------------------------------------------------------------------

  /**
   A cancel call reads the current token in one step and cancels it in
   another; a renewal and a run picking up its handles are single steps.
   */
  datatype Step = Renew | ReadForCancel(call: nat) | FireCancel(call: nat) | TakeHandles(run: nat)

  /** Tokens are numbered by the renewal that made them; the first is number 0. */
  datatype State = State(current: nat, cancelled: set<nat>, read: map<nat, nat>, runs: map<nat, nat>)

  const INITIAL := State(0, {}, map[], map[])

  function Do(s: State, step: Step): State {
    match step
    case Renew => s.(current := s.current + 1)
    case ReadForCancel(call) => s.(read := s.read[call := s.current])
    case FireCancel(call) =>
      if call in s.read then s.(cancelled := s.cancelled + {s.read[call]}, read := s.read - {call}) else s
    case TakeHandles(run) => s.(runs := s.runs[run := s.current])
  }

  /**
   Calls interleaving on one session of a real registry: the tokens that
   cancel calls have read and not yet fired, and those that runs have taken.
   `tokens` are the session's tokens in the order they were made.
   */
  class InterleavedCalls {
    const registry: SessionRegistry
    const id: SessionId
    var read: map<nat, CancellationToken>
    var runs: map<nat, CancellationToken>
    ghost var tokens: seq<CancellationToken>

    /** The objects are what the state says. */
    ghost predicate Represents(s: State)
      reads this, registry, tokens
    {
      && id in registry.sessions && |tokens| == s.current + 1 && registry.sessions[id].token == tokens[s.current]
      && (forall i, j :: 0 <= i < j < |tokens| ==> tokens[i] != tokens[j])
      && (forall k: nat :: k < |tokens| ==> (tokens[k].cancelled <==> k in s.cancelled))
      && (forall k <- s.cancelled :: k < |tokens|)
      && HeldAre(read, tokens, s.read) && HeldAre(runs, tokens, s.runs)
    }

    constructor (registry: SessionRegistry, id: SessionId, executor: nat)
      modifies registry
      ensures this.registry == registry && this.id == id && Represents(INITIAL)
    {
      this.registry, this.id, read, runs := registry, id, map[], map[];
      new;
      registry.Insert(id, executor);
      tokens := [registry.sessions[id].token];
    }

    method PerformRenew(ghost s: State)
      requires Represents(s)
      modifies this`tokens, registry
      ensures Represents(Do(s, Renew)) && old(tokens) <= tokens
    {
      registry.RenewCancellationToken(id);
      ghost var token := registry.sessions[id].token;
      assert token !in old(tokens);
      HeldStay(read, tokens, token, s.read);
      HeldStay(runs, tokens, token, s.runs);
      hide HeldAre;
      tokens := tokens + [token];
    }

    method PerformRead(call: nat, ghost s: State)
      requires Represents(s)
      modifies this`read
      ensures Represents(Do(s, ReadForCancel(call)))
    {
      var token := registry.TokenOf(id);
      read := read[call := token.value];
    }

    method PerformFire(call: nat, ghost s: State)
      requires Represents(s)
      modifies this`read, tokens
      ensures Represents(Do(s, FireCancel(call)))
    {
      if call in read {
        var token := read[call];
        assert token == tokens[s.read[call]];
        read := read - {call};
        token.Cancel();
      }
    }

    method PerformTake(run: nat, ghost s: State)
      requires Represents(s)
      modifies this`runs
      ensures Represents(Do(s, TakeHandles(run)))
    {
      var handles := registry.ExecutionHandles(id);
      runs := runs[run := handles.value.1];
    }

    /** Every step of the state machine is what the registry's methods do to the objects. */
    method Perform(step: Step, ghost s: State)
      requires Represents(s)
      modifies this, registry, tokens
      ensures Represents(Do(s, step)) && old(tokens) <= tokens
    {
      match step {
        case Renew => PerformRenew(s);
        case ReadForCancel(call) => PerformRead(call, s);
        case FireCancel(call) => PerformFire(call, s);
        case TakeHandles(run) => PerformTake(run, s);
      }
    }
  }

  lemma HeldStay(
      held: map<nat, CancellationToken>, tokens: seq<CancellationToken>, token: CancellationToken, numbers: map<nat, nat>)
    requires HeldAre(held, tokens, numbers)
    ensures HeldAre(held, tokens + [token], numbers)
  {
  }

  /** The held tokens are those with the given numbers. */
  ghost predicate HeldAre(held: map<nat, CancellationToken>, tokens: seq<CancellationToken>, numbers: map<nat, nat>) {
    held.Keys == numbers.Keys && forall c <- held :: numbers[c] < |tokens| && held[c] == tokens[numbers[c]]
  }

  function DoAll(trace: seq<Step>): State {
    if trace == [] then INITIAL else Do(DoAll(trace[..|trace| - 1]), trace[|trace| - 1])
  }

  function Renewals(trace: seq<Step>): nat {
    if trace == [] then 0
    else Renewals(trace[..|trace| - 1]) + if trace[|trace| - 1] == Renew then 1 else 0
  }

  /** The step at which the call last read the token, unless it has fired since. */
  function LastRead(trace: seq<Step>, call: nat): (r: Option<nat>)
    ensures r.Some? ==> r.value < |trace| && trace[r.value] == ReadForCancel(call)
    ensures r.Some? ==> forall k :: r.value < k < |trace| ==> trace[k] != FireCancel(call) && trace[k] != ReadForCancel(call)
  {
    if trace == [] then None
    else
      var n := |trace| - 1;
      if trace[n] == ReadForCancel(call) then Some(n)
      else if trace[n] == FireCancel(call) then None
      else LastRead(trace[..n], call)
  }

  /** At step `j` a cancel fires that had read the token while `k` was the current one. */
  predicate HitsAt(trace: seq<Step>, j: nat, k: nat) {
    && j < |trace| && trace[j].FireCancel?
    && LastRead(trace[..j], trace[j].call).Some?
    && Renewals(trace[..LastRead(trace[..j], trace[j].call).value]) == k
  }

  lemma {:induction false} CurrentIsRenewals(trace: seq<Step>)
    ensures DoAll(trace).current == Renewals(trace)
  {
    if trace != [] {
      CurrentIsRenewals(trace[..|trace| - 1]);
    }
  }

  lemma {:induction false} ReadIsRemembered(trace: seq<Step>, call: nat)
    ensures var s, i := DoAll(trace), LastRead(trace, call);
      && (call in s.read <==> i.Some?)
      && (i.Some? ==> s.read[call] == Renewals(trace[..i.value]))
  {
    if trace != [] {
      var n := |trace| - 1;
      ReadIsRemembered(trace[..n], call);
      CurrentIsRenewals(trace[..n]);
      var i := LastRead(trace, call);
      if i.Some? && i.value < n {
        assert trace[..n][..i.value] == trace[..i.value];
      }
    }
  }

  /**
   In every interleaving a token is cancelled exactly when some cancel that
   read it while it was current has fired.
   */
  lemma {:induction false} CancelledExactlyWhenRead(trace: seq<Step>, k: nat)
    ensures k in DoAll(trace).cancelled <==> exists j: nat :: HitsAt(trace, j, k)
  {
    if trace != [] {
      var n := |trace| - 1;
      var front := trace[..n];
      CancelledExactlyWhenRead(front, k);
      forall j: nat | j < n
        ensures HitsAt(trace, j, k) <==> HitsAt(front, j, k)
      {
        assert trace[..j] == front[..j];
        SameHit(trace, front, j, k);
      }
      if trace[n].FireCancel? {
        ReadIsRemembered(front, trace[n].call);
        LastHit(trace, k);
      }
      if j: nat :| HitsAt(front, j, k) {
        assert HitsAt(trace, j, k);
      }
      assert HitsAt(trace, n, k) ==> trace[n].FireCancel?;
    }
  }

  lemma SameHit(trace: seq<Step>, front: seq<Step>, j: nat, k: nat)
    requires j < |front| <= |trace| && trace[j] == front[j] && trace[..j] == front[..j]
    ensures HitsAt(trace, j, k) <==> HitsAt(front, j, k)
  {
    if trace[j].FireCancel? {
      var r := LastRead(trace[..j], trace[j].call);
      if r.Some? {
        assert trace[..r.value] == trace[..j][..r.value];
        assert front[..r.value] == front[..j][..r.value];
      }
    }
  }

  lemma LastHit(trace: seq<Step>, k: nat)
    requires trace != [] && trace[|trace| - 1].FireCancel?
    ensures var n := |trace| - 1;
      var r := LastRead(trace[..n], trace[n].call);
      HitsAt(trace, n, k) <==> r.Some? && Renewals(trace[..n][..r.value]) == k
  {
    var n := |trace| - 1;
    var r := LastRead(trace[..n], trace[n].call);
    if r.Some? {
      assert trace[..n][..r.value] == trace[..r.value];
    }
  }

  /** The token a run works with: the one that was current when it took its handles. */
  lemma {:induction false} RunHoldsCurrentToken(trace: seq<Step>, run: nat, h: nat)
    requires h < |trace| && trace[h] == TakeHandles(run)
    requires forall k :: h < k < |trace| ==> trace[k] != TakeHandles(run)
    ensures run in DoAll(trace).runs && DoAll(trace).runs[run] == Renewals(trace[..h])
  {
    var n := |trace| - 1;
    if h == n {
      CurrentIsRenewals(trace[..n]);
    } else {
      RunHoldsCurrentToken(trace[..n], run, h);
      assert trace[..n][..h] == trace[..h];
    }
  }

  /** A run is cancelled exactly when a cancel that fired had read the token between the same two renewals. */
  lemma RunIsCancelledExactly(trace: seq<Step>, run: nat, h: nat)
    requires h < |trace| && trace[h] == TakeHandles(run)
    requires forall k :: h < k < |trace| ==> trace[k] != TakeHandles(run)
    ensures run in DoAll(trace).runs
    ensures DoAll(trace).runs[run] in DoAll(trace).cancelled
       <==> exists j: nat :: HitsAt(trace, j, Renewals(trace[..h]))
  {
    hide DoAll, HitsAt, Renewals;
    RunHoldsCurrentToken(trace, run, h);
    CancelledExactlyWhenRead(trace, Renewals(trace[..h]));
  }

  /** Cancelled tokens never revert. */
  lemma {:induction false} CancelledForGood(trace: seq<Step>, more: seq<Step>)
    ensures DoAll(trace).cancelled <= DoAll(trace + more).cancelled
    decreases |more|
  {
    if more == [] {
      assert trace + more == trace;
    } else {
      var n := |more| - 1;
      assert (trace + more)[..|trace| + n] == trace + more[..n];
      CancelledForGood(trace, more[..n]);
    }
  }

  lemma {:induction false} RenewalsAppend(trace: seq<Step>, more: seq<Step>)
    ensures Renewals(trace + more) == Renewals(trace) + Renewals(more)
    decreases |more|
  {
    if more == [] {
      assert trace + more == trace;
    } else {
      var n := |more| - 1;
      assert (trace + more)[..|trace| + n] == trace + more[..n];
      RenewalsAppend(trace, more[..n]);
    }
  }

  /** A cancel that read the token before a renewal cannot hit the next run, however late it fires. */
  lemma LateCancelSparesNextRun(trace: seq<Step>, more: seq<Step>)
    requires forall step <- more :: !step.ReadForCancel?
    ensures Renewals(trace) + 1 !in DoAll(trace + [Renew] + more).cancelled
  {
    hide DoAll;
    var all, k := trace + [Renew] + more, Renewals(trace) + 1;
    CancelledExactlyWhenRead(all, k);
    forall j: nat
      ensures !HitsAt(all, j, k)
    {
      if j < |all| && all[j].FireCancel? && LastRead(all[..j], all[j].call).Some? {
        var i := LastRead(all[..j], all[j].call).value;
        ReadBeforeRenewal(trace, more, i);
      }
    }
  }

  lemma TailMember(trace: seq<Step>, more: seq<Step>, i: nat)
    requires |trace| < i < |trace + [Renew] + more|
    ensures (trace + [Renew] + more)[i] in more
  {
    assert (trace + [Renew] + more)[i] == more[i - |trace| - 1];
  }

  lemma ReadBeforeRenewal(trace: seq<Step>, more: seq<Step>, i: nat)
    requires forall step <- more :: !step.ReadForCancel?
    requires i < |trace + [Renew] + more| && (trace + [Renew] + more)[i].ReadForCancel?
    ensures Renewals((trace + [Renew] + more)[..i]) <= Renewals(trace)
  {
    var all := trace + [Renew] + more;
    if i > |trace| {
      TailMember(trace, more, i);
    }
    assert all[..i] == trace[..i] && trace == trace[..i] + trace[i..];
    RenewalsAppend(trace[..i], trace[i..]);
  }
}
