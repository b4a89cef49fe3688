/** One conversation under many chat runs and confirmations. A run captures the crew and the open
    proposal at request entry and may persist much later, with or without a lease; confirmations
    redeem whatever proposal is open. Ghost history: every proposal ever minted, every digest
    ever redeemed, and the crew the conversation started with. */
module ConversationRuns {
  import opened Wrappers
  import opened Handoff
  import opened Conversation
  import opened ConversationStores
  import opened ConversationAgreement

  type RunId = string

  // What a run captured at request entry.
  datatype RunView = RunView(workload: Crew, seen: Option<Pending>, creates: bool)

  datatype System = System(
    cell: MemCell,
    clock: int,
    runs: map<RunId, RunView>,
    origin: Crew,
    minted: map<Digest, Pending>,
    redeemed: seq<Digest>)

  datatype Event =
    | Open(run: RunId, workload: Crew)
    | Begin(run: RunId, now: int, ttl: int)
    | Persist(run: RunId, typed: bool, prompt: string, reply: string, traceId: Option<string>,
              proposal: Option<Proposal>, nonce: string, now: int)
    | Finish(run: RunId)
    | Redeem(call: RedeemCall)

  function Instant(e: Event): Option<int> {
    match e
    case Open(_, _) => None
    case Finish(_) => None
    case Begin(_, now, _) => Some(now)
    case Persist(_, _, _, _, _, _, _, now) => Some(now)
    case Redeem(call) => Some(call.now)
  }

  predicate Enabled(s: System, e: Event) {
    && (Instant(e).Some? ==> s.clock <= Instant(e).value)
    && match e
       case Open(run, workload) =>
         run != "" && run !in s.runs && workload != "" &&
         (s.cell.doc.Some? ==> s.cell.doc.value.workload == Some(workload))   // the crew lock
       case Begin(run, _, _) => run in s.runs
       case Persist(run, _, _, _, _, proposal, nonce, _) =>
         run in s.runs &&
         (proposal.Some? ==> && proposal.value.from == s.runs[run].workload && proposal.value.to != ""
                             && nonce != "" && Sha256(nonce) !in s.minted)
       case Finish(run) => run in s.runs
       case Redeem(call) => call.runId.Some? ==> call.runId.value != "" && call.runId.value !in s.runs
  }

  function TurnsOf(e: Event, workload: Crew): seq<TurnInput>
    requires e.Persist?
  {
    (if e.typed then [TurnInput(User, e.prompt, workload, e.traceId, None)] else []) +
    [TurnInput(CrewReply, e.reply, workload, e.traceId, None)]
  }

  function CallOf(e: Event, view: RunView): AppendCall
    requires e.Persist?
  {
    AppendCall(
      TurnsOf(e, view.workload),
      if view.creates then Some(Creation(view.workload, e.prompt)) else None,
      if e.proposal.Some? then Some(BuildPending(e.proposal.value, Sha256(e.nonce), e.now)) else None,
      e.typed,
      Some(view.workload),
      Seen(if view.seen.Some? then view.seen.value.digest else None))
  }

  function Tick(s: System, e: Event): System {
    if Instant(e).Some? then s.(clock := Instant(e).value) else s
  }

  function Next(s: System, e: Event): System
    requires Enabled(s, e)
  {
    var t := Tick(s, e);
    match e
    case Open(run, workload) =>
      t.(runs := t.runs[run := RunView(workload, if t.cell.doc.Some? then t.cell.doc.value.pending else None,
                                       t.cell.doc.None?)])
    case Begin(run, now, ttl) => t.(cell := t.cell.(doc := BeginRun(t.cell.doc, run, now, ttl).0))
    case Finish(run) => t.(cell := t.cell.(doc := FinishRun(t.cell.doc, run)))
    case Persist(run, _, _, _, _, proposal, nonce, now) =>
      var call := CallOf(e, t.runs[run]);
      var cell := MemAppend(t.cell, call).0;
      t.(cell := cell,
         runs := t.runs[run := t.runs[run].(creates := false)],
         origin := if t.cell.doc.None? && cell.doc.Some? then t.runs[run].workload else t.origin,
         minted := if call.pending.Some? then t.minted[Sha256(nonce) := call.pending.value] else t.minted)
    case Redeem(call) =>
      var (cell, r) := MemRedeem(t.cell, call);
      if r.Err? then t.(cell := cell)
      else
        var p := r.value.pending;
        t.(cell := cell,
           runs := if call.accept && call.runId.Some?
                   then t.runs[call.runId.value := RunView(p.proposal.to, None, false)] else t.runs,
           redeemed := t.redeemed + [p.digest.value])
  }

  ghost predicate Legal(s: System, events: seq<Event>)
    decreases |events|
  {
    events == [] || (Enabled(s, events[0]) && Legal(Next(s, events[0]), events[1..]))
  }

  ghost function After(s: System, events: seq<Event>): System
    requires Legal(s, events)
    decreases |events|
  {
    if events == [] then s else After(Next(s, events[0]), events[1..])
  }

  // ----- Where a conversation may start ---------------------------------------------------

  /** Written before participants and the prompt counter were stored: prompts and replies
      alternate, and no transition ever happened. */
  ghost predicate Legacy(cell: MemCell, origin: Crew) {
    && cell.doc.Some?
    && var d := cell.doc.value;
       && d.workload == Some(origin) && origin != ""
       && d.crews.None? && d.userTurnCount.None? && d.pending.None? && d.lease.None?
       && d.turnCount == |cell.rows|
       && forall i :: 0 <= i < |cell.rows| ==>
            && cell.rows[i].number == i
            && cell.rows[i].input.role == if i % 2 == 0 then User else CrewReply
  }

  ghost predicate Initial(s: System) {
    && (s.cell == MemCell(None, []) || Legacy(s.cell, s.origin))
    && s.runs == map[] && s.minted == map[] && s.redeemed == []
  }

  // ----- Numbering and the prompt count ---------------------------------------------------

  function Inputs(rows: seq<Turn>): seq<TurnInput> {
    seq(|rows|, i requires 0 <= i < |rows| => rows[i].input)
  }

  ghost predicate Counted(cell: MemCell) {
    && (cell.doc.None? ==> cell.rows == [])
    && (cell.doc.Some? ==>
          && cell.doc.value.turnCount == |cell.rows|
          && ConversationUserTurns(cell.doc.value) == CountUsers(Inputs(cell.rows)))
    && forall i :: 0 <= i < |cell.rows| ==> cell.rows[i].number == i
  }

  lemma {:induction false} CountUsersAppends(a: seq<TurnInput>, b: seq<TurnInput>)
    ensures CountUsers(a + b) == CountUsers(a) + CountUsers(b)
  {
    if a == [] {
      assert a + b == b;
    } else {
      CountUsersAppends(a[1..], b);
      assert (a + b)[1..] == a[1..] + b;
    }
  }

  lemma {:induction false} LegacyCountIsExact(rows: seq<Turn>)
    requires forall i :: 0 <= i < |rows| ==> rows[i].input.role == if i % 2 == 0 then User else CrewReply
    ensures CountUsers(Inputs(rows)) == (|rows| + 1) / 2
  {
    if rows != [] {
      var init, last := rows[..|rows| - 1], rows[|rows| - 1];
      LegacyCountIsExact(init);
      assert Inputs(rows) == Inputs(init) + [last.input];
      CountUsersAppends(Inputs(init), [last.input]);
      assert CountUsers([last.input]) == if last.input.role == User then 1 else 0;
    }
  }

  lemma AppendKeepsCount(cell: MemCell, call: AppendCall)
    requires Counted(cell)
    ensures Counted(MemAppend(cell, call).0)
  {
    if cell.doc.Some? || call.createWith.Some? {
      var d := if cell.doc.Some? then cell.doc.value else NewDoc(call.createWith.value);
      var added := Numbered(d.turnCount, call.turns);
      assert Inputs(cell.rows + added) == Inputs(cell.rows) + call.turns;
      CountUsersAppends(Inputs(cell.rows), call.turns);
    }
  }

  lemma RedeemKeepsCount(cell: MemCell, call: RedeemCall)
    requires Counted(cell)
    ensures Counted(MemRedeem(cell, call).0)
  {
    var verdict := EvaluateRedemption(cell.doc, call.nonce, call.now);
    if verdict.Ok? {
      var turn := TransitionTurn(verdict.value.proposal, call.accept, call.traceId);
      assert Inputs(cell.rows + [Turn(cell.doc.value.turnCount, turn)]) == Inputs(cell.rows) + [turn];
      CountUsersAppends(Inputs(cell.rows), [turn]);
      assert CountUsers([turn]) == 0;
    }
  }

  // ----- Ownership is what the transcript replays to --------------------------------------

  predicate IsTransition(t: Turn) {
    t.input.role == CrewChange && t.input.handoff.Some?
  }

  /** The target of the last accepted transition, or the crew the conversation started with. */
  function BoundAfter(origin: Crew, rows: seq<Turn>): Crew {
    if rows == [] then origin
    else if IsTransition(rows[|rows| - 1]) then rows[|rows| - 1].input.handoff.value.to
    else BoundAfter(origin, rows[..|rows| - 1])
  }

  function Targets(rows: seq<Turn>): seq<Crew> {
    if rows == [] then []
    else Targets(rows[..|rows| - 1]) +
         if IsTransition(rows[|rows| - 1]) then [rows[|rows| - 1].input.handoff.value.to] else []
  }

  function FirstAt(crews: seq<Crew>, c: Crew): (i: nat)
    requires c in crews
    ensures i < |crews| && crews[i] == c && c !in crews[..i]
  {
    if crews[0] == c then 0
    else
      var i := FirstAt(crews[1..], c);
      assert crews[..i + 1] == [crews[0]] + crews[1..][..i];
      1 + i
  }

  /** `out` lists what `all` contains, each once, in order of first occurrence. */
  ghost predicate FirstOccurrences(out: seq<Crew>, all: seq<Crew>) {
    && (forall c :: c in out <==> c in all)
    && forall i, j :: 0 <= i < j < |out| ==> FirstAt(all, out[i]) < FirstAt(all, out[j])
  }

  ghost predicate Owned(cell: MemCell, origin: Crew) {
    cell.doc.Some? ==>
      && var d := cell.doc.value;
         && origin != ""
         && d.workload == Some(BoundAfter(origin, cell.rows))
         && FirstOccurrences(ConversationCrews(d), [origin] + Targets(cell.rows))
         && "" !in ConversationCrews(d)
         && BoundAfter(origin, cell.rows) in ConversationCrews(d)
  }

  lemma {:induction false} OrdinaryRowsMoveNothing(origin: Crew, rows: seq<Turn>, more: seq<Turn>)
    requires forall i :: 0 <= i < |more| ==> !IsTransition(more[i])
    ensures BoundAfter(origin, rows + more) == BoundAfter(origin, rows)
    ensures Targets(rows + more) == Targets(rows)
  {
    if more == [] {
      assert rows + more == rows;
    } else {
      var init := more[..|more| - 1];
      OrdinaryRowsMoveNothing(origin, rows, init);
      assert (rows + more)[..|rows + more| - 1] == rows + init;
    }
  }

  lemma TransitionRowMoves(origin: Crew, rows: seq<Turn>, t: Turn)
    ensures IsTransition(t) ==>
              BoundAfter(origin, rows + [t]) == t.input.handoff.value.to &&
              Targets(rows + [t]) == Targets(rows) + [t.input.handoff.value.to]
  {
    assert (rows + [t])[..|rows|] == rows;
  }

  lemma {:induction false} FirstAtIs(crews: seq<Crew>, c: Crew, i: nat)
    requires i < |crews| && crews[i] == c && c !in crews[..i]
    ensures FirstAt(crews, c) == i
  {
    if i > 0 {
      assert crews[0] in crews[..i];
      assert forall x :: x in crews[1..][..i - 1] ==> x in crews[..i];
      FirstAtIs(crews[1..], c, i - 1);
    }
  }

  lemma FirstAtOfPrefix(all: seq<Crew>, c: Crew, x: Crew)
    requires c in all
    ensures FirstAt(all + [x], c) == FirstAt(all, c)
  {
    var i := FirstAt(all, c);
    assert (all + [x])[..i] == all[..i];
    FirstAtIs(all + [x], c, i);
  }

  lemma FirstOccurrencesExtend(out: seq<Crew>, all: seq<Crew>, x: Crew)
    requires FirstOccurrences(out, all)
    ensures FirstOccurrences(if x in out then out else out + [x], all + [x])
  {
    var out' := if x in out then out else out + [x];
    forall i, j | 0 <= i < j < |out'|
      ensures FirstAt(all + [x], out'[i]) < FirstAt(all + [x], out'[j])
    {
      assert out'[i] == out[i] && out[i] in out;
      FirstAtOfPrefix(all, out[i], x);
      if j < |out| {
        assert out[j] in out;
        FirstAtOfPrefix(all, out[j], x);
      } else {
        assert (all + [x])[..|all|] == all;
        FirstAtIs(all + [x], x, |all|);
      }
    }
  }

  lemma {:induction false} NothingToDrop(crews: seq<Crew>)
    requires "" !in crews
    ensures NonEmpty(crews) == crews
  {
    if crews != [] {
      NothingToDrop(crews[1..]);
    }
  }

  lemma AppendKeepsOwner(cell: MemCell, call: AppendCall, origin: Crew)
    requires Counted(cell) && Owned(cell, origin)
    requires forall i :: 0 <= i < |call.turns| ==> call.turns[i].role != CrewChange
    requires cell.doc.None? && call.createWith.Some? ==> call.createWith.value.workload == origin != ""
    ensures Owned(MemAppend(cell, call).0, origin)
  {
    if cell.doc.Some? || call.createWith.Some? {
      var d := if cell.doc.Some? then cell.doc.value else NewDoc(call.createWith.value);
      OrdinaryRowsMoveNothing(origin, cell.rows, Numbered(d.turnCount, call.turns));
      if cell.doc.None? {
        assert Targets(cell.rows) == [];
        CrewsReadBack(d);
        OneCrew(origin);
        assert [origin] + Targets(cell.rows) == [origin];
      }
    }
  }

  lemma CrewsReadBack(d: Doc)
    requires d.crews.Some? && d.crews.value != [] && "" !in d.crews.value
    ensures ConversationCrews(d) == d.crews.value
  {
    NothingToDrop(d.crews.value);
  }

  /** The stored participant list after `to` joins, read back through its fallback. */
  lemma JoinedCrews(before: seq<Crew>, d: Doc, to: Crew, all: seq<Crew>)
    requires FirstOccurrences(before, all) && "" !in before && to != ""
    requires d.crews == Some(if to in before then before else before + [to])
    ensures FirstOccurrences(ConversationCrews(d), all + [to])
    ensures "" !in ConversationCrews(d) && to in ConversationCrews(d)
  {
    FirstOccurrencesExtend(before, all, to);
    CrewsReadBack(d);
  }

  lemma RedeemKeepsOwner(cell: MemCell, call: RedeemCall, origin: Crew)
    requires Owned(cell, origin)
    requires cell.doc.Some? && cell.doc.value.pending.Some? ==> cell.doc.value.pending.value.proposal.to != ""
    ensures Owned(MemRedeem(cell, call).0, origin)
  {
    var verdict := EvaluateRedemption(cell.doc, call.nonce, call.now);
    if verdict.Ok? {
      var d, p := cell.doc.value, verdict.value.proposal;
      var t := Turn(d.turnCount, TransitionTurn(p, call.accept, call.traceId));
      var cell' := MemRedeem(cell, call).0;
      assert cell'.rows == cell.rows + [t];
      if call.accept {
        TransitionRowMoves(origin, cell.rows, t);
        JoinedCrews(ConversationCrews(d), cell'.doc.value, p.to, [origin] + Targets(cell.rows));
        assert [origin] + Targets(cell.rows) + [p.to] == [origin] + (Targets(cell.rows) + [p.to]);
      } else {
        OrdinaryRowsMoveNothing(origin, cell.rows, [t]);
        assert ConversationCrews(cell'.doc.value) == ConversationCrews(d);
      }
    }
  }

  // ----- The open proposal, and everything ever proposed ----------------------------------

  ghost predicate Known(minted: map<Digest, Pending>, p: Pending) {
    p.digest.Some? && p.digest.value in minted && minted[p.digest.value] == p
  }

  ghost predicate Distinct(ds: seq<Digest>) {
    forall i, j :: 0 <= i < j < |ds| ==> ds[i] != ds[j]
  }

  ghost predicate Controlled(s: System) {
    && (s.cell.doc.Some? && s.cell.doc.value.pending.Some? ==>
          var p := s.cell.doc.value.pending.value;
          && Known(s.minted, p) && p.digest.value !in s.redeemed
          && Some(p.proposal.from) == s.cell.doc.value.workload && p.proposal.to != "")
    && (forall r :: r in s.runs ==> r != "" && s.runs[r].workload != "" &&
                                    (s.runs[r].seen.Some? ==> Known(s.minted, s.runs[r].seen.value)))
    && (forall i :: 0 <= i < |s.redeemed| ==> s.redeemed[i] in s.minted)
    && Distinct(s.redeemed)
  }

  ghost predicate SystemInv(s: System) {
    Counted(s.cell) && Owned(s.cell, s.origin) && Controlled(s)
  }

  lemma OneCrew(origin: Crew)
    ensures FirstOccurrences([origin], [origin])
  {
  }

  lemma LegacyOwned(cell: MemCell, origin: Crew)
    requires Legacy(cell, origin)
    ensures Owned(cell, origin)
  {
    OrdinaryRowsMoveNothing(origin, [], cell.rows);
    assert [] + cell.rows == cell.rows;
    OneCrew(origin);
    assert [origin] + Targets(cell.rows) == [origin];
  }

  lemma InitialHolds(s: System)
    requires Initial(s)
    ensures SystemInv(s)
  {
    if s.cell.doc.Some? {
      LegacyCountIsExact(s.cell.rows);
      LegacyOwned(s.cell, s.origin);
    }
  }

  lemma PersistControls(s: System, e: Event)
    requires Controlled(s) && Enabled(s, e) && e.Persist?
    requires s.cell.doc.Some? ==> s.cell.doc.value.workload.Some?
    ensures Controlled(Next(s, e))
  {
    var s' := Next(s, e);
    assert forall p: Pending :: Known(s.minted, p) ==> Known(s'.minted, p);
  }

  lemma PersistKeeps(s: System, e: Event)
    requires Counted(s.cell) && Owned(s.cell, s.origin) && Enabled(s, e) && e.Persist?
    requires s.runs[e.run].workload != ""
    ensures Counted(Next(s, e).cell) && Owned(Next(s, e).cell, Next(s, e).origin)
  {
    var call := CallOf(e, s.runs[e.run]);
    AppendKeepsCount(s.cell, call);
    AppendKeepsOwner(s.cell, call, Next(s, e).origin);
  }

  lemma RedeemControls(s: System, e: Event)
    requires Controlled(s) && Enabled(s, e) && e.Redeem?
    ensures Controlled(Next(s, e))
  {
    var s' := Next(s, e);
    assert s'.minted == s.minted;
    assert s'.cell.doc.Some? && s'.cell.doc.value.pending.Some? ==> s'.cell == s.cell && s'.redeemed == s.redeemed;
  }

  /** Two cells that differ in the lease alone. */
  ghost predicate LeaseApart(a: MemCell, b: MemCell) {
    && b.rows == a.rows && b.doc.Some? == a.doc.Some?
    && (a.doc.Some? ==> b.doc.value == a.doc.value.(lease := b.doc.value.lease))
  }

  lemma LeaseKeepsCell(a: MemCell, b: MemCell, origin: Crew)
    requires LeaseApart(a, b) && Counted(a) && Owned(a, origin)
    ensures Counted(b) && Owned(b, origin)
  {
    if a.doc.Some? {
      assert ConversationCrews(b.doc.value) == ConversationCrews(a.doc.value);
    }
  }

  lemma LeaseSteps(s: System, e: Event)
    requires Enabled(s, e) && (e.Begin? || e.Finish? || e.Open?)
    ensures LeaseApart(s.cell, Next(s, e).cell) && Next(s, e).origin == s.origin
  {
  }

  lemma LeaseControls(s: System, e: Event)
    requires Controlled(s) && Enabled(s, e) && (e.Begin? || e.Finish? || e.Open?)
    ensures Controlled(Next(s, e))
  {
    LeaseSteps(s, e);
  }

  lemma StepKeeps(s: System, e: Event)
    requires SystemInv(s) && Enabled(s, e)
    ensures SystemInv(Next(s, e))
  {
    if e.Persist? {
      PersistControls(s, e);
      PersistKeeps(s, e);
    } else if e.Redeem? {
      RedeemControls(s, e);
      RedeemKeepsCount(s.cell, e.call);
      RedeemKeepsOwner(s.cell, e.call, s.origin);
    } else {
      LeaseControls(s, e);
      LeaseSteps(s, e);
      LeaseKeepsCell(s.cell, Next(s, e).cell, s.origin);
    }
  }

  lemma {:induction false} RunKeeps(s: System, events: seq<Event>)
    requires SystemInv(s) && Legal(s, events)
    ensures SystemInv(After(s, events))
    decreases |events|
  {
    if events != [] {
      StepKeeps(s, events[0]);
      RunKeeps(Next(s, events[0]), events[1..]);
    }
  }

  // ----- What holds of every reachable conversation ---------------------------------------

  /** Turns are numbered 0, 1, 2, ... and the prompt count is the number of typed rows, from a
      new conversation or from one that predates the counter. */
  lemma TurnsAreNumberedAndCounted(s: System, events: seq<Event>)
    requires Initial(s) && Legal(s, events) && After(s, events).cell.doc.Some?
    ensures var cell := After(s, events).cell;
            && cell.doc.value.turnCount == |cell.rows|
            && (forall i :: 0 <= i < |cell.rows| ==> cell.rows[i].number == i)
            && ConversationUserTurns(cell.doc.value) == CountUsers(Inputs(cell.rows))
  {
    InitialHolds(s);
    RunKeeps(s, events);
  }

  /** The transcript alone says who is bound and who took part. */
  lemma TranscriptDeterminesOwnership(s: System, events: seq<Event>)
    requires Initial(s) && Legal(s, events) && After(s, events).cell.doc.Some?
    ensures var end := After(s, events);
            var d, bound := end.cell.doc.value, BoundAfter(end.origin, end.cell.rows);
            && d.workload == Some(bound)
            && bound in ConversationCrews(d)
            && FirstOccurrences(ConversationCrews(d), [end.origin] + Targets(end.cell.rows))
  {
    InitialHolds(s);
    RunKeeps(s, events);
  }

  lemma NeverStale(s: System, nonce: string, now: int)
    requires Controlled(s)
    ensures EvaluateRedemption(s.cell.doc, nonce, now) != Err(Stale)
  {
  }

  /** An open proposal always starts from the bound crew, so no redemption is ever stale. */
  lemma NoProposalIsStale(s: System, events: seq<Event>, nonce: string, now: int)
    requires Initial(s) && Legal(s, events)
    ensures var doc := After(s, events).cell.doc;
            && (doc.Some? && doc.value.pending.Some? ==>
                  Some(doc.value.pending.value.proposal.from) == doc.value.workload)
            && EvaluateRedemption(doc, nonce, now) != Err(Stale)
  {
    InitialHolds(s);
    RunKeeps(s, events);
    NeverStale(After(s, events), nonce, now);
  }

  lemma UnseenSurvivesStep(s: System, e: Event, p: Pending)
    requires Controlled(s) && Enabled(s, e) && s.cell.doc.Some? && s.cell.doc.value.pending == Some(p)
    ensures var doc' := Next(s, e).cell.doc;
            doc'.Some? &&
            (doc'.value.pending != Some(p) ==>
               || (e.Persist? && s.runs[e.run].seen == Some(p))
               || (e.Redeem? && p.digest == Some(Sha256(e.call.nonce)) && p.expiresAt.Some? && e.call.now < p.expiresAt.value))
  {
  }

  /** However ownership cycles, a proposal ends only by its own redemption or by a run that saw
      that very proposal when it began. */
  lemma UnseenProposalsSurvive(s: System, events: seq<Event>, e: Event, p: Pending)
    requires Initial(s) && Legal(s, events) && Enabled(After(s, events), e)
    requires var doc := After(s, events).cell.doc; doc.Some? && doc.value.pending == Some(p)
    ensures var now := After(s, events);
            var doc' := Next(now, e).cell.doc;
            doc'.Some? &&
            (doc'.value.pending != Some(p) ==>
               || (e.Persist? && now.runs[e.run].seen == Some(p))
               || (e.Redeem? && p.digest == Some(Sha256(e.call.nonce)) && p.expiresAt.Some? && e.call.now < p.expiresAt.value))
  {
    InitialHolds(s);
    RunKeeps(s, events);
    UnseenSurvivesStep(After(s, events), e, p);
  }

  /** A nonce is spent once: no digest appears twice among the redemptions that succeeded. */
  lemma NoncesRedeemOnce(s: System, events: seq<Event>)
    requires Initial(s) && Legal(s, events)
    ensures Distinct(After(s, events).redeemed)
  {
    InitialHolds(s);
    RunKeeps(s, events);
  }

  /** Only an accepted redemption of the open, matching, unexpired proposal moves the crew, to
      that proposal's target; a refusal changes nothing at all. */
  lemma OnlyRedemptionMovesTheCrew(s: System, e: Event)
    requires Enabled(s, e) && s.cell.doc.Some?
    ensures var before, after := s.cell.doc.value, Next(s, e).cell.doc;
            && after.Some?
            && (after.value.workload != before.workload ==>
                  && e.Redeem? && e.call.accept
                  && before.pending.Some? && before.pending.value.digest == Some(Sha256(e.call.nonce))
                  && before.pending.value.expiresAt.Some? && e.call.now < before.pending.value.expiresAt.value
                  && after.value.workload == Some(before.pending.value.proposal.to))
            && (e.Redeem? && MemRedeem(s.cell, e.call).1.Err? ==>
                  Next(s, e).cell == s.cell && Next(s, e).redeemed == s.redeemed)
  {
  }

  // ----- The lease ------------------------------------------------------------------------

  predicate Holds(s: System, run: RunId, deadline: int) {
    s.cell.doc.Some? && s.cell.doc.value.lease == Some(Lease(run, Some(deadline)))
  }

  /** The holder does not finish, and nothing happens at or after the deadline. */
  ghost predicate Within(events: seq<Event>, run: RunId, deadline: int) {
    forall i :: 0 <= i < |events| ==>
      events[i] != Finish(run) && (Instant(events[i]).Some? ==> Instant(events[i]).value < deadline)
  }

  lemma LeaseSurvivesStep(s: System, e: Event, run: RunId, deadline: int)
    requires Enabled(s, e) && Holds(s, run, deadline) && run != ""
    requires e != Finish(run) && (Instant(e).Some? ==> Instant(e).value < deadline)
    ensures Holds(Next(s, e), run, deadline)
    ensures Next(s, e).cell.doc.value.workload == s.cell.doc.value.workload
    ensures Next(s, e).redeemed == s.redeemed
  {
  }

  /** While a run holds the conversation no redemption succeeds and the crew stays bound. */
  lemma {:induction false} HeldConversationStands(s: System, run: RunId, deadline: int, events: seq<Event>)
    requires Holds(s, run, deadline) && run != "" && Legal(s, events) && Within(events, run, deadline)
    ensures Holds(After(s, events), run, deadline)
    ensures After(s, events).cell.doc.value.workload == s.cell.doc.value.workload
    ensures After(s, events).redeemed == s.redeemed
    decreases |events|
  {
    if events != [] {
      LeaseSurvivesStep(s, events[0], run, deadline);
      HeldConversationStands(Next(s, events[0]), run, deadline, events[1..]);
    }
  }

  /** From a successful `begin_chat_run` on an existing conversation, until its deadline or its
      holder's own finish. A finish by any other run, however late, frees nothing. */
  lemma BegunRunKeepsTheConversation(s: System, run: RunId, now: int, ttl: int, events: seq<Event>)
    requires Enabled(s, Begin(run, now, ttl)) && run != "" && s.cell.doc.Some?
    requires BeginRun(s.cell.doc, run, now, ttl).1
    requires Legal(Next(s, Begin(run, now, ttl)), events) && Within(events, run, now + ttl)
    ensures var end := After(Next(s, Begin(run, now, ttl)), events);
            && Holds(end, run, now + ttl)
            && end.cell.doc.value.workload == s.cell.doc.value.workload
            && end.redeemed == s.redeemed
  {
    HeldConversationStands(Next(s, Begin(run, now, ttl)), run, now + ttl, events);
  }

  /** An accepted redemption hands the conversation to its joining run, under the same terms. */
  lemma JoiningRunKeepsTheConversation(s: System, call: RedeemCall, events: seq<Event>)
    requires Enabled(s, Redeem(call)) && call.accept && call.runId.Some? && MemRedeem(s.cell, call).1.Ok?
    requires Legal(Next(s, Redeem(call)), events) && Within(events, call.runId.value, call.now + call.ttl)
    ensures var end := After(Next(s, Redeem(call)), events);
            && Holds(end, call.runId.value, call.now + call.ttl)
            && end.cell.doc.value.workload == Some(s.cell.doc.value.pending.value.proposal.to)
            && end.redeemed == s.redeemed + [Sha256(call.nonce)]
  {
    HeldConversationStands(Next(s, Redeem(call)), call.runId.value, call.now + call.ttl, events);
  }

  // ----- The same runs against the Firestore store ----------------------------------------

  /** The store call an event makes, if it makes one. */
  function StoreOp(s: System, e: Event): Option<Op>
    requires Enabled(s, e)
  {
    match e
    case Open(_, _) => None
    case Begin(run, now, ttl) => Some(BeginOp(run, now, ttl))
    case Persist(run, _, _, _, _, _, _, _) => Some(AppendOp(CallOf(e, s.runs[run])))
    case Finish(run) => Some(FinishOp(run))
    case Redeem(call) => Some(RedeemOp(call))
  }

  /** A creating run saw no document, hence no proposal. */
  ghost predicate CreatorsSawNothing(s: System) {
    forall r :: r in s.runs && s.runs[r].creates ==> s.runs[r].seen.None?
  }

  ghost function FirestoreAfter(s: System, f: FsCell, events: seq<Event>): FsCell
    requires Legal(s, events)
    decreases |events|
  {
    if events == [] then f
    else
      var op := StoreOp(s, events[0]);
      FirestoreAfter(Next(s, events[0]), if op.Some? then FsStep(f, op.value).0 else f, events[1..])
  }

  lemma EventIsOrdinary(s: System, e: Event)
    requires Enabled(s, e) && CreatorsSawNothing(s)
    ensures CreatorsSawNothing(Next(s, e))
    ensures match StoreOp(s, e)
            case None => Next(s, e).cell == s.cell
            case Some(op) => Ordinary(s.cell, op) && Next(s, e).cell == MemStep(s.cell, op).0
  {
  }

  /** Chat runs never leave the calls on which the stores agree: the Firestore store, fed the
      same events, holds the same document and transcript after any run. */
  lemma {:induction false} FirestoreFollows(s: System, f: FsCell, events: seq<Event>)
    requires Legal(s, events) && CreatorsSawNothing(s) && Agree(s.cell, f)
    ensures Agree(After(s, events).cell, FirestoreAfter(s, f, events))
    decreases |events|
  {
    if events != [] {
      EventIsOrdinary(s, events[0]);
      var op := StoreOp(s, events[0]);
      if op.Some? {
        StepKeepsAgreement(s.cell, f, op.value);
        FirestoreFollows(Next(s, events[0]), FsStep(f, op.value).0, events[1..]);
      } else {
        FirestoreFollows(Next(s, events[0]), f, events[1..]);
      }
    }
  }
}
