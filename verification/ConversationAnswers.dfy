/** What a conversation's operations answer and leave behind, read off the stored fields; and what
    follows over runs: a proposal's window, its retirement, and the end of a lease. */
module ConversationAnswers {
  import opened Wrappers
  import opened Handoff
  import opened Conversation
  import opened ConversationStores
  import opened ConversationAgreement
  import opened ConversationRuns

  // ----- Redemption, field by field -------------------------------------------------------

  /** No run holds the conversation: there is no lease, or it names no run, or its deadline cannot
      be read or has come. */
  predicate NobodyHolds(d: Doc, now: int) {
    match d.lease
    case None => true
    case Some(Lease(run, deadline)) => run == "" || deadline.None? || deadline.value <= now
  }

  /** A redemption is granted if and only if the open proposal is the nonce's own, its window is
      readable and still open, it starts from the bound crew, and nobody holds the conversation. */
  lemma GrantedExactly(conv: Option<Doc>, nonce: string, now: int)
    ensures EvaluateRedemption(conv, nonce, now).Ok?
            <==> && conv.Some? && conv.value.pending.Some?
                 && var p := conv.value.pending.value;
                    && nonce != "" && p.digest == Some(Sha256(nonce))
                    && p.expiresAt.Some? && now < p.expiresAt.value
                    && conv.value.workload == Some(p.proposal.from)
                    && NobodyHolds(conv.value, now)
    ensures EvaluateRedemption(conv, nonce, now).Ok? ==>
              Some(EvaluateRedemption(conv, nonce, now).value) == conv.value.pending
  {
  }

  /** Which refusal is given: the first that applies, in this order. */
  lemma RefusedExactly(conv: Option<Doc>, nonce: string, now: int)
    ensures var r := EvaluateRedemption(conv, nonce, now);
            && (r == Err(NotFound) <==> conv.None?)
            && (conv.Some? ==>
                  var d := conv.value;
                  && (r == Err(NoPending) <==> d.pending.None? || d.pending.value.digest.None?)
                  && (d.pending.Some? && d.pending.value.digest.Some? ==>
                        var p := d.pending.value;
                        var own := nonce != "" && Sha256(nonce) == p.digest.value;
                        var open := p.expiresAt.Some? && now < p.expiresAt.value;
                        var current := d.workload == Some(p.proposal.from);
                        && (r == Err(InvalidNonce) <==> !own)
                        && (r == Err(ExpiredProposal) <==> own && !open)
                        && (r == Err(Stale) <==> own && open && !current)
                        && (r == Err(Busy) <==> own && open && current && !NobodyHolds(d, now))))
  {
  }

  /** What a granted redemption leaves: one row more, saying what happened and belonging to the crew
      that now owns the conversation; no open proposal; the crew, the crews and the lease as
      accepted; everything else as it was. */
  lemma RedemptionLeavesExactly(cell: MemCell, call: RedeemCall)
    requires EvaluateRedemption(cell.doc, call.nonce, call.now).Ok?
    ensures var d, p := cell.doc.value, cell.doc.value.pending.value.proposal;
            var (after, answer) := MemRedeem(cell, call);
            && after.doc.Some? && |after.rows| == |cell.rows| + 1 && after.rows[..|cell.rows|] == cell.rows
            && var d', row := after.doc.value, after.rows[|cell.rows|];
               && row.number == d.turnCount && row.input.text == p.reason && row.input.traceId == call.traceId
               && row.input.handoff == Some(Route(p.from, p.to))
               && Some(row.input.workload) == d'.workload
               && (if call.accept then row.input.role == CrewChange && d'.workload == Some(p.to)
                   else row.input.role == HandoffDeclined && d'.workload == d.workload)
               && d'.pending.None? && d'.title == d.title && d'.turnCount == d.turnCount + 1
               && d'.crews == (if call.accept then Some(WithCrew(d, p.to)) else d.crews)
               && d'.lease == (if call.accept && call.runId.Some? && call.runId.value != ""
                               then Some(Lease(call.runId.value, Some(call.now + call.ttl))) else d.lease)
               && answer == Ok(Redeemed(d.pending.value, call.accept, if call.accept then call.runId else None))
  {
  }

  /** The same of the Firestore store: one document more under the next number, the same document
      but for the last trace id, and the same answer. */
  lemma FirestoreRedemptionLeavesExactly(cell: FsCell, call: RedeemCall)
    requires EvaluateRedemption(cell.doc, call.nonce, call.now).Ok?
    ensures var mem := MemRedeem(MemCell(cell.doc, []), call);
            var (after, answer) := FsRedeem(cell, call);
            && after.doc == Some(mem.0.doc.value.(lastTraceId := cell.doc.value.lastTraceId))
            && after.rows == cell.rows[cell.doc.value.turnCount := mem.0.rows[0]]
            && answer == mem.1
  {
  }

  // ----- Appending, field by field --------------------------------------------------------

  /** The writer is current: it names no crew or the bound one (or none is bound), and it names no
      proposal or the open one. */
  predicate Current(d: Doc, crew: Option<Crew>, seen: Expectation) {
    && (crew.None? || d.workload.None? || crew.value == d.workload.value)
    && (seen.Unset? || seen.digest == (if d.pending.Some? then d.pending.value.digest else None))
  }

  /** What is last among the given trace ids, or what was there before. */
  lemma {:induction false} LastTraceExactly(before: Option<string>, turns: seq<TurnInput>)
    ensures var r := LastTrace(before, turns);
            || (r == before && forall i :: 0 <= i < |turns| ==> turns[i].traceId.None? || turns[i].traceId.value == "")
            || (exists i :: && 0 <= i < |turns| && turns[i].traceId == r && r.Some? && r.value != ""
                            && forall j :: i < j < |turns| ==> turns[j].traceId.None? || turns[j].traceId.value == "")
  {
    if turns != [] {
      var last := |turns| - 1;
      var shorter := turns[..last];
      var t := turns[last].traceId;
      if t.Some? && t.value != "" {
        assert turns[last].traceId == LastTrace(before, turns);
      } else {
        LastTraceExactly(before, shorter);
        assert forall i :: 0 <= i < last ==> shorter[i] == turns[i];
        if i :| 0 <= i < |shorter| && shorter[i].traceId == LastTrace(before, shorter)
                && LastTrace(before, shorter).Some? && LastTrace(before, shorter).value != ""
                && forall j :: i < j < |shorter| ==> shorter[j].traceId.None? || shorter[j].traceId.value == ""
        {
          assert turns[i].traceId == LastTrace(before, turns);
        }
      }
    }
  }

  /** What an append to an existing conversation leaves: the turns as rows under the numbers it
      answers, the counters, and of the open proposal what a current writer brings, clears or
      leaves; a writer that is not current leaves it. Crew, crews, title and lease stay. */
  lemma AppendLeavesExactly(cell: MemCell, call: AppendCall)
    requires cell.doc.Some?
    ensures var d := cell.doc.value;
            var (after, answer) := MemAppend(cell, call);
            && after.doc.Some? && answer.Ok?
            && |after.rows| == |cell.rows| + |call.turns| && after.rows[..|cell.rows|] == cell.rows
            && |answer.value| == |call.turns|
            && (forall i :: 0 <= i < |call.turns| ==>
                  && after.rows[|cell.rows| + i].input == call.turns[i]
                  && after.rows[|cell.rows| + i].number == answer.value[i] == d.turnCount + i)
            && var d' := after.doc.value;
               && d'.turnCount == d.turnCount + |call.turns|
               && d'.userTurnCount == Some(ConversationUserTurns(d) + CountUsers(call.turns))
               && d'.lastTraceId == LastTrace(d.lastTraceId, call.turns)
               && d'.workload == d.workload && d'.crews == d.crews && d'.title == d.title && d'.lease == d.lease
               && d'.pending == (if !Current(d, call.expectWorkload, call.expectDigest) then d.pending
                                 else if call.pending.Some? then call.pending
                                 else if call.clearPending then None
                                 else d.pending)
  {
  }

  /** What an append that creates the conversation leaves, in either store: the given crew bound and
      alone, the given title, and no lease; in memory the fence is put to that document too. */
  lemma CreationLeavesExactly(call: AppendCall)
    ensures var (m, a) := MemAppend(MemCell(None, []), call);
            var (f, b) := FsAppend(FsCell(None, map[]), call);
            if call.createWith.None? then
              a == b == Err(NotFound) && m == MemCell(None, []) && f == FsCell(None, map[])
            else
              var c := call.createWith.value;
              && a == b && a.Ok? && m.doc.Some? && f.doc.Some?
              && |m.rows| == |call.turns|
              && (forall i :: 0 <= i < |call.turns| ==> m.rows[i].input == call.turns[i] && m.rows[i].number == a.value[i] == i)
              && var d := m.doc.value;
                 && d.workload == Some(c.workload) && d.crews == Some([c.workload]) && d.title == c.title
                 && d.turnCount == |call.turns| && d.userTurnCount == Some(CountUsers(call.turns)) && d.lease.None?
                 && f.doc.value.(pending := None) == d.(pending := None)
                 && f.doc.value.pending == call.pending
                 && d.pending == (if (call.expectWorkload.None? || call.expectWorkload == Some(c.workload))
                                     && (call.expectDigest.Unset? || call.expectDigest.digest.None?)
                                  then call.pending else None)
  {
  }

  // ----- Leases, field by field -----------------------------------------------------------

  /** A run may begin if and only if there is no conversation yet or nobody holds it; then, on an
      existing one, the lease is the run's until its deadline, and nothing else changes. */
  lemma BeginExactly(doc: Option<Doc>, run: string, now: int, ttl: int)
    ensures var (after, ok) := BeginRun(doc, run, now, ttl);
            && (ok <==> doc.None? || doc.value.lease.None? || doc.value.lease.value.runId == ""
                        || doc.value.lease.value.expiresAt.None? || doc.value.lease.value.expiresAt.value <= now)
            && after == (if doc.None? || !ok then doc
                         else Some(doc.value.(lease := Some(Lease(run, Some(now + ttl))))))
  {
  }

  /** A finish clears the lease if and only if it is the run's own, and nothing else changes. */
  lemma FinishExactly(doc: Option<Doc>, run: string)
    ensures var after := FinishRun(doc, run);
            && after.Some? == doc.Some?
            && (doc.Some? ==>
                  && after.value.(lease := None) == doc.value.(lease := None)
                  && after.value.lease == (if doc.value.lease.Some? && doc.value.lease.value.runId == run then None
                                           else doc.value.lease))
  {
  }

  // ----- Over runs: a lease ends ----------------------------------------------------------

  /** A lease never wedges a conversation: from its deadline on any other run can begin, whether
      or not the holder ever finished, and then holds the conversation in its turn. */
  lemma ExpiredLeaseGivesWay(s: System, holder: RunId, deadline: int, run: RunId, now: int, ttl: int)
    requires Holds(s, holder, deadline) && Enabled(s, Begin(run, now, ttl)) && now >= deadline
    ensures BeginRun(s.cell.doc, run, now, ttl).1
    ensures Holds(Next(s, Begin(run, now, ttl)), run, now + ttl)
    ensures Next(s, Begin(run, now, ttl)).cell.doc.value.workload == s.cell.doc.value.workload
  {
  }

  /** From a successful begin, whatever happens before the deadline: no other run can begin until
      then, and the next one that tries from then on can. */
  lemma OneHolderAtATime(s: System, run: RunId, now: int, ttl: int, events: seq<Event>, other: RunId, later: int, ttl': int)
    requires Enabled(s, Begin(run, now, ttl)) && run != "" && s.cell.doc.Some?
    requires BeginRun(s.cell.doc, run, now, ttl).1
    requires Legal(Next(s, Begin(run, now, ttl)), events) && Within(events, run, now + ttl)
    ensures var end := After(Next(s, Begin(run, now, ttl)), events);
            BeginRun(end.cell.doc, other, later, ttl').1 <==> now + ttl <= later
  {
    BegunRunKeepsTheConversation(s, run, now, ttl, events);
  }

  // ----- Over runs: a proposal's window ---------------------------------------------------

  /** What was minted stays on record as it was. */
  lemma MintedStaysStep(s: System, e: Event, d: Digest)
    requires Enabled(s, e) && d in s.minted
    ensures d in Next(s, e).minted && Next(s, e).minted[d] == s.minted[d]
  {
  }

  lemma {:induction false} MintedStays(s: System, events: seq<Event>, d: Digest)
    requires Legal(s, events) && d in s.minted
    ensures d in After(s, events).minted && After(s, events).minted[d] == s.minted[d]
    decreases |events|
  {
    if events != [] {
      MintedStaysStep(s, events[0], d);
      MintedStays(Next(s, events[0]), events[1..], d);
    }
  }

  /** The proposal a run persists is open for 900 seconds from then: in whatever state follows, its
      nonce is accepted if and only if that proposal is still the open one, fewer than 900 seconds
      have passed, and nobody holds the conversation. */
  lemma ProposalWindow(s: System, before: seq<Event>, e: Event, after: seq<Event>, now: int)
    requires Initial(s) && Legal(s, before) && Enabled(After(s, before), e)
    requires e.Persist? && e.proposal.Some?
    requires Legal(Next(After(s, before), e), after)
    ensures var doc := After(Next(After(s, before), e), after).cell.doc;
            EvaluateRedemption(doc, e.nonce, now).Ok?
            <==> && doc.Some? && doc.value.pending.Some?
                 && doc.value.pending.value.digest == Some(Sha256(e.nonce))
                 && now < e.now + 900
                 && NobodyHolds(doc.value, now)
  {
    var mid := After(s, before);
    var next := Next(mid, e);
    var end := After(next, after);
    InitialHolds(s);
    RunKeeps(s, before);
    StepKeeps(mid, e);
    RunKeeps(next, after);
    MintedStays(next, after, Sha256(e.nonce));
    GrantedExactly(end.cell.doc, e.nonce, now);
  }

  /** So from 900 seconds on it is refused, whatever happened in between. */
  lemma ClosedWindowRefuses(s: System, before: seq<Event>, e: Event, after: seq<Event>, now: int)
    requires Initial(s) && Legal(s, before) && Enabled(After(s, before), e)
    requires e.Persist? && e.proposal.Some? && now >= e.now + 900
    requires Legal(Next(After(s, before), e), after)
    ensures EvaluateRedemption(After(Next(After(s, before), e), after).cell.doc, e.nonce, now).Err?
  {
    ProposalWindow(s, before, e, after, now);
  }

  // ----- Over runs: an answered proposal retires ------------------------------------------

  /** What a run's persist adds, and what it does to the open proposal: the prompt if it was typed,
      then the reply, under the run's crew; a run whose crew is still bound and which saw
      the proposal that is open puts its own in its place if it has one, and retires it if the
      turn was typed; any other run leaves it. */
  lemma PersistLeavesProposalExactly(s: System, e: Event)
    requires Enabled(s, e) && e.Persist? && s.cell.doc.Some? && s.cell.doc.value.workload.Some?
    ensures var d, view := s.cell.doc.value, s.runs[e.run];
            var saw := if view.seen.Some? then view.seen.value.digest else None;
            var open := if d.pending.Some? then d.pending.value.digest else None;
            var doc' := Next(s, e).cell.doc;
            && doc'.Some?
            && doc'.value.pending ==
                 (if d.workload != Some(view.workload) || open != saw then d.pending
                  else if e.proposal.Some?
                  then Some(Pending(e.proposal.value, Some(Sha256(e.nonce)), Some(e.now + 900)))
                  else if e.typed then None
                  else d.pending)
            && |Next(s, e).cell.rows| == |s.cell.rows| + (if e.typed then 2 else 1)
            && (e.typed ==> Next(s, e).cell.rows[|s.cell.rows|].input
                            == TurnInput(User, e.prompt, view.workload, e.traceId, None))
            && Next(s, e).cell.rows[|Next(s, e).cell.rows| - 1].input
               == TurnInput(CrewReply, e.reply, view.workload, e.traceId, None)
  {
  }

  /** Minted, and not open. */
  ghost predicate Retired(s: System, d: Digest) {
    && d in s.minted
    && (s.cell.doc.Some? && s.cell.doc.value.pending.Some? ==> s.cell.doc.value.pending.value.digest != Some(d))
  }

  lemma RetiredStaysStep(s: System, e: Event, d: Digest)
    requires Enabled(s, e) && Retired(s, d)
    ensures Retired(Next(s, e), d)
  {
    MintedStaysStep(s, e, d);
  }

  /** A proposal that is no longer open never is again: its nonce is refused from then on. */
  lemma {:induction false} RetiredIsRefused(s: System, events: seq<Event>, nonce: string, now: int)
    requires Legal(s, events) && Retired(s, Sha256(nonce))
    ensures Retired(After(s, events), Sha256(nonce))
    ensures EvaluateRedemption(After(s, events).cell.doc, nonce, now).Err?
    decreases |events|
  {
    if events != [] {
      RetiredStaysStep(s, events[0], Sha256(nonce));
      RetiredIsRefused(Next(s, events[0]), events[1..], nonce, now);
    }
  }

  /** A typed turn answers the suggestion it saw: by a run whose crew is bound, it takes the open
      proposal away, and that proposal's nonce is refused whatever follows. */
  lemma AnsweredProposalRetires(s: System, before: seq<Event>, e: Event, after: seq<Event>, nonce: string, now: int)
    requires Initial(s) && Legal(s, before) && Enabled(After(s, before), e)
    requires e.Persist? && (e.typed || e.proposal.Some?)
    requires var mid := After(s, before);
             && mid.cell.doc.Some? && mid.cell.doc.value.pending.Some?
             && mid.cell.doc.value.pending.value.digest == Some(Sha256(nonce))
             && mid.cell.doc.value.workload == Some(mid.runs[e.run].workload)
             && mid.runs[e.run].seen == mid.cell.doc.value.pending
    requires Legal(Next(After(s, before), e), after)
    ensures var doc := Next(After(s, before), e).cell.doc;
            doc.Some? && (e.proposal.None? ==> doc.value.pending.None?)
    ensures EvaluateRedemption(After(Next(After(s, before), e), after).cell.doc, nonce, now).Err?
  {
    InitialHolds(s);
    RunKeeps(s, before);
    AnswerRetires(After(s, before), e, after, nonce, now);
  }

  /** What a run saw on arrival it keeps seeing. */
  lemma {:induction false} ViewStays(s: System, events: seq<Event>, run: RunId)
    requires Legal(s, events) && run in s.runs
    ensures run in After(s, events).runs
    ensures After(s, events).runs[run].workload == s.runs[run].workload
    ensures After(s, events).runs[run].seen == s.runs[run].seen
    decreases |events|
  {
    if events != [] {
      ViewStaysStep(s, events[0], run);
      ViewStays(Next(s, events[0]), events[1..], run);
    }
  }

  lemma ViewStaysStep(s: System, e: Event, run: RunId)
    requires Enabled(s, e) && run in s.runs
    ensures run in Next(s, e).runs
    ensures Next(s, e).runs[run].workload == s.runs[run].workload && Next(s, e).runs[run].seen == s.runs[run].seen
  {
  }

  /** From arrival to answer: a run that arrives while a proposal is open, and whose typed turn or own
      proposal is stored while that proposal and the crew still stand, whatever happens in between,
      ends it for good. */
  lemma AnswerAfterReadingRetires(s: System, before: seq<Event>, run: RunId, workload: Crew, between: seq<Event>,
                                  e: Event, after: seq<Event>, nonce: string, now: int)
    requires Initial(s) && Legal(s, before) && Enabled(After(s, before), Open(run, workload))
    requires Legal(Next(After(s, before), Open(run, workload)), between)
    requires var early, late := After(s, before), After(Next(After(s, before), Open(run, workload)), between);
             && early.cell.doc.Some? && early.cell.doc.value.pending.Some?
             && early.cell.doc.value.pending.value.digest == Some(Sha256(nonce))
             && late.cell.doc.Some? && late.cell.doc.value.pending == early.cell.doc.value.pending
             && late.cell.doc.value.workload == Some(workload)
             && Enabled(late, e) && e.Persist? && e.run == run && (e.typed || e.proposal.Some?)
             && Legal(Next(late, e), after)
    ensures var late := After(Next(After(s, before), Open(run, workload)), between);
            EvaluateRedemption(After(Next(late, e), after).cell.doc, nonce, now).Err?
  {
    var early := After(s, before);
    var open := Next(early, Open(run, workload));
    InitialHolds(s);
    RunKeeps(s, before);
    StepKeeps(early, Open(run, workload));
    RunKeeps(open, between);
    ViewStays(open, between, run);
    AnswerRetires(After(open, between), e, after, nonce, now);
  }

  lemma AnswerRetires(mid: System, e: Event, after: seq<Event>, nonce: string, now: int)
    requires SystemInv(mid) && Enabled(mid, e) && e.Persist? && (e.typed || e.proposal.Some?)
    requires mid.cell.doc.Some? && mid.cell.doc.value.pending.Some?
    requires mid.cell.doc.value.pending.value.digest == Some(Sha256(nonce))
    requires mid.cell.doc.value.workload == Some(mid.runs[e.run].workload)
    requires mid.runs[e.run].seen == mid.cell.doc.value.pending
    requires Legal(Next(mid, e), after)
    ensures var doc := Next(mid, e).cell.doc;
            doc.Some? && (e.proposal.None? ==> doc.value.pending.None?)
    ensures EvaluateRedemption(After(Next(mid, e), after).cell.doc, nonce, now).Err?
  {
    PersistLeavesProposalExactly(mid, e);
    MintedStaysStep(mid, e, Sha256(nonce));
    RetiredIsRefused(Next(mid, e), after, nonce, now);
  }

  /** A redemption, accepted or declined, spends the proposal: its nonce is refused from then on. */
  lemma RedeemedProposalRetires(s: System, before: seq<Event>, call: RedeemCall, after: seq<Event>, now: int)
    requires Initial(s) && Legal(s, before) && Enabled(After(s, before), Redeem(call))
    requires MemRedeem(After(s, before).cell, call).1.Ok?
    requires Legal(Next(After(s, before), Redeem(call)), after)
    ensures EvaluateRedemption(After(Next(After(s, before), Redeem(call)), after).cell.doc, call.nonce, now).Err?
  {
    var mid := After(s, before);
    InitialHolds(s);
    RunKeeps(s, before);
    GrantedExactly(mid.cell.doc, call.nonce, call.now);
    RetiredIsRefused(Next(mid, Redeem(call)), after, call.nonce, now);
  }
}
