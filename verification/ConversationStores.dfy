/** The two conversation stores, each proved against what it does to one conversation, and the
    simulation between them. */
module ConversationStores {
  import opened Wrappers
  import opened Handoff
  import opened Conversation

  type ConversationId = string

  // ----- In memory: a list of turns per conversation --------------------------------------

  datatype MemCell = MemCell(doc: Option<Doc>, rows: seq<Turn>)

  function MemCreate(cell: MemCell, c: Creation): MemCell {
    // the turn list is only initialised if it is absent
    cell.(doc := Some(NewDoc(c)))
  }

  function MemAppend(cell: MemCell, call: AppendCall): (MemCell, Result<seq<nat>, Refusal>) {
    if cell.doc.None? && call.createWith.None? then (cell, Err(NotFound))
    else
      var d := if cell.doc.Some? then cell.doc.value else NewDoc(call.createWith.value);
      var mayTouch := MayTouchPending(d, call.expectWorkload, call.expectDigest);
      (MemCell(Some(AppendedDoc(d, call, mayTouch)), cell.rows + Numbered(d.turnCount, call.turns)),
       Ok(Seqs(d.turnCount, |call.turns|)))
  }

  function MemRedeem(cell: MemCell, call: RedeemCall): (MemCell, Result<Redeemed, Refusal>) {
    var verdict := EvaluateRedemption(cell.doc, call.nonce, call.now);
    if verdict.Err? then (cell, Err(verdict.error))
    else
      var d, p := cell.doc.value, verdict.value;
      var turn := TransitionTurn(p.proposal, call.accept, call.traceId);
      (MemCell(Some(RedeemedDoc(d, p.proposal, call, LastTrace(d.lastTraceId, [turn]))),
               cell.rows + [Turn(d.turnCount, turn)]),
       Ok(RedemptionResult(p, call)))
  }

  /** The lease of a document, claimed or released; the rest is untouched. */
  function BeginRun(doc: Option<Doc>, runId: string, now: int, ttl: int): (Option<Doc>, bool) {
    if doc.None? then (doc, true)
    else if !LeaseIsFree(doc.value.lease, now) then (doc, false)
    else (Some(doc.value.(lease := Some(Lease(runId, Some(now + ttl))))), true)
  }

  function FinishRun(doc: Option<Doc>, runId: string): Option<Doc> {
    if doc.Some? && doc.value.lease.Some? && doc.value.lease.value.runId == runId
    then Some(doc.value.(lease := None)) else doc
  }

  method AppendRows(before: seq<Turn>, start: nat, turns: seq<TurnInput>, trace: Option<string>)
    returns (rows: seq<Turn>, seqs: seq<nat>, lastTrace: Option<string>)
    ensures rows == before + Numbered(start, turns)
    ensures seqs == Seqs(start, |turns|)
    ensures lastTrace == LastTrace(trace, turns)
  {
    rows, seqs, lastTrace := before, [], trace;
    for i := 0 to |turns|
      invariant rows == before + Numbered(start, turns[..i])
      invariant seqs == Seqs(start, i)
      invariant lastTrace == LastTrace(trace, turns[..i])
    {
      var t := turns[i];
      assert turns[..i + 1][..i] == turns[..i];
      rows := rows + [Turn(start + i, t)];
      if t.traceId.Some? && t.traceId.value != "" {
        lastTrace := t.traceId;
      }
      seqs := seqs + [start + i];
    }
    assert turns[..|turns|] == turns;
  }

  class InMemoryStateStore {
    var conversations: map<ConversationId, Doc>
    var conversationTurns: map<ConversationId, seq<Turn>>

    ghost function Cell(id: ConversationId): MemCell
      reads this
    {
      MemCell(if id in conversations then Some(conversations[id]) else None,
              if id in conversationTurns then conversationTurns[id] else [])
    }

    method CreateConversation(id: ConversationId, c: Creation)
      modifies this
      ensures Cell(id) == MemCreate(old(Cell(id)), c)
      ensures forall other :: other != id ==> Cell(other) == old(Cell(other))
    {
      conversations := conversations[id := NewDoc(c)];
      if id !in conversationTurns {
        conversationTurns := conversationTurns[id := []];
      }
    }

    method AppendTurns(id: ConversationId, call: AppendCall) returns (r: Result<seq<nat>, Refusal>)
      modifies this
      ensures (Cell(id), r) == MemAppend(old(Cell(id)), call)
      ensures forall other :: other != id ==> Cell(other) == old(Cell(other))
    {
      if id !in conversations {
        if call.createWith.None? {
          return Err(NotFound);
        }
        CreateConversation(id, call.createWith.value);
      }
      var d := conversations[id];
      ghost var seen := d;
      var start := d.turnCount;
      var priorUserTurns := ConversationUserTurns(d);
      var rows, seqs, lastTrace := AppendRows(if id in conversationTurns then conversationTurns[id] else [],
                                              start, call.turns, d.lastTraceId);
      conversationTurns := conversationTurns[id := rows];
      d := d.(turnCount := start + |call.turns|,
              userTurnCount := Some(priorUserTurns + CountUsers(call.turns)),
              lastTraceId := lastTrace);
      var pending, clear := call.pending, call.clearPending;
      if !MayTouchPending(d, call.expectWorkload, call.expectDigest) {
        pending, clear := None, false;
      }
      if pending.Some? {
        d := d.(pending := pending);
      } else if clear {
        d := d.(pending := None);
      }
      assert d == AppendedDoc(seen, call, MayTouchPending(seen, call.expectWorkload, call.expectDigest));
      conversations := conversations[id := d];
      return Ok(seqs);
    }

    method BeginChatRun(id: ConversationId, runId: string, now: int, ttl: int) returns (ok: bool)
      modifies this
      ensures (Cell(id).doc, ok) == BeginRun(old(Cell(id)).doc, runId, now, ttl)
      ensures Cell(id).rows == old(Cell(id)).rows
      ensures forall other :: other != id ==> Cell(other) == old(Cell(other))
    {
      if id !in conversations {
        return true;
      }
      if !LeaseIsFree(conversations[id].lease, now) {
        return false;
      }
      conversations := conversations[id := conversations[id].(lease := Some(Lease(runId, Some(now + ttl))))];
      return true;
    }

    method FinishChatRun(id: ConversationId, runId: string)
      modifies this
      ensures Cell(id) == old(Cell(id)).(doc := FinishRun(old(Cell(id)).doc, runId))
      ensures forall other :: other != id ==> Cell(other) == old(Cell(other))
    {
      if id !in conversations {
        return;
      }
      var lease := conversations[id].lease;
      if lease.Some? && lease.value.runId == runId {
        conversations := conversations[id := conversations[id].(lease := None)];
      }
    }

    method RedeemHandoff(id: ConversationId, call: RedeemCall) returns (r: Result<Redeemed, Refusal>)
      modifies this
      ensures (Cell(id), r) == MemRedeem(old(Cell(id)), call)
      ensures forall other :: other != id ==> Cell(other) == old(Cell(other))
    {
      var verdict := EvaluateRedemption(if id in conversations then Some(conversations[id]) else None,
                                        call.nonce, call.now);
      if verdict.Err? {
        return Err(verdict.error);
      }
      var p := verdict.value;
      var d := conversations[id];
      // The credential is spent before anything else happens.
      d := d.(pending := None);
      if call.accept {
        d := d.(crews := Some(WithCrew(d, p.proposal.to)));
        d := d.(workload := Some(p.proposal.to));
        if call.runId.Some? && call.runId.value != "" {
          d := d.(lease := Some(Lease(call.runId.value, Some(call.now + call.ttl))));
        }
      }
      conversations := conversations[id := d];
      var turn := TransitionTurn(p.proposal, call.accept, call.traceId);
      var appended := AppendTurns(id, AppendCall([turn], None, None, false, None, Unset));
      assert Numbered(d.turnCount, [turn]) == [Turn(d.turnCount, turn)];
      assert CountUsers([turn]) == 0;
      return Ok(RedemptionResult(p, call));
    }
  }

  // ----- Firestore: one document per turn, keyed by its sequence number -------------------

  datatype FsCell = FsCell(doc: Option<Doc>, rows: map<nat, Turn>)

  function FsCreate(cell: FsCell, c: Creation): FsCell {
    cell.(doc := Some(NewDoc(c)))
  }

  function Keyed(start: nat, turns: seq<TurnInput>): map<nat, Turn> {
    if turns == [] then map[]
    else
      var last := |turns| - 1;
      Keyed(start, turns[..last])[start + last := Turn(start + last, turns[last])]
  }

  function FsAppend(cell: FsCell, call: AppendCall): (FsCell, Result<seq<nat>, Refusal>) {
    if cell.doc.None? && call.createWith.None? then (cell, Err(NotFound))
    else
      var d := if cell.doc.Some? then cell.doc.value else NewDoc(call.createWith.value);
      // a document created here has no earlier writer to be stale against
      var mayTouch := cell.doc.None? || MayTouchPending(d, call.expectWorkload, call.expectDigest);
      (FsCell(Some(AppendedDoc(d, call, mayTouch)), cell.rows + Keyed(d.turnCount, call.turns)),
       Ok(Seqs(d.turnCount, |call.turns|)))
  }

  function FsRedeem(cell: FsCell, call: RedeemCall): (FsCell, Result<Redeemed, Refusal>) {
    var verdict := EvaluateRedemption(cell.doc, call.nonce, call.now);
    if verdict.Err? then (cell, Err(verdict.error))
    else
      var d, p := cell.doc.value, verdict.value;
      var turn := TransitionTurn(p.proposal, call.accept, call.traceId);
      (FsCell(Some(RedeemedDoc(d, p.proposal, call, d.lastTraceId)), cell.rows[d.turnCount := Turn(d.turnCount, turn)]),
       Ok(RedemptionResult(p, call)))
  }

  method SetTurnDocs(before: map<nat, Turn>, start: nat, turns: seq<TurnInput>, trace: Option<string>)
    returns (rows: map<nat, Turn>, seqs: seq<nat>, lastTrace: Option<string>)
    ensures rows == before + Keyed(start, turns)
    ensures seqs == Seqs(start, |turns|)
    ensures lastTrace == LastTrace(trace, turns)
  {
    rows, seqs, lastTrace := before, [], trace;
    for i := 0 to |turns|
      invariant rows == before + Keyed(start, turns[..i])
      invariant seqs == Seqs(start, i)
      invariant lastTrace == LastTrace(trace, turns[..i])
    {
      var t := turns[i];
      assert turns[..i + 1][..i] == turns[..i];
      rows := rows[start + i := Turn(start + i, t)];
      if t.traceId.Some? && t.traceId.value != "" {
        lastTrace := t.traceId;
      }
      seqs := seqs + [start + i];
    }
    assert turns[..|turns|] == turns;
  }

  class FirestoreStateStore {
    var conversations: map<ConversationId, Doc>
    var turnDocs: map<ConversationId, map<nat, Turn>>

    ghost function Cell(id: ConversationId): FsCell
      reads this
    {
      FsCell(if id in conversations then Some(conversations[id]) else None,
             if id in turnDocs then turnDocs[id] else map[])
    }

    method CreateConversation(id: ConversationId, c: Creation)
      modifies this
      ensures Cell(id) == FsCreate(old(Cell(id)), c)
      ensures forall other :: other != id ==> Cell(other) == old(Cell(other))
    {
      conversations := conversations[id := NewDoc(c)];
    }

    method AppendTurns(id: ConversationId, call: AppendCall) returns (r: Result<seq<nat>, Refusal>)
      modifies this
      ensures (Cell(id), r) == FsAppend(old(Cell(id)), call)
      ensures forall other :: other != id ==> Cell(other) == old(Cell(other))
    {
      var d: Doc;
      var mayTouch: bool;
      if id !in conversations {
        if call.createWith.None? {
          return Err(NotFound);
        }
        d, mayTouch := NewDoc(call.createWith.value), true;
      } else {
        d := conversations[id];
        mayTouch := MayTouchPending(d, call.expectWorkload, call.expectDigest);
      }
      var start, isCreate := d.turnCount, id !in conversations;
      var rows, seqs, lastTrace := SetTurnDocs(if id in turnDocs then turnDocs[id] else map[],
                                               start, call.turns, d.lastTraceId);
      turnDocs := turnDocs[id := rows];
      ghost var seen := d;
      d := d.(turnCount := start + |call.turns|,
              userTurnCount := Some(ConversationUserTurns(d) + CountUsers(call.turns)),
              lastTraceId := lastTrace);
      if call.pending.Some? && mayTouch {
        d := d.(pending := call.pending);
      } else if call.clearPending && !isCreate && mayTouch {
        d := d.(pending := None);
      }
      assert d == AppendedDoc(seen, call, mayTouch);
      conversations := conversations[id := d];
      return Ok(seqs);
    }

    method BeginChatRun(id: ConversationId, runId: string, now: int, ttl: int) returns (ok: bool)
      modifies this
      ensures (Cell(id).doc, ok) == BeginRun(old(Cell(id)).doc, runId, now, ttl)
      ensures Cell(id).rows == old(Cell(id)).rows
      ensures forall other :: other != id ==> Cell(other) == old(Cell(other))
    {
      if id !in conversations {
        return true;
      }
      if !LeaseIsFree(conversations[id].lease, now) {
        return false;
      }
      conversations := conversations[id := conversations[id].(lease := Some(Lease(runId, Some(now + ttl))))];
      return true;
    }

    method FinishChatRun(id: ConversationId, runId: string)
      modifies this
      ensures Cell(id) == old(Cell(id)).(doc := FinishRun(old(Cell(id)).doc, runId))
      ensures forall other :: other != id ==> Cell(other) == old(Cell(other))
    {
      if id !in conversations {
        return;
      }
      var lease := conversations[id].lease;
      if lease.Some? && lease.value.runId == runId {
        conversations := conversations[id := conversations[id].(lease := None)];
      }
    }

    method RedeemHandoff(id: ConversationId, call: RedeemCall) returns (r: Result<Redeemed, Refusal>)
      modifies this
      ensures (Cell(id), r) == FsRedeem(old(Cell(id)), call)
      ensures forall other :: other != id ==> Cell(other) == old(Cell(other))
    {
      var verdict := EvaluateRedemption(if id in conversations then Some(conversations[id]) else None,
                                        call.nonce, call.now);
      if verdict.Err? {
        return Err(verdict.error);
      }
      var p, d := verdict.value, conversations[id];
      var turn := TransitionTurn(p.proposal, call.accept, call.traceId);
      var rows := if id in turnDocs then turnDocs[id] else map[];
      turnDocs := turnDocs[id := rows[d.turnCount := Turn(d.turnCount, turn)]];
      var after := d.(pending := None, turnCount := d.turnCount + 1, userTurnCount := Some(ConversationUserTurns(d)));
      if call.accept {
        after := after.(workload := Some(p.proposal.to), crews := Some(WithCrew(d, p.proposal.to)));
        if call.runId.Some? && call.runId.value != "" {
          after := after.(lease := Some(Lease(call.runId.value, Some(call.now + call.ttl))));
        }
      }
      conversations := conversations[id := after];
      return Ok(RedemptionResult(p, call));
    }
  }

}
