/** The in-memory and the Firestore store hold the same conversations and give the same answers:
    a simulation between a list of turns and a keyed collection of turn documents. */
module ConversationAgreement {
  import opened Wrappers
  import opened Handoff
  import opened Conversation
  import opened ConversationStores

  // The stores differ on the last trace id once a redemption has happened; see `TraceAfterRedeem`.
  function Untraced(d: Option<Doc>): Option<Doc> {
    if d.Some? then Some(d.value.(lastTraceId := None)) else None
  }

  ghost predicate WellNumbered(m: MemCell) {
    && (m.doc.None? ==> m.rows == [])
    && (m.doc.Some? ==> m.doc.value.turnCount == |m.rows|)
    && forall i :: 0 <= i < |m.rows| ==> m.rows[i].number == i
  }

  ghost predicate SameRows(rows: seq<Turn>, docs: map<nat, Turn>) {
    forall k: nat :: (k in docs <==> k < |rows|) && (k < |rows| ==> docs[k] == rows[k])
  }

  ghost predicate Agree(m: MemCell, f: FsCell) {
    WellNumbered(m) && Untraced(m.doc) == Untraced(f.doc) && SameRows(m.rows, f.rows)
  }

  datatype Op =
    | CreateOp(creation: Creation)
    | AppendOp(append: AppendCall)
    | BeginOp(runId: string, now: int, ttl: int)
    | FinishOp(runId: string)
    | RedeemOp(redeem: RedeemCall)

  datatype Reply =
    | Done
    | Appended(seqs: Result<seq<nat>, Refusal>)
    | Began(ok: bool)
    | Answered(redemption: Result<Redeemed, Refusal>)

  function MemStep(m: MemCell, op: Op): (MemCell, Reply) {
    match op
    case CreateOp(c) => (MemCreate(m, c), Done)
    case AppendOp(call) => var (m', r) := MemAppend(m, call); (m', Appended(r))
    case BeginOp(r, now, ttl) => var (d, ok) := BeginRun(m.doc, r, now, ttl); (m.(doc := d), Began(ok))
    case FinishOp(r) => (m.(doc := FinishRun(m.doc, r)), Done)
    case RedeemOp(call) => var (m', r) := MemRedeem(m, call); (m', Answered(r))
  }

  function FsStep(f: FsCell, op: Op): (FsCell, Reply) {
    match op
    case CreateOp(c) => (FsCreate(f, c), Done)
    case AppendOp(call) => var (f', r) := FsAppend(f, call); (f', Appended(r))
    case BeginOp(r, now, ttl) => var (d, ok) := BeginRun(f.doc, r, now, ttl); (f.(doc := d), Began(ok))
    case FinishOp(r) => (f.(doc := FinishRun(f.doc, r)), Done)
    case RedeemOp(call) => var (f', r) := FsRedeem(f, call); (f', Answered(r))
  }

  /** A creating append brings a proposal only if its own expectations match what it creates. */
  predicate CreatesConsistently(call: AppendCall) {
    call.createWith.Some? && call.pending.Some? ==>
      MayTouchPending(NewDoc(call.createWith.value), call.expectWorkload, call.expectDigest)
  }

  /** What the two stores need from a caller to stay together: an id is created while it has no
      turns, and a creating append is consistent. */
  predicate Ordinary(m: MemCell, op: Op) {
    && (op.CreateOp? ==> m.rows == [])
    && (op.AppendOp? && m.doc.None? ==> CreatesConsistently(op.append))
  }

  lemma {:induction false} KeyedHolds(start: nat, turns: seq<TurnInput>, k: nat)
    ensures k in Keyed(start, turns) <==> start <= k < start + |turns|
    ensures k in Keyed(start, turns) ==> Keyed(start, turns)[k] == Turn(k, turns[k - start])
  {
    if turns != [] {
      KeyedHolds(start, turns[..|turns| - 1], k);
    }
  }

  lemma RowsStayTogether(rows: seq<Turn>, docs: map<nat, Turn>, turns: seq<TurnInput>)
    requires SameRows(rows, docs)
    ensures SameRows(rows + Numbered(|rows|, turns), docs + Keyed(|rows|, turns))
  {
    forall k: nat
      ensures (k in docs + Keyed(|rows|, turns) <==> k < |rows| + |turns|)
      ensures k < |rows| + |turns| ==> (docs + Keyed(|rows|, turns))[k] == (rows + Numbered(|rows|, turns))[k]
    {
      KeyedHolds(|rows|, turns, k);
    }
  }

  lemma AppendKeepsAgreement(m: MemCell, f: FsCell, call: AppendCall)
    requires Agree(m, f)
    requires m.doc.None? ==> CreatesConsistently(call)
    ensures Agree(MemAppend(m, call).0, FsAppend(f, call).0)
    ensures MemAppend(m, call).1 == FsAppend(f, call).1
  {
    if m.doc.Some? || call.createWith.Some? {
      RowsStayTogether(m.rows, f.rows, call.turns);
    }
  }

  lemma RedeemKeepsAgreement(m: MemCell, f: FsCell, call: RedeemCall)
    requires Agree(m, f)
    ensures Agree(MemRedeem(m, call).0, FsRedeem(f, call).0)
    ensures MemRedeem(m, call).1 == FsRedeem(f, call).1
  {
    assert m.doc.Some? ==> EvaluateRedemption(m.doc, call.nonce, call.now) == EvaluateRedemption(f.doc, call.nonce, call.now);
  }

  lemma StepKeepsAgreement(m: MemCell, f: FsCell, op: Op)
    requires Agree(m, f) && Ordinary(m, op)
    ensures Agree(MemStep(m, op).0, FsStep(f, op).0)
    ensures MemStep(m, op).1 == FsStep(f, op).1
  {
    match op
    case AppendOp(call) => AppendKeepsAgreement(m, f, call);
    case RedeemOp(call) => RedeemKeepsAgreement(m, f, call);
    case _ =>
  }

  ghost predicate AllOrdinary(m: MemCell, ops: seq<Op>)
    decreases |ops|
  {
    ops == [] || (Ordinary(m, ops[0]) && AllOrdinary(MemStep(m, ops[0]).0, ops[1..]))
  }

  function MemRun(m: MemCell, ops: seq<Op>): (MemCell, seq<Reply>)
    decreases |ops|
  {
    if ops == [] then (m, [])
    else
      var (m', reply) := MemStep(m, ops[0]);
      var (end, replies) := MemRun(m', ops[1..]);
      (end, [reply] + replies)
  }

  function FsRun(f: FsCell, ops: seq<Op>): (FsCell, seq<Reply>)
    decreases |ops|
  {
    if ops == [] then (f, [])
    else
      var (f', reply) := FsStep(f, ops[0]);
      var (end, replies) := FsRun(f', ops[1..]);
      (end, [reply] + replies)
  }

  /** Every sequence of calls gets the same answers from both stores and leaves the same
      document and the same transcript. */
  lemma {:induction false} StoresAgree(m: MemCell, f: FsCell, ops: seq<Op>)
    requires Agree(m, f) && AllOrdinary(m, ops)
    ensures MemRun(m, ops).1 == FsRun(f, ops).1
    ensures Agree(MemRun(m, ops).0, FsRun(f, ops).0)
    decreases |ops|
  {
    if ops != [] {
      StepKeepsAgreement(m, f, ops[0]);
      StoresAgree(MemStep(m, ops[0]).0, FsStep(f, ops[0]).0, ops[1..]);
    }
  }

  // ----- Where exactly they part ----------------------------------------------------------

  /** A creating append leaves the same document in both exactly when its expectations match
      what it creates: only the in-memory store puts the fence to the document it just made. */
  lemma CreatingAppendAgreesExactly(call: AppendCall)
    requires call.createWith.Some?
    ensures var m, f := MemCell(None, []), FsCell(None, map[]);
            MemAppend(m, call).0.doc == FsAppend(f, call).0.doc <==> CreatesConsistently(call)
  {
  }

  /** From one and the same document, a granted redemption leaves equal documents exactly when
      it carries no trace id or the one already stored. */
  lemma TraceAfterRedeem(m: MemCell, f: FsCell, call: RedeemCall)
    requires m.doc == f.doc && EvaluateRedemption(m.doc, call.nonce, call.now).Ok?
    ensures MemRedeem(m, call).0.doc == FsRedeem(f, call).0.doc <==>
              (call.traceId.None? || call.traceId.value == "" || call.traceId == m.doc.value.lastTraceId)
  {
    var d := m.doc.value;
    var turn := TransitionTurn(d.pending.value.proposal, call.accept, call.traceId);
    assert [turn][..0] == [];
    assert LastTrace(d.lastTraceId, []) == d.lastTraceId;
    assert MemRedeem(m, call).0.doc.value ==
           FsRedeem(f, call).0.doc.value.(lastTraceId := LastTrace(d.lastTraceId, [turn]));
  }

  /** Creating an id again resets its turn counter but keeps its old turns, and the two stores
      no longer agree on what a later append means: one adds a row, the other overwrites. */
  lemma RecreationPartsTheStores(m: MemCell, f: FsCell, c: Creation, t: TurnInput)
    requires Agree(m, f)
    ensures var call := AppendCall([t], None, None, false, None, Unset);
            var m' := MemAppend(MemCreate(m, c), call).0;
            var f' := FsAppend(FsCreate(f, c), call).0;
            SameRows(m'.rows, f'.rows) <==> m.rows == []
  {
    var call := AppendCall([t], None, None, false, None, Unset);
    var m' := MemAppend(MemCreate(m, c), call).0;
    var f' := FsAppend(FsCreate(f, c), call).0;
    var n := |m.rows|;
    assert |m'.rows| == n + 1;
    KeyedHolds(0, [t], n);
    if n > 0 {
      assert n !in f'.rows;
    } else {
      forall k: nat ensures (k in f'.rows <==> k < 1) && (k < 1 ==> f'.rows[k] == m'.rows[k]) {
        KeyedHolds(0, [t], k);
      }
    }
  }
}
