/** One conversation: its document, its transcript, and what the store operations do to them.
    The two stores keep the transcript differently (a list, a keyed collection of turn
    documents); everything they share is here. */
module Conversation {
  import opened Wrappers
  import opened Handoff

  const CHAT_RUN_LEASE_TTL := 330

  datatype Role = User | CrewReply | CrewChange | HandoffDeclined | OtherRole(name: string)

  datatype Lease = Lease(runId: string, expiresAt: Option<int>)

  datatype Route = Route(from: Crew, to: Crew)

  // A turn as the caller hands it in, and as it is stored with its sequence number.
  datatype TurnInput = TurnInput(role: Role, text: string, workload: Crew, traceId: Option<string>,
                                 handoff: Option<Route>)
  datatype Turn = Turn(number: nat, input: TurnInput)

  // `crews` and `userTurnCount` are absent on documents written before those fields existed.
  datatype Doc = Doc(
    workload: Option<Crew>,
    crews: Option<seq<Crew>>,
    title: string,
    turnCount: nat,
    userTurnCount: Option<int>,
    lastTraceId: Option<string>,
    pending: Option<Pending>,
    lease: Option<Lease>)

  function NonEmpty(crews: seq<Crew>): seq<Crew> {
    if crews == [] then []
    else if crews[0] != "" then [crews[0]] + NonEmpty(crews[1..])
    else NonEmpty(crews[1..])
  }

  function ConversationCrews(d: Doc): seq<Crew> {
    if d.crews.Some? && NonEmpty(d.crews.value) != [] then NonEmpty(d.crews.value)
    else if d.workload.Some? && d.workload.value != "" then [d.workload.value]
    else []
  }

  function WithCrew(d: Doc, crew: Crew): seq<Crew> {
    var crews := ConversationCrews(d);
    if crew in crews then crews else crews + [crew]
  }

  function ConversationUserTurns(d: Doc): nat {
    if d.userTurnCount.Some? && d.userTurnCount.value >= 0 then d.userTurnCount.value
    else (d.turnCount + 1) / 2
  }

  function CountUsers(turns: seq<TurnInput>): nat {
    if turns == [] then 0
    else (if turns[0].role == User then 1 else 0) + CountUsers(turns[1..])
  }

  function LastTrace(before: Option<string>, turns: seq<TurnInput>): Option<string> {
    if turns == [] then before
    else
      var t := turns[|turns| - 1].traceId;
      if t.Some? && t.value != "" then t else LastTrace(before, turns[..|turns| - 1])
  }

  function Numbered(start: nat, turns: seq<TurnInput>): seq<Turn> {
    seq(|turns|, i requires 0 <= i < |turns| => Turn(start + i, turns[i]))
  }

  function Seqs(start: nat, n: nat): seq<nat> {
    seq(n, i requires 0 <= i < n => start + i)
  }

  predicate LeaseIsFree(lease: Option<Lease>, now: int) {
    lease.None? || lease.value.runId == "" || lease.value.expiresAt.None? || now >= lease.value.expiresAt.value
  }

  function PendingDigest(d: Doc): Option<Digest> {
    if d.pending.Some? then d.pending.value.digest else None
  }

  // What a writer claims to have seen: the crew, and the proposal's digest (or no claim).
  datatype Expectation = Unset | Seen(digest: Option<Digest>)

  predicate MayTouchPending(d: Doc, expectWorkload: Option<Crew>, expectDigest: Expectation) {
    && (expectWorkload.Some? && d.workload.Some? ==> d.workload == expectWorkload)
    && (expectDigest.Seen? ==> PendingDigest(d) == expectDigest.digest)
  }

  datatype Refusal = NotFound | NoPending | InvalidNonce | ExpiredProposal | Stale | Busy

  /** The one redemption ladder both stores use. */
  function EvaluateRedemption(conv: Option<Doc>, nonce: string, now: int): Result<Pending, Refusal> {
    if conv.None? then Err(NotFound)
    else
      var d := conv.value;
      if d.pending.None? || d.pending.value.digest.None? then Err(NoPending)
      else if !Verifies(nonce, d.pending.value.digest) then Err(InvalidNonce)
      else if Expired(d.pending.value, now) then Err(ExpiredProposal)
      else if Some(d.pending.value.proposal.from) != d.workload then Err(Stale)
      else if !LeaseIsFree(d.lease, now) then Err(Busy)
      else Ok(d.pending.value)
  }

  function TransitionTurn(p: Proposal, accept: bool, traceId: Option<string>): TurnInput {
    TurnInput(if accept then CrewChange else HandoffDeclined, p.reason, if accept then p.to else p.from, traceId,
              Some(Route(p.from, p.to)))
  }

  // ----- Calls --------------------------------------------------------------------------

  datatype Creation = Creation(workload: Crew, title: string)

  datatype AppendCall = AppendCall(
    turns: seq<TurnInput>,
    createWith: Option<Creation>,
    pending: Option<Pending>,
    clearPending: bool,
    expectWorkload: Option<Crew>,
    expectDigest: Expectation)

  datatype RedeemCall = RedeemCall(nonce: string, accept: bool, now: int, traceId: Option<string>,
                                   runId: Option<string>, ttl: int)

  datatype Redeemed = Redeemed(pending: Pending, accepted: bool, runId: Option<string>)

  function NewDoc(c: Creation): Doc {
    Doc(Some(c.workload), Some([c.workload]), c.title, 0, Some(0), None, None, None)
  }

  /** The document after its turns land, the fence verdict given. */
  function AppendedDoc(d: Doc, call: AppendCall, mayTouch: bool): Doc {
    d.(turnCount := d.turnCount + |call.turns|,
       userTurnCount := Some(ConversationUserTurns(d) + CountUsers(call.turns)),
       lastTraceId := LastTrace(d.lastTraceId, call.turns),
       pending := if mayTouch && call.pending.Some? then call.pending
                  else if mayTouch && call.clearPending then None
                  else d.pending)
  }

  /** The document after a granted redemption. */
  function RedeemedDoc(d: Doc, p: Proposal, call: RedeemCall, lastTraceId: Option<string>): Doc {
    d.(turnCount := d.turnCount + 1,
       userTurnCount := Some(ConversationUserTurns(d)),
       lastTraceId := lastTraceId,
       pending := None,
       crews := if call.accept then Some(WithCrew(d, p.to)) else d.crews,
       workload := if call.accept then Some(p.to) else d.workload,
       lease := if call.accept && call.runId.Some? && call.runId.value != ""
                then Some(Lease(call.runId.value, Some(call.now + call.ttl))) else d.lease)
  }

  function RedemptionResult(p: Pending, call: RedeemCall): Redeemed {
    Redeemed(p, call.accept, if call.accept then call.runId else None)
  }
}
