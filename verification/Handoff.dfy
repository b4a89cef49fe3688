/** The pure half of a crew handoff: validating a proposal, its one-shot nonce, its expiry. */
module Handoff {
  import opened Wrappers

  type Crew = string

  // SHA-256 of a nonce, idealised as injective.
  datatype Digest = Sha256(nonce: string)

  const HANDOFF_TTL := 15 * 60
  const MAX_REASON_CHARS := 200
  const MAX_BRIEF_CHARS := 1200

  const TARGETS: set<Crew> := {"drift", "upgrade", "provision", "explore"}

  datatype Proposal = Proposal(from: Crew, to: Crew, reason: string, brief: string)

  // A stored proposal. An absent digest or an unreadable window makes it unredeemable.
  datatype Pending = Pending(proposal: Proposal, digest: Option<Digest>, expiresAt: Option<int>)

  datatype Refused = UnknownCrew | SameCrew | ReasonRequired

  /** `sanitize` flattens and caps untrusted text. */
  function ValidateProposal(target: string, reason: string, brief: string, current: Crew,
                            sanitize: (string, nat) -> string)
    : (r: Result<Proposal, Refused>)
    ensures r.Ok? ==> r.value.from == current && r.value.to in TARGETS && r.value.to != current && r.value.reason != ""
    ensures r.Ok? <==> target in TARGETS && target != current && sanitize(reason, MAX_REASON_CHARS) != ""
  {
    if target !in TARGETS then Err(UnknownCrew)
    else if target == current then Err(SameCrew)
    else
      var clean := sanitize(reason, MAX_REASON_CHARS);
      if clean == "" then Err(ReasonRequired)
      else Ok(Proposal(current, target, clean, if brief != "" then sanitize(brief, MAX_BRIEF_CHARS) else ""))
  }

  function BuildPending(p: Proposal, digest: Digest, now: int): Pending {
    Pending(p, Some(digest), Some(now + HANDOFF_TTL))
  }

  predicate Verifies(nonce: string, digest: Option<Digest>) {
    nonce != "" && digest == Some(Sha256(nonce))
  }

  /** Closed, or without a readable window at all. */
  predicate Expired(p: Pending, now: int) {
    p.expiresAt.None? || now >= p.expiresAt.value
  }

  /** What a proposal becomes, and which refusal it meets: the target is judged first, then the
      reason as cleaned to its 200 characters; the brief is cleaned to 1200 and never refused. */
  lemma ValidatedExactly(target: string, reason: string, brief: string, current: Crew, sanitize: (string, nat) -> string)
    ensures var r := ValidateProposal(target, reason, brief, current, sanitize);
            var known := target in {"drift", "upgrade", "provision", "explore"};
            && (r == Err(UnknownCrew) <==> !known)
            && (r == Err(SameCrew) <==> known && target == current)
            && (r == Err(ReasonRequired) <==> known && target != current && sanitize(reason, 200) == "")
            && (r.Ok? ==> r.value == Proposal(current, target, sanitize(reason, 200),
                                              if brief != "" then sanitize(brief, 1200) else ""))
  {
  }
}
