/** Audit runs over one shared event store, interleaved one store access at a time. A run looks
    its key up, serves what it finds or evicts it once judged stale, claims the key, mints an
    approval, and records the decision or releases the claim. A run may stop for good at any
    point: a prefix of a run is a crash. */
module EventProtocol {
  import opened Wrappers
  import opened EventStore

  type RunId = nat

  datatype Phase =
    | Looking                      // about to read the pointer document
    | Querying                     // the pointer named no decision: about to query by key
    | Judging(found: DecisionId)   // holds a decision, about to decide whether it may be served
    | Evicting(found: DecisionId)  // judged it stale
    | Claiming
    | Claimed                      // holds the claim, nothing minted yet
    | Minted                       // an approval exists, its decision is not recorded yet
    | Failing                      // a side effect or the record write reported a failure
    | Served(found: DecisionId)
    | Stopped                      // refused, answered "in progress", recorded, or released

  datatype Run = Run(key: EventKey, phase: Phase)

  datatype World = World(store: Store, stale: set<DecisionId>, runs: map<RunId, Run>)

  datatype Step =
    | Arrive(run: RunId, key: EventKey)
    | ReadPointer(run: RunId)
    | Query(run: RunId)
    | Judge(run: RunId)
    | Refuse(run: RunId)                            // validator, coherence or grounding refusal
    | EvictStep(run: RunId)
    | ClaimStep(run: RunId)
    | Mint(run: RunId)
    | MintFails(run: RunId)
    | RecordOk(run: RunId, id: DecisionId)
    | RecordLost(run: RunId)                        // reported failure, nothing written
    | RecordAmbiguous(run: RunId, id: DecisionId)   // reported failure, but the batch committed
    | ReleaseStep(run: RunId)
    | GoesStale(id: DecisionId)                     // expiry or contradiction; never undone

  predicate InPhase(w: World, r: RunId, p: Phase) {
    r in w.runs && w.runs[r].phase == p
  }

  predicate Fresh(w: World, id: DecisionId) {
    !Recorded(w.store.decisions, id) && id !in w.stale
  }

  predicate Enabled(w: World, step: Step) {
    match step
    case Arrive(r, _) => r !in w.runs
    case ReadPointer(r) => InPhase(w, r, Looking)
    case Query(r) => InPhase(w, r, Querying)
    case Judge(r) => r in w.runs && w.runs[r].phase.Judging?
    case Refuse(r) => r in w.runs && (w.runs[r].phase.Judging? || w.runs[r].phase.Evicting? ||
                                      w.runs[r].phase.Claiming?)
    case EvictStep(r) => r in w.runs && w.runs[r].phase.Evicting?
    case ClaimStep(r) => InPhase(w, r, Claiming)
    case Mint(r) => InPhase(w, r, Claimed)
    case MintFails(r) => InPhase(w, r, Claimed)
    case RecordOk(r, id) => InPhase(w, r, Minted) && Fresh(w, id)
    case RecordLost(r) => InPhase(w, r, Minted)
    case RecordAmbiguous(r, id) => InPhase(w, r, Minted) && Fresh(w, id)
    case ReleaseStep(r) => InPhase(w, r, Failing)
    case GoesStale(id) => true
  }

  function Move(w: World, r: RunId, p: Phase): World
    requires r in w.runs
  {
    w.(runs := w.runs[r := w.runs[r].(phase := p)])
  }

  function Next(w: World, step: Step): World
    requires Enabled(w, step)
  {
    match step
    case Arrive(r, key) => w.(runs := w.runs[r := Run(key, Looking)])
    case ReadPointer(r) =>
      var key := w.runs[r].key;
      if key in w.store.events && w.store.events[key].Some? then
        var id := w.store.events[key].value;
        Move(w, r, if Recorded(w.store.decisions, id) then Judging(id) else Claiming)
      else Move(w, r, Querying)
    case Query(r) =>
      var found := Newest(w.store.decisions, w.runs[r].key);
      Move(w, r, if found.Some? then Judging(found.value) else Claiming)
    case Judge(r) =>
      var found := w.runs[r].phase.found;
      Move(w, r, if found in w.stale then Evicting(found) else Served(found))
    case Refuse(r) => Move(w, r, Stopped)
    case EvictStep(r) =>
      var (store, ok) := Evict(w.store, w.runs[r].key, w.runs[r].phase.found);
      Move(w.(store := store), r, if ok then Claiming else Stopped)
    case ClaimStep(r) =>
      var (store, ok) := Claim(w.store, w.runs[r].key);
      Move(w.(store := store), r, if ok then Claimed else Stopped)
    case Mint(r) => Move(w, r, Minted)
    case MintFails(r) => Move(w, r, Failing)
    case RecordOk(r, id) => Move(w.(store := Commit(w.store, id, w.runs[r].key)), r, Stopped)
    case RecordLost(r) => Move(w, r, Failing)
    case RecordAmbiguous(r, id) => Move(w.(store := Commit(w.store, id, w.runs[r].key)), r, Failing)
    case ReleaseStep(r) => Move(w.(store := Release(w.store, w.runs[r].key)), r, Stopped)
    case GoesStale(id) => w.(stale := w.stale + {id})
  }

  predicate Legal(w: World, steps: seq<Step>)
    decreases |steps|
  {
    steps == [] || (Enabled(w, steps[0]) && Legal(Next(w, steps[0]), steps[1..]))
  }

  function After(w: World, steps: seq<Step>): World
    requires Legal(w, steps)
    decreases |steps|
  {
    if steps == [] then w else After(Next(w, steps[0]), steps[1..])
  }

  predicate Initial(w: World) {
    w.store == Store(map[], []) && w.runs == map[]
  }

  // ----- What the protocol is for ---------------------------------------------------------

  predicate Servable(w: World, key: EventKey, id: DecisionId) {
    Decision(id, key) in w.store.decisions && id !in w.stale
  }

  /** No two decisions for one drift may be acted on. */
  ghost predicate AtMostOneServable(w: World, key: EventKey) {
    forall a, b :: Servable(w, key, a) && Servable(w, key, b) ==> a == b
  }

  predicate Holding(w: World, r: RunId, key: EventKey) {
    r in w.runs && w.runs[r].key == key &&
    (w.runs[r].phase.Claimed? || w.runs[r].phase.Minted? || w.runs[r].phase.Failing?)
  }

  /** Whoever is about to mint is alone, and nothing for its key may be served instead. */
  ghost predicate MintsAreSafe(w: World, key: EventKey) {
    forall r :: Holding(w, r, key) && !w.runs[r].phase.Failing? ==>
      (forall id :: !Servable(w, key, id)) && forall q :: Holding(w, q, key) ==> q == r
  }

  // ----- Any overlap, when a failed record really wrote nothing ---------------------------

  /** No record write on `key` commits while reporting failure. */
  predicate Unambiguous(w: World, steps: seq<Step>, key: EventKey)
    requires Legal(w, steps)
    decreases |steps|
  {
    steps == [] ||
    (!(steps[0].RecordAmbiguous? && w.runs[steps[0].run].key == key) &&
     Unambiguous(Next(w, steps[0]), steps[1..], key))
  }

  predicate DistinctIds(ds: seq<Decision>) {
    forall i, j :: 0 <= i < j < |ds| ==> ds[i].id != ds[j].id
  }

  ghost predicate ClaimInv(w: World, key: EventKey) {
    && DistinctIds(w.store.decisions)
    // a claim is exclusive, and its pointer document is there and still empty
    && (forall r :: Holding(w, r, key) ==> key in w.store.events && w.store.events[key].None?)
    && (forall r, q :: Holding(w, r, key) && Holding(w, q, key) ==> r == q)
    // whatever may be served is named by the pointer document
    && (forall id :: Servable(w, key, id) ==> key in w.store.events && w.store.events[key] == Some(id))
    // runs evict only what they saw go stale
    && (forall r :: r in w.runs && w.runs[r].phase.Evicting? ==> w.runs[r].phase.found in w.stale)
  }

  lemma ClaimInvStep(w: World, step: Step, key: EventKey)
    requires ClaimInv(w, key) && Enabled(w, step)
    requires !(step.RecordAmbiguous? && w.runs[step.run].key == key)
    ensures ClaimInv(Next(w, step), key)
  {
    var w' := Next(w, step);
    forall q | Holding(w', q, key)
      ensures Holding(w, q, key) || (step == ClaimStep(q) && key !in w.store.events)
      ensures key in w'.store.events && w'.store.events[key].None?
    {
      if step.GoesStale? || step.Arrive? || step.run == q {
      } else {
        assert Holding(w, q, key);
        // so the acting run holds no claim on this key, and cannot change its pointer
        assert !Holding(w, step.run, key);
      }
    }
    forall id | Servable(w', key, id)
      ensures key in w'.store.events && w'.store.events[key] == Some(id)
    {
      if step.RecordOk? && id == step.id && w.runs[step.run].key == key {
      } else {
        assert Servable(w, key, id);
        // a pointer that names a decision belongs to no claim, so only an eviction removes it
        assert step.GoesStale? || step.Arrive? || !Holding(w, step.run, key);
      }
    }
  }

  lemma {:induction false} ClaimInvRun(w: World, steps: seq<Step>, key: EventKey)
    requires ClaimInv(w, key) && Legal(w, steps) && Unambiguous(w, steps, key)
    ensures ClaimInv(After(w, steps), key)
    decreases |steps|
  {
    if steps != [] {
      ClaimInvStep(w, steps[0], key);
      ClaimInvRun(Next(w, steps[0]), steps[1..], key);
    }
  }

  /** Every interleaving of any number of runs: one servable decision per key at most, named by
      the pointer, and nobody mints while one is live or while another run holds the claim. */
  lemma NoDoubleMintUnderOverlap(w: World, steps: seq<Step>, key: EventKey)
    requires Initial(w) && Legal(w, steps) && Unambiguous(w, steps, key)
    ensures var end := After(w, steps);
            && AtMostOneServable(end, key) && MintsAreSafe(end, key)
            && forall id :: Servable(end, key, id) ==>
                 key in end.store.events && end.store.events[key] == Some(id)
  {
    ClaimInvRun(w, steps, key);
  }

  // ----- Ambiguous record writes, when runs on the key do not overlap ---------------------

  predicate Active(w: World, r: RunId, key: EventKey) {
    r in w.runs && w.runs[r].key == key && !w.runs[r].phase.Served? && !w.runs[r].phase.Stopped?
  }

  /** A run on `key` arrives only once every earlier run on `key` has finished. */
  ghost predicate OneAtATime(w: World, steps: seq<Step>, key: EventKey)
    requires Legal(w, steps)
    decreases |steps|
  {
    steps == [] ||
    ((steps[0].Arrive? && steps[0].key == key ==> Quiescent(w, key)) &&
     OneAtATime(Next(w, steps[0]), steps[1..], key))
  }

  ghost predicate Quiescent(w: World, key: EventKey) {
    forall r :: !Active(w, r, key)
  }

  predicate NothingServable(w: World, key: EventKey) {
    forall d :: d in w.store.decisions && d.key == key ==> d.id in w.stale
  }

  /** Every decision for the key but the newest is stale. */
  predicate OldOnesStale(w: World, key: EventKey) {
    forall d :: d in w.store.decisions && d.key == key && Some(d.id) != Newest(w.store.decisions, key)
      ==> d.id in w.stale
  }

  predicate PointerAbsentOrNewest(w: World, key: EventKey) {
    key in w.store.events ==> w.store.events[key].Some? && w.store.events[key] == Newest(w.store.decisions, key)
  }

  predicate PhaseInv(w: World, key: EventKey, phase: Phase) {
    match phase
    case Looking => PointerAbsentOrNewest(w, key)
    case Querying => key !in w.store.events
    case Judging(id) => PointerAbsentOrNewest(w, key) && Newest(w.store.decisions, key) == Some(id)
    case Evicting(id) => PointerAbsentOrNewest(w, key) && Newest(w.store.decisions, key) == Some(id) && id in w.stale
    case Claiming => key !in w.store.events && NothingServable(w, key)
    case Claimed => key in w.store.events && w.store.events[key].None? && NothingServable(w, key)
    case Minted => key in w.store.events && w.store.events[key].None? && NothingServable(w, key)
    case Failing => key in w.store.events
    case Served(_) => true
    case Stopped => true
  }

  ghost predicate SequentialInv(w: World, key: EventKey) {
    && DistinctIds(w.store.decisions)
    && OldOnesStale(w, key)
    && (Quiescent(w, key) ==> PointerAbsentOrNewest(w, key))
    && (forall r, q :: Active(w, r, key) && Active(w, q, key) ==> r == q)
    && (forall r :: Active(w, r, key) ==> PhaseInv(w, key, w.runs[r].phase))
  }

  lemma NewestAfterAppend(ds: seq<Decision>, d: Decision, key: EventKey)
    ensures Newest(ds + [d], key) == if d.key == key then Some(d.id) else Newest(ds, key)
  {
    assert (ds + [d])[..|ds|] == ds;
  }

  lemma NewestIsRecorded(ds: seq<Decision>, key: EventKey)
    ensures Newest(ds, key).Some? ==> Recorded(ds, Newest(ds, key).value) && Decision(Newest(ds, key).value, key) in ds
    ensures Newest(ds, key).None? ==> forall d :: d in ds ==> d.key != key
  {
    NewestIsLast(ds, key);
  }

  /** A step of a run on another key leaves this key's pointer and decisions alone. */
  lemma OtherKeysUntouched(w: World, step: Step, key: EventKey)
    requires Enabled(w, step) && !step.GoesStale? && !step.Arrive? && w.runs[step.run].key != key
    ensures var w' := Next(w, step);
            && (key in w'.store.events <==> key in w.store.events)
            && (key in w.store.events ==> w'.store.events[key] == w.store.events[key])
            && Newest(w'.store.decisions, key) == Newest(w.store.decisions, key)
            && forall d: Decision :: d.key == key ==> (d in w'.store.decisions <==> d in w.store.decisions)
  {
    if step.RecordOk? || step.RecordAmbiguous? {
      NewestAfterAppend(w.store.decisions, Decision(step.id, w.runs[step.run].key), key);
    }
  }

  /** The invariant speaks of one key's pointer, decisions and running runs, and survives more
      decisions going stale. */
  lemma SequentialInvFrame(w: World, w': World, key: EventKey)
    requires SequentialInv(w, key) && DistinctIds(w'.store.decisions) && w.stale <= w'.stale
    requires key in w'.store.events <==> key in w.store.events
    requires key in w.store.events ==> w'.store.events[key] == w.store.events[key]
    requires Newest(w'.store.decisions, key) == Newest(w.store.decisions, key)
    requires forall d: Decision :: d.key == key ==> (d in w'.store.decisions <==> d in w.store.decisions)
    requires forall r :: Active(w', r, key) <==> Active(w, r, key)
    requires forall r :: Active(w', r, key) && Active(w, r, key) ==> w'.runs[r].phase == w.runs[r].phase
    ensures SequentialInv(w', key)
  {
    forall r | Active(w', r, key) ensures PhaseInv(w', key, w'.runs[r].phase) {
      assert PhaseInv(w, key, w.runs[r].phase);
    }
  }

  lemma SequentialInvOutside(w: World, step: Step, key: EventKey)
    requires SequentialInv(w, key) && Enabled(w, step) && !step.Arrive?
    requires step.GoesStale? || w.runs[step.run].key != key
    ensures SequentialInv(Next(w, step), key)
  {
    if !step.GoesStale? {
      OtherKeysUntouched(w, step, key);
      OthersStay(w, step, key);
    }
    SequentialInvFrame(w, Next(w, step), key);
  }

  lemma OthersStay(w: World, step: Step, key: EventKey)
    requires Enabled(w, step) && !step.GoesStale? && !step.Arrive? && w.runs[step.run].key != key
    requires DistinctIds(w.store.decisions)
    ensures var w' := Next(w, step);
            && DistinctIds(w'.store.decisions) && w'.stale == w.stale
            && (forall r :: Active(w', r, key) <==> Active(w, r, key))
            && (forall r :: Active(w', r, key) && Active(w, r, key) ==> w'.runs[r].phase == w.runs[r].phase)
  {
    var w' := Next(w, step);
    forall r ensures Active(w', r, key) <==> Active(w, r, key)
             ensures Active(w', r, key) && Active(w, r, key) ==> w'.runs[r].phase == w.runs[r].phase
    {
      assert r != step.run ==> (r in w'.runs <==> r in w.runs);
    }
  }

  lemma SequentialInvArrive(w: World, r: RunId, arriving: EventKey, key: EventKey)
    requires SequentialInv(w, key) && r !in w.runs
    requires arriving == key ==> Quiescent(w, key)
    ensures SequentialInv(Next(w, Arrive(r, arriving)), key)
  {
    var w' := Next(w, Arrive(r, arriving));
    forall q | q != r ensures Active(w', q, key) <==> Active(w, q, key) {}
    assert Active(w', r, key) <==> arriving == key;
  }

  /** The running run on the key stays the only one. */
  lemma StillAlone(w: World, step: Step, key: EventKey)
    requires SequentialInv(w, key) && Enabled(w, step)
    requires !step.GoesStale? && !step.Arrive? && w.runs[step.run].key == key
    ensures Active(w, step.run, key) && PhaseInv(w, key, w.runs[step.run].phase)
    ensures forall q :: Active(Next(w, step), q, key) ==> q == step.run
    ensures Quiescent(Next(w, step), key) <==> !Active(Next(w, step), step.run, key)
  {
    var w' := Next(w, step);
    assert Active(w, step.run, key);
    forall q | Active(w', q, key) ensures q == step.run {
      if q != step.run { assert Active(w, q, key); }
    }
  }

  lemma SequentialInvCommit(w: World, step: Step, key: EventKey)
    requires SequentialInv(w, key) && Enabled(w, step)
    requires (step.RecordOk? || step.RecordAmbiguous?) && w.runs[step.run].key == key
    ensures SequentialInv(Next(w, step), key)
  {
    StillAlone(w, step, key);
    NewestAfterAppend(w.store.decisions, Decision(step.id, key), key);
  }

  lemma SequentialInvMove(w: World, step: Step, key: EventKey)
    requires SequentialInv(w, key) && Enabled(w, step)
    requires !step.GoesStale? && !step.Arrive? && !step.RecordOk? && !step.RecordAmbiguous?
    requires w.runs[step.run].key == key
    ensures SequentialInv(Next(w, step), key)
  {
    StillAlone(w, step, key);
    NewestIsRecorded(w.store.decisions, key);
    var w' := Next(w, step);
    assert w'.store.decisions == w.store.decisions && w'.stale == w.stale;
    assert PhaseInv(w', key, w'.runs[step.run].phase);
  }

  lemma SequentialInvStep(w: World, step: Step, key: EventKey)
    requires SequentialInv(w, key) && Enabled(w, step)
    requires step.Arrive? && step.key == key ==> Quiescent(w, key)
    ensures SequentialInv(Next(w, step), key)
  {
    if step.Arrive? {
      SequentialInvArrive(w, step.run, step.key, key);
    } else if step.GoesStale? || w.runs[step.run].key != key {
      SequentialInvOutside(w, step, key);
    } else if step.RecordOk? || step.RecordAmbiguous? {
      SequentialInvCommit(w, step, key);
    } else {
      SequentialInvMove(w, step, key);
    }
  }

  lemma {:induction false} SequentialInvRun(w: World, steps: seq<Step>, key: EventKey)
    requires SequentialInv(w, key) && Legal(w, steps) && OneAtATime(w, steps, key)
    ensures SequentialInv(After(w, steps), key)
    decreases |steps|
  {
    if steps != [] {
      SequentialInvStep(w, steps[0], key);
      SequentialInvRun(Next(w, steps[0]), steps[1..], key);
    }
  }

  /** Newest-first recovery: even when record writes commit behind a reported failure and are
      released, runs that do not overlap keep one servable decision per key and mint only
      when there is none. */
  lemma NoDoubleMintUnderAmbiguity(w: World, steps: seq<Step>, key: EventKey)
    requires Initial(w) && Legal(w, steps) && OneAtATime(w, steps, key)
    ensures var end := After(w, steps);
            && AtMostOneServable(end, key) && MintsAreSafe(end, key)
            && forall id :: Servable(end, key, id) ==> Newest(end.store.decisions, key) == Some(id)
  {
    SequentialInvRun(w, steps, key);
    var end := After(w, steps);
    forall id | Servable(end, key, id) ensures Newest(end.store.decisions, key) == Some(id) {
      assert Decision(id, key) in end.store.decisions;
    }
    forall r | Holding(end, r, key) && !end.runs[r].phase.Failing?
      ensures forall id :: !Servable(end, key, id)
      ensures forall q :: Holding(end, q, key) ==> q == r
    {
      assert Active(end, r, key);
      forall q | Holding(end, q, key) ensures q == r { assert Active(end, q, key); }
    }
  }

  lemma Unroll1(w: World, a: Step)
    requires Enabled(w, a)
    ensures Legal(w, [a]) && After(w, [a]) == Next(w, a)
  {
    assert [a][1..] == [];
    assert Legal(Next(w, a), []);
    assert After(Next(w, a), []) == Next(w, a);
  }

  lemma Unroll2(w: World, a: Step, b: Step)
    requires Enabled(w, a) && Enabled(Next(w, a), b)
    ensures Legal(w, [a, b]) && After(w, [a, b]) == Next(Next(w, a), b)
  {
    assert [a, b][1..] == [b];
    Unroll1(Next(w, a), b);
  }

  lemma Unroll3(w: World, a: Step, b: Step, c: Step)
    requires Enabled(w, a) && Enabled(Next(w, a), b) && Enabled(Next(Next(w, a), b), c)
    ensures Legal(w, [a, b, c]) && After(w, [a, b, c]) == Next(Next(Next(w, a), b), c)
  {
    assert [a, b, c][1..] == [b, c];
    Unroll2(Next(w, a), b, c);
  }

  // ----- A quiet key is never wedged ------------------------------------------------------

  /** An empty pointer belongs to a run that still holds the claim, and a full one to a decision of
      its key. */
  ghost predicate PointersAccounted(w: World, key: EventKey) {
    key in w.store.events ==>
      && (w.store.events[key].None? ==> exists r :: Holding(w, r, key))
      && (w.store.events[key].Some? ==> Decision(w.store.events[key].value, key) in w.store.decisions)
  }

  lemma PointersAccountedStep(w: World, step: Step, key: EventKey)
    requires PointersAccounted(w, key) && Enabled(w, step)
    ensures PointersAccounted(Next(w, step), key)
  {
    var w' := Next(w, step);
    if key in w'.store.events && w'.store.events[key].None? {
      if step.ClaimStep? && w.runs[step.run].key == key && key !in w.store.events {
        assert Holding(w', step.run, key);
      } else {
        var h :| Holding(w, h, key);
        assert Holding(w', h, key);
      }
    }
  }

  lemma {:induction false} PointersAccountedRun(w: World, steps: seq<Step>, key: EventKey)
    requires PointersAccounted(w, key) && Legal(w, steps)
    ensures PointersAccounted(After(w, steps), key)
    decreases |steps|
  {
    if steps != [] {
      PointersAccountedStep(w, steps[0], key);
      PointersAccountedRun(Next(w, steps[0]), steps[1..], key);
    }
  }

  /** No pointer, or one that names a decision of the key. */
  predicate PointerSettled(w: World, key: EventKey) {
    key in w.store.events ==>
      w.store.events[key].Some? && Decision(w.store.events[key].value, key) in w.store.decisions
  }

  function LookupSteps(w: World, r: RunId, key: EventKey): seq<Step> {
    if key in w.store.events && w.store.events[key].Some? then [ReadPointer(r)] else [ReadPointer(r), Query(r)]
  }

  function ActSteps(w: World, r: RunId, key: EventKey): seq<Step> {
    match Find(w.store, key)
    case None => [ClaimStep(r)]
    case Some(id) => if id in w.stale then [Judge(r), EvictStep(r), ClaimStep(r)] else [Judge(r)]
  }

  /** On a quiet key a lookup hands back what the store finds, by the pointer or by the query. */
  lemma LoneLookup(w: World, key: EventKey, r: RunId)
    requires PointerSettled(w, key) && r !in w.runs
    ensures var w1 := Next(w, Arrive(r, key));
            var looked := LookupSteps(w, r, key);
            && Legal(w1, looked)
            && var w2 := After(w1, looked);
               && w2.store == w.store && w2.stale == w.stale && r in w2.runs && w2.runs[r].key == key
               && w2.runs[r].phase == match Find(w.store, key)
                                      case Some(id) => Judging(id)
                                      case None => Claiming
  {
    NewestIsRecorded(w.store.decisions, key);
    var w1 := Next(w, Arrive(r, key));
    if key in w.store.events {
      var id := w.store.events[key].value;
      var i :| 0 <= i < |w.store.decisions| && w.store.decisions[i] == Decision(id, key);
      assert Recorded(w.store.decisions, id);
      Unroll1(w1, ReadPointer(r));
    } else {
      Unroll2(w1, ReadPointer(r), Query(r));
    }
  }

  lemma LoneAct(w: World, key: EventKey, r: RunId)
    requires PointerSettled(w, key) && r in w.runs && w.runs[r].key == key
    requires w.runs[r].phase == match Find(w.store, key)
                                case Some(id) => Judging(id)
                                case None => Claiming
    ensures var acted := ActSteps(w, r, key);
            && Legal(w, acted)
            && var end := After(w, acted);
               && r in end.runs
               && end.runs[r].phase == match Find(w.store, key)
                                       case Some(id) => if id in w.stale then Claimed else Served(id)
                                       case None => Claimed
  {
    match Find(w.store, key)
    case None =>
      assert PointerSettled(w, key);
      SettledFinds(w, key);
      Unroll1(w, ClaimStep(r));
    case Some(id) =>
      if id in w.stale {
        Unroll3(w, Judge(r), EvictStep(r), ClaimStep(r));
      } else {
        Unroll1(w, Judge(r));
      }
  }

  /** What a settled key finds is a decision of that key, and nothing is found only with the
      pointer gone. */
  lemma SettledFinds(w: World, key: EventKey)
    requires PointerSettled(w, key)
    ensures Find(w.store, key).None? ==> key !in w.store.events
    ensures Find(w.store, key).Some? ==> Decision(Find(w.store, key).value, key) in w.store.decisions
  {
    NewestIsRecorded(w.store.decisions, key);
    if key in w.store.events {
      var id := w.store.events[key].value;
      var i :| 0 <= i < |w.store.decisions| && w.store.decisions[i] == Decision(id, key);
      assert Recorded(w.store.decisions, id);
    }
  }

  lemma QuietIsSettled(w: World, key: EventKey)
    requires PointersAccounted(w, key) && Quiescent(w, key)
    ensures PointerSettled(w, key)
  {
    if key in w.store.events && w.store.events[key].None? {
      var h :| Holding(w, h, key);
      assert Active(w, h, key);
    }
  }

  /** A failed repair never wedges a key: whatever came before, runs overlapping and records
      ambiguous or not, a fresh run on a quiet key serves a live decision of the key, or evicts a
      stale one and wins the claim. */
  lemma QuietKeyIsNeverWedged(w: World, steps: seq<Step>, key: EventKey, r: RunId)
    requires Initial(w) && Legal(w, steps)
    requires Quiescent(After(w, steps), key) && r !in After(w, steps).runs
    ensures var quiet := After(w, steps);
            && var arrived := Next(quiet, Arrive(r, key));
            && Legal(arrived, LookupSteps(quiet, r, key))
            && var looked := After(arrived, LookupSteps(quiet, r, key));
            && Legal(looked, ActSteps(looked, r, key))
            && var end := After(looked, ActSteps(looked, r, key));
            && r in end.runs
            && match Find(quiet.store, key)
               case None => end.runs[r].phase == Claimed
               case Some(id) => if Servable(quiet, key, id) then end.runs[r].phase == Served(id)
                                else end.runs[r].phase == Claimed
  {
    PointersAccountedRun(w, steps, key);
    var quiet := After(w, steps);
    QuietIsSettled(quiet, key);
    SettledFinds(quiet, key);
    LoneLookup(quiet, key, r);
    LoneAct(After(Next(quiet, Arrive(r, key)), LookupSteps(quiet, r, key)), key, r);
  }

  /** When runs on the key do not overlap, what it finds is the newest decision. */
  lemma QuietKeyFindsTheNewest(w: World, steps: seq<Step>, key: EventKey)
    requires Initial(w) && Legal(w, steps) && OneAtATime(w, steps, key) && Quiescent(After(w, steps), key)
    ensures var quiet := After(w, steps); Find(quiet.store, key) == Newest(quiet.store.decisions, key)
  {
    SequentialInvRun(w, steps, key);
    NewestIsRecorded(After(w, steps).store.decisions, key);
  }

  // ----- Overlap together with an ambiguous record write ----------------------------------

  ghost predicate Reaches(w: World, steps: seq<Step>, end: World) {
    Legal(w, steps) && After(w, steps) == end
  }

  lemma {:induction false} Concat(w: World, first: seq<Step>, middle: World, second: seq<Step>, end: World)
    requires Reaches(w, first, middle) && Reaches(middle, second, end)
    ensures Reaches(w, first + second, end)
    decreases |first|
  {
    if first == [] {
      assert [] + second == second;
    } else {
      Concat(Next(w, first[0]), first[1..], middle, second, end);
      assert (first + second)[1..] == first[1..] + second;
    }
  }

  function FindsNothing(r: RunId, key: EventKey): seq<Step> {
    [Arrive(r, key), ReadPointer(r), Query(r)]
  }

  function CommitsButReleases(r: RunId, id: DecisionId): seq<Step> {
    [ClaimStep(r), Mint(r)] + [RecordAmbiguous(r, id), ReleaseStep(r)]
  }

  function Records(r: RunId, id: DecisionId): seq<Step> {
    [ClaimStep(r), Mint(r), RecordOk(r, id)]
  }

  /** The two hypotheses cannot both be dropped. Two runs find an unknown key; the first one's
      record write commits behind a reported failure and its release deletes the pointer; the
      second then claims a key that already has a live decision. */
  lemma OverlapWithAmbiguityMintsTwice(key: EventKey)
    ensures var w := World(Store(map[], []), {}, map[]);
            var steps := FindsNothing(1, key) + FindsNothing(2, key) + CommitsButReleases(1, "A") + Records(2, "B");
            Initial(w) && Legal(w, steps) && !AtMostOneServable(After(w, steps), key)
  {
    var w := World(Store(map[], []), {}, map[]);
    var a := LookedUp(w, 1, key);
    var b := LookedUp(a, 2, key);
    var c := CommittedAndReleased(b, 1, "A", key);
    var d := ClaimedAndRecorded(c, 2, "B", key);
    Concat(w, FindsNothing(1, key), a, FindsNothing(2, key), b);
    Concat(w, FindsNothing(1, key) + FindsNothing(2, key), b, CommitsButReleases(1, "A"), c);
    Concat(w, FindsNothing(1, key) + FindsNothing(2, key) + CommitsButReleases(1, "A"), c, Records(2, "B"), d);
    assert d.store.decisions[0] == Decision("A", key) && d.store.decisions[1] == Decision("B", key);
    assert Servable(d, key, "A") && Servable(d, key, "B");
    assert "A"[0] != "B"[0];
  }

  lemma LookedUp(w: World, r: RunId, key: EventKey) returns (w': World)
    requires r !in w.runs && key !in w.store.events && w.store.decisions == []
    ensures w' == w.(runs := w.runs[r := Run(key, Claiming)])
    ensures Reaches(w, FindsNothing(r, key), w')
  {
    Unroll3(w, Arrive(r, key), ReadPointer(r), Query(r));
    w' := After(w, FindsNothing(r, key));
  }

  lemma CommittedAndReleased(w: World, r: RunId, id: DecisionId, key: EventKey) returns (w': World)
    requires InPhase(w, r, Claiming) && w.runs[r].key == key
    requires w.store == Store(map[], []) && id !in w.stale
    ensures w' == World(Store(map[], [Decision(id, key)]), w.stale, w.runs[r := Run(key, Stopped)])
    ensures Reaches(w, CommitsButReleases(r, id), w')
  {
    Unroll2(w, ClaimStep(r), Mint(r));
    var c := After(w, [ClaimStep(r), Mint(r)]);
    assert map[key := Some(id)] - {key} == map[];
    Unroll2(c, RecordAmbiguous(r, id), ReleaseStep(r));
    w' := After(c, [RecordAmbiguous(r, id), ReleaseStep(r)]);
    assert w'.store.events == map[];
    Concat(w, [ClaimStep(r), Mint(r)], c, [RecordAmbiguous(r, id), ReleaseStep(r)], w');
  }

  lemma ClaimedAndRecorded(w: World, r: RunId, id: DecisionId, key: EventKey) returns (w': World)
    requires InPhase(w, r, Claiming) && w.runs[r].key == key
    requires key !in w.store.events && Fresh(w, id)
    ensures w'.stale == w.stale && w'.store.decisions == w.store.decisions + [Decision(id, key)]
    ensures Reaches(w, Records(r, id), w')
  {
    Unroll3(w, ClaimStep(r), Mint(r), RecordOk(r, id));
    w' := After(w, Records(r, id));
  }
}
