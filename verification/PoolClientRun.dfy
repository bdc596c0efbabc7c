/** Every interleaving of the client's threads: sequence numbers, conservation, and what reaches the wire. */
module PoolClientRun {
  import opened Limbs
  import opened ByteCodec
  import opened BigEndian
  import opened Results
  import opened Wire
  import opened PoolClient

  datatype Step =
    | Submit(dps: seq<Submitted>)
    | Snapshot
    | Drain
    | Advance
    | Send
    | Receive(kind: Byte, payload: seq<Byte>)
    | Link(auth: AuthState, connected: bool)

  predicate Enabled(s: State, e: Step) {
    match e
    case Snapshot => s.phase.Waiting?
    case Drain => s.phase.Snapped?
    case Advance => s.phase.Drained?
    case Send => s.phase.Advanced?
    case _ => true
  }

  function After(s: State, e: Step): State
    requires Enabled(s, e)
  {
    match e
    case Submit(dps) => AfterSubmit(s, dps)
    case Snapshot => AfterSnapshot(s)
    case Drain => AfterDrain(s)
    case Advance => AfterAdvance(s)
    case Send => s.(phase := Waiting)
    case Receive(kind, payload) => AfterMessage(s, kind, payload)
    case Link(auth, connected) => s.(auth := auth, connected := connected)
  }

  /** A client with what happened so far: points accepted, points tagged, batches sent and where in the tagged
      points they start, work ids seen. */
  datatype History = History(
    state: State,
    submitted: seq<Submitted>,
    tagged: seq<Tagged>,
    sent: seq<seq<Tagged>>,
    at: seq<nat>,
    issued: set<U64>)

  function Start(anyId: U64): History {
    History(State([], anyId, false, 0, Disconnected, false, 0xFFFF_FFFF_FFFF_FFFF, Waiting), [], [], [], [], {anyId})
  }

  /** The server hands out only ids this client has not had before. */
  predicate Fresh(h: History, e: Step) {
    e.Receive? && Taken(h.state, e.kind, e.payload).Some? ==> Taken(h.state, e.kind, e.payload).value.workId !in h.issued
  }

  function Record(h: History, e: Step): History
    requires Enabled(h.state, e)
  {
    var t := After(h.state, e);
    match e
    case Submit(dps) =>
      h.(state := t, submitted := if |h.state.queue| + |dps| > MAX_DP_QUEUE_SIZE then h.submitted else h.submitted + dps)
    case Drain => h.(state := t, tagged := h.tagged + t.phase.batch)
    case Send =>
      if Sends(h.state) && |h.state.phase.batch| <= |h.tagged|
      then h.(state := t, sent := h.sent + [h.state.phase.batch], at := h.at + [|h.tagged| - |h.state.phase.batch|])
      else h.(state := t)
    case Receive(kind, payload) =>
      h.(state := t, issued := if Taken(h.state, kind, payload).Some? then h.issued + {t.workId} else h.issued)
    case _ => h.(state := t)
  }

  /** Every step can be taken when its turn comes. */
  predicate Possible(h: History, steps: seq<Step>)
    decreases |steps|
  {
    steps != [] ==> Enabled(h.state, steps[0]) && Possible(Record(h, steps[0]), steps[1..])
  }

  /** No step brings an assignment with a work id the client already had. */
  predicate NeverReissued(h: History, steps: seq<Step>)
    requires Possible(h, steps)
    decreases |steps|
  {
    steps != [] ==> Fresh(h, steps[0]) && NeverReissued(Record(h, steps[0]), steps[1..])
  }

  function Run(h: History, steps: seq<Step>): History
    requires Possible(h, steps)
    decreases |steps|
  {
    if steps == [] then h else Run(Record(h, steps[0]), steps[1..])
  }

  // ---- Sequence numbers ----

  /** How many points carry a work id. */
  function Count(tagged: seq<Tagged>, id: U64): nat {
    if tagged == [] then 0
    else Count(tagged[..|tagged| - 1], id) + if tagged[|tagged| - 1].workId == id then 1 else 0
  }

  /** The sequence number a point gets when the points before it are given. */
  predicate InTurn(tagged: seq<Tagged>, i: nat)
    requires i < |tagged|
  {
    tagged[i].sequence == Count(tagged[..i], tagged[i].workId) % SEQUENCES
  }

  /** The first sequence number not yet used for a work id. */
  function Frontier(h: History, id: U64): nat {
    Count(h.tagged, id) % SEQUENCES
  }

  predicate SenderKnows(h: History) {
    var s := h.state;
    match s.phase
    case Waiting => s.sequenceNext == Frontier(h, s.workId)
    case Snapped(id, start) =>
      && id in h.issued && start == Frontier(h, id)
      && s.sequenceNext == Frontier(h, s.workId)
    case Drained(id, start, batch) =>
      && id in h.issued && (start + |batch|) % SEQUENCES == Frontier(h, id)
      && ((s.workId == id && batch != []) || s.sequenceNext == Frontier(h, s.workId))
    case Advanced(_) => s.sequenceNext == Frontier(h, s.workId)
  }

  /** The batch in the sender's hands. */
  function InHand(s: State): seq<Tagged> {
    match s.phase
    case Drained(_, _, batch) => batch
    case Advanced(batch) => batch
    case _ => []
  }

  /** The sent batches are stretches of the tagged points, one after the other, all before the limit. */
  predicate Stretches(tagged: seq<Tagged>, sent: seq<seq<Tagged>>, at: seq<nat>, limit: nat)
    requires limit <= |tagged|
  {
    && |at| == |sent|
    && (forall k :: 0 <= k < |sent| ==>
          && 0 < |sent[k]| <= BATCH && at[k] + |sent[k]| <= limit
          && tagged[at[k]..at[k] + |sent[k]|] == sent[k])
    && (forall k, l :: 0 <= k < l < |sent| ==> at[k] + |sent[k]| <= at[l])
  }

  /** The batch in hand is the end of the tagged points, and what was sent lies before it. */
  predicate SentInOrder(h: History) {
    && |InHand(h.state)| <= |h.tagged| && h.tagged[|h.tagged| - |InHand(h.state)|..] == InHand(h.state)
    && Stretches(h.tagged, h.sent, h.at, |h.tagged| - |InHand(h.state)|)
  }

  /** Points leave in the order they came, none is lost before it is tagged, and each is tagged as itself. */
  predicate Conserved(h: History) {
    && |h.tagged| <= |h.submitted|
    && h.submitted[|h.tagged|..] == h.state.queue
    && forall i :: 0 <= i < |h.tagged| ==> h.tagged[i] == Tag(h.tagged[i].workId, h.tagged[i].sequence, h.submitted[i])
  }

  /** What every step keeps, whatever the server does. */
  predicate Structure(h: History) {
    && |InHand(h.state)| <= BATCH && |h.state.queue| <= MAX_DP_QUEUE_SIZE
    && SentInOrder(h)
    && Conserved(h)
  }

  /** What every step keeps as long as no work id comes twice. */
  predicate Numbering(h: History) {
    && h.state.workId in h.issued
    && (forall i :: 0 <= i < |h.tagged| ==> h.tagged[i].workId in h.issued && InTurn(h.tagged, i))
    && SenderKnows(h)
  }

  lemma {:induction false} CountOther(tagged: seq<Tagged>, id: U64)
    requires forall i :: 0 <= i < |tagged| ==> tagged[i].workId != id
    ensures Count(tagged, id) == 0
  {
    if tagged != [] { CountOther(tagged[..|tagged| - 1], id); }
  }

  lemma CountSnoc(tagged: seq<Tagged>, t: Tagged, id: U64)
    ensures Count(tagged + [t], id) == Count(tagged, id) + if t.workId == id then 1 else 0
  {
    assert (tagged + [t])[..|tagged|] == tagged;
  }

  lemma NextResidue(m: int, n: int)
    requires m % SEQUENCES == n % SEQUENCES
    ensures (m + 1) % SEQUENCES == (n + 1) % SEQUENCES
  {}

  /** Appending a point with the next sequence number keeps every point in turn. */
  lemma TagInTurn(tagged: seq<Tagged>, t: Tagged)
    requires forall i :: 0 <= i < |tagged| ==> InTurn(tagged, i)
    requires t.sequence == Count(tagged, t.workId) % SEQUENCES
    ensures forall i :: 0 <= i < |tagged| + 1 ==> InTurn(tagged + [t], i)
  {
    hide Count;
    var all := tagged + [t];
    forall i | 0 <= i < |all| ensures InTurn(all, i) {
      if i < |tagged| {
        assert InTurn(tagged, i);
        assert all[..i] == tagged[..i];
      } else {
        assert all[..i] == tagged;
      }
    }
  }

  /** Appending a batch tagged from the frontier keeps every point in turn. */
  lemma {:induction false} BatchInTurn(tagged: seq<Tagged>, id: U64, start: U32, dps: seq<Submitted>)
    requires start == Count(tagged, id) % SEQUENCES
    requires forall i :: 0 <= i < |tagged| ==> InTurn(tagged, i)
    ensures var all := tagged + TagAll(id, start, dps);
            && (forall i :: 0 <= i < |all| ==> InTurn(all, i))
            && Count(all, id) % SEQUENCES == (start + |dps|) % SEQUENCES
            && forall other: U64 :: other != id ==> Count(all, other) == Count(tagged, other)
    decreases |dps|
  {
    hide Count, InTurn;
    if dps == [] {
      assert tagged + TagAll(id, start, dps) == tagged;
    } else {
      var k := |dps| - 1;
      var before := tagged + TagAll(id, start, dps[..k]);
      var last := Tag(id, (start + k) % SEQUENCES, dps[k]);
      BatchInTurn(tagged, id, start, dps[..k]);
      assert tagged + TagAll(id, start, dps) == before + [last];
      forall other: U64 ensures Count(before + [last], other) == Count(before, other) + if id == other then 1 else 0 {
        CountSnoc(before, last, other);
      }
      TagInTurn(before, last);
      NextResidue(Count(before, id), start + k);
    }
  }

  lemma SentUnchanged(h: History, n: History)
    requires SentInOrder(h) && InHand(n.state) == InHand(h.state)
    requires n.tagged == h.tagged && n.sent == h.sent && n.at == h.at
    ensures SentInOrder(n)
  {}

  lemma ConservedUnchanged(h: History, n: History)
    requires Conserved(h) && n.submitted == h.submitted && n.tagged == h.tagged && n.state.queue == h.state.queue
    ensures Conserved(n)
  {}

  lemma SubmitKeeps(h: History, dps: seq<Submitted>)
    requires Structure(h)
    ensures Structure(Record(h, Submit(dps)))
    ensures Numbering(h) ==> Numbering(Record(h, Submit(dps)))
  {
    hide Count, SentInOrder;
    var n := Record(h, Submit(dps));
    assert InHand(n.state) == InHand(h.state);
    SentUnchanged(h, n);
    if |h.state.queue| + |dps| <= MAX_DP_QUEUE_SIZE {
      assert n.submitted[|h.tagged|..] == h.state.queue + dps;
    }
  }

  lemma SnapshotKeeps(h: History)
    requires Structure(h) && h.state.phase.Waiting?
    ensures Structure(Record(h, Snapshot))
    ensures Numbering(h) ==> Numbering(Record(h, Snapshot))
  {
    hide Count, SentInOrder, Conserved;
    SentUnchanged(h, Record(h, Snapshot));
    ConservedUnchanged(h, Record(h, Snapshot));
  }

  lemma DrainKeeps(h: History)
    requires Structure(h) && h.state.phase.Snapped?
    ensures Structure(Record(h, Drain))
    ensures Numbering(h) ==> Numbering(Record(h, Drain))
  {
    hide Count, TagAll, InTurn, Tag, SentInOrder, Numbering;
    var s, n := h.state, Record(h, Drain);
    var id, start, k := s.phase.workId, s.phase.start, Drawable(|s.queue|);
    var batch := TagAll(id, start, s.queue[..k]);
    assert n.tagged == h.tagged + batch && n.state.phase == Drained(id, start, batch);
    forall i | 0 <= i < |n.tagged| ensures n.tagged[i] == Tag(n.tagged[i].workId, n.tagged[i].sequence, n.submitted[i]) {
      if i >= |h.tagged| {
        var j := i - |h.tagged|;
        assert n.tagged[i] == batch[j];
        assert h.submitted[i] == h.submitted[|h.tagged|..][j] == s.queue[..k][j];
        TagKeepsId(id, start, s.queue[..k], j);
      }
    }
    assert n.submitted[|n.tagged|..] == s.queue[k..];
    DrainSent(h, n);
    if Numbering(h) { DrainNumbers(h); }
  }

  lemma DrainNumbers(h: History)
    requires Structure(h) && Numbering(h) && h.state.phase.Snapped?
    ensures Numbering(Record(h, Drain))
  {
    hide Count, TagAll, InTurn, Tag, SentInOrder, Conserved;
    var s, n := h.state, Record(h, Drain);
    var id, start, k := s.phase.workId, s.phase.start, Drawable(|s.queue|);
    BatchInTurn(h.tagged, id, start, s.queue[..k]);
    forall i | 0 <= i < |n.tagged| ensures n.tagged[i].workId in n.issued {
      if i >= |h.tagged| {
        assert n.tagged[i] == TagAll(id, start, s.queue[..k])[i - |h.tagged|];
        TagKeepsId(id, start, s.queue[..k], i - |h.tagged|);
      }
    }
  }

  lemma TagKeepsId(id: U64, start: U32, dps: seq<Submitted>, j: nat)
    requires j < |dps|
    ensures TagAll(id, start, dps)[j].workId == id
    ensures TagAll(id, start, dps)[j] == Tag(id, TagAll(id, start, dps)[j].sequence, dps[j])
  {}

  lemma DrainSent(h: History, n: History)
    requires SentInOrder(h) && InHand(h.state) == []
    requires n.sent == h.sent && n.at == h.at && n.tagged == h.tagged + InHand(n.state)
    ensures SentInOrder(n)
  {
    hide InHand, Stretches;
    StretchesKept(h.tagged, InHand(n.state), h.sent, h.at);
    TakeTail(h.tagged, InHand(n.state));
  }

  lemma StretchesKept(tagged: seq<Tagged>, more: seq<Tagged>, sent: seq<seq<Tagged>>, at: seq<nat>)
    requires Stretches(tagged, sent, at, |tagged|)
    ensures Stretches(tagged + more, sent, at, |tagged|)
  {
    forall k | 0 <= k < |sent| ensures (tagged + more)[at[k]..at[k] + |sent[k]|] == sent[k] {
      SlicePrefix(tagged, more, at[k], at[k] + |sent[k]|);
    }
  }

  lemma SlicePrefix<T>(s: seq<T>, t: seq<T>, i: nat, j: nat)
    requires i <= j <= |s|
    ensures (s + t)[i..j] == s[i..j]
  {}

  lemma TakeTail<T>(s: seq<T>, t: seq<T>)
    ensures (s + t)[|s + t| - |t|..] == t
  {}

  lemma AdvanceKeeps(h: History)
    requires Structure(h) && h.state.phase.Drained?
    ensures Structure(Record(h, Advance))
    ensures Numbering(h) ==> Numbering(Record(h, Advance))
  {
    hide Count, InTurn, SentInOrder, Conserved;
    SentUnchanged(h, Record(h, Advance));
    ConservedUnchanged(h, Record(h, Advance));
  }

  lemma SendKeeps(h: History)
    requires Structure(h) && h.state.phase.Advanced?
    ensures Structure(Record(h, Send))
    ensures Numbering(h) ==> Numbering(Record(h, Send))
  {
    hide Count, InTurn, Conserved, SentInOrder;
    var n := Record(h, Send);
    assert InHand(n.state) == [];
    SendOrdered(h);
    SendConserves(h);
  }

  lemma SendConserves(h: History)
    requires Conserved(h) && h.state.phase.Advanced?
    ensures Conserved(Record(h, Send))
  {}

  lemma SendOrdered(h: History)
    requires SentInOrder(h) && |InHand(h.state)| <= BATCH && h.state.phase.Advanced?
    ensures SentInOrder(Record(h, Send))
  {
    hide Stretches;
    var n, b := Record(h, Send), h.state.phase.batch;
    assert InHand(n.state) == [] && n.tagged[|n.tagged|..] == [];
    StretchesExtended(h.tagged, h.sent, h.at, |h.tagged| - |b|);
    if Sends(h.state) { StretchesMore(h.tagged, h.sent, h.at, b); }
  }

  lemma StretchesExtended(tagged: seq<Tagged>, sent: seq<seq<Tagged>>, at: seq<nat>, limit: nat)
    requires limit <= |tagged| && Stretches(tagged, sent, at, limit)
    ensures Stretches(tagged, sent, at, |tagged|)
  {}

  lemma StretchesMore(tagged: seq<Tagged>, sent: seq<seq<Tagged>>, at: seq<nat>, b: seq<Tagged>)
    requires 0 < |b| <= BATCH && |b| <= |tagged| && tagged[|tagged| - |b|..] == b
    requires Stretches(tagged, sent, at, |tagged| - |b|)
    ensures Stretches(tagged, sent + [b], at + [|tagged| - |b|], |tagged|)
  {
    assert tagged[|tagged| - |b|..|tagged|] == b;
  }

  lemma ReceiveKeeps(h: History, kind: Byte, payload: seq<Byte>)
    requires Structure(h)
    ensures Structure(Record(h, Receive(kind, payload)))
    ensures Numbering(h) && Fresh(h, Receive(kind, payload)) ==> Numbering(Record(h, Receive(kind, payload)))
  {
    hide Count, InTurn, SentInOrder, Conserved;
    var n := Record(h, Receive(kind, payload));
    SentUnchanged(h, n);
    ConservedUnchanged(h, n);
    if Taken(h.state, kind, payload).Some? && Numbering(h) && Fresh(h, Receive(kind, payload)) {
      CountOther(h.tagged, n.state.workId);
    }
  }

  lemma StepKeepsInvariant(h: History, e: Step)
    requires Structure(h) && Enabled(h.state, e)
    ensures Structure(Record(h, e))
    ensures Numbering(h) && Fresh(h, e) ==> Numbering(Record(h, e))
  {
    hide Structure, Numbering, Record, Count;
    match e
    case Submit(dps) => SubmitKeeps(h, dps);
    case Snapshot => SnapshotKeeps(h);
    case Drain => DrainKeeps(h);
    case Advance => AdvanceKeeps(h);
    case Send => SendKeeps(h);
    case Receive(kind, payload) => ReceiveKeeps(h, kind, payload);
    case Link(auth, connected) => LinkKeeps(h, auth, connected);
  }

  lemma LinkKeeps(h: History, auth: AuthState, connected: bool)
    requires Structure(h)
    ensures Structure(Record(h, Link(auth, connected)))
    ensures Numbering(h) ==> Numbering(Record(h, Link(auth, connected)))
  {
    hide Count, SentInOrder, Conserved;
    SentUnchanged(h, Record(h, Link(auth, connected)));
    ConservedUnchanged(h, Record(h, Link(auth, connected)));
  }

  lemma {:induction false} RunKeepsInvariant(h: History, steps: seq<Step>)
    requires Structure(h) && Possible(h, steps)
    ensures Structure(Run(h, steps))
    ensures Numbering(h) && NeverReissued(h, steps) ==> Numbering(Run(h, steps))
    decreases |steps|
  {
    hide Structure, Numbering, Record, Fresh;
    if steps != [] {
      StepKeepsInvariant(h, steps[0]);
      RunKeepsInvariant(Record(h, steps[0]), steps[1..]);
    }
  }

  lemma StartInvariant(anyId: U64)
    ensures Structure(Start(anyId)) && Numbering(Start(anyId))
  {}

  // ---- What follows at every reachable moment ----

  lemma {:induction false} CountMonotone(tagged: seq<Tagged>, i: nat, id: U64)
    requires i <= |tagged|
    ensures Count(tagged[..i], id) <= Count(tagged, id)
    decreases |tagged|
  {
    if i == |tagged| {
      assert tagged[..i] == tagged;
    } else {
      CountMonotone(tagged[..|tagged| - 1], i, id);
      assert tagged[..|tagged| - 1][..i] == tagged[..i];
    }
  }

  /** Fewer points before a point than before a later one with the same id. */
  lemma CountStrict(tagged: seq<Tagged>, i: nat, j: nat)
    requires i < j < |tagged| && tagged[i].workId == tagged[j].workId
    ensures Count(tagged[..i], tagged[i].workId) < Count(tagged[..j], tagged[i].workId) < Count(tagged, tagged[i].workId)
  {
    hide Count;
    CountPast(tagged, i);
    CountPast(tagged, j);
    assert tagged[..j][..i + 1] == tagged[..i + 1];
    CountMonotone(tagged[..j], i + 1, tagged[i].workId);
    CountMonotone(tagged, j + 1, tagged[i].workId);
  }

  lemma CountPast(tagged: seq<Tagged>, i: nat)
    requires i < |tagged|
    ensures Count(tagged[..i + 1], tagged[i].workId) == Count(tagged[..i], tagged[i].workId) + 1
  {
    assert tagged[..i + 1] == tagged[..i] + [tagged[i]];
    CountSnoc(tagged[..i], tagged[i], tagged[i].workId);
  }

  /** Within a work id the sequence numbers increase, as long as no id gets more than 2^32 points. */
  lemma SequencesIncrease(anyId: U64, steps: seq<Step>, i: nat, j: nat)
    requires Possible(Start(anyId), steps) && NeverReissued(Start(anyId), steps)
    requires i < j < |Run(Start(anyId), steps).tagged|
    requires var tagged := Run(Start(anyId), steps).tagged;
             tagged[i].workId == tagged[j].workId && Count(tagged, tagged[i].workId) <= SEQUENCES
    ensures var tagged := Run(Start(anyId), steps).tagged;
            tagged[i].sequence < tagged[j].sequence
  {
    hide Count, Run, Possible, NeverReissued;
    var h := Run(Start(anyId), steps);
    StartInvariant(anyId);
    RunKeepsInvariant(Start(anyId), steps);
    assert InTurn(h.tagged, i) && InTurn(h.tagged, j);
    CountStrict(h.tagged, i, j);
  }

  /** No pair of work id and sequence number is put on the wire twice. */
  lemma NeverSentTwice(anyId: U64, steps: seq<Step>, k: nat, a: nat, l: nat, b: nat)
    requires Possible(Start(anyId), steps) && NeverReissued(Start(anyId), steps)
    requires var h := Run(Start(anyId), steps);
             && k < |h.sent| && a < |h.sent[k]| && l < |h.sent| && b < |h.sent[l]| && (k, a) != (l, b)
             && Count(h.tagged, h.sent[k][a].workId) <= SEQUENCES
    ensures var h := Run(Start(anyId), steps);
            (h.sent[k][a].workId, h.sent[k][a].sequence) != (h.sent[l][b].workId, h.sent[l][b].sequence)
  {
    hide Count, Run, Possible, NeverReissued;
    var h := Run(Start(anyId), steps);
    StartInvariant(anyId);
    RunKeepsInvariant(Start(anyId), steps);
    var i, j := h.at[k] + a, h.at[l] + b;
    assert h.tagged[h.at[k]..h.at[k] + |h.sent[k]|][a] == h.tagged[i];
    assert h.tagged[h.at[l]..h.at[l] + |h.sent[l]|][b] == h.tagged[j];
    assert i != j;
    if h.tagged[i].workId == h.tagged[j].workId {
      if i < j { SequencesIncrease(anyId, steps, i, j); } else { SequencesIncrease(anyId, steps, j, i); }
    }
  }

  /** Past 2^32 points the numbers repeat: two points of one id share a number exactly when their ranks differ by
      a multiple of 2^32. */
  lemma RepeatsIff(anyId: U64, steps: seq<Step>, i: nat, j: nat)
    requires Possible(Start(anyId), steps) && NeverReissued(Start(anyId), steps)
    requires i < j < |Run(Start(anyId), steps).tagged|
    requires var tagged := Run(Start(anyId), steps).tagged; tagged[i].workId == tagged[j].workId
    ensures var tagged := Run(Start(anyId), steps).tagged;
            var id := tagged[i].workId;
            tagged[i].sequence == tagged[j].sequence
            <==> (Count(tagged[..j], id) - Count(tagged[..i], id)) % SEQUENCES == 0
  {
    hide Count, Run, Possible, NeverReissued;
    var h := Run(Start(anyId), steps);
    StartInvariant(anyId);
    RunKeepsInvariant(Start(anyId), steps);
    assert InTurn(h.tagged, i) && InTurn(h.tagged, j);
  }

  /** An id issued again makes the numbers start over: the next point drawn gets a pair already used. */
  lemma ReissueRepeats(h: History, payload: seq<Byte>, i: nat)
    requires h.state.phase.Waiting? && h.state.queue != []
    requires Taken(h.state, WORK_ASN, payload).Some?
    requires i < |h.tagged| && h.tagged[i].sequence == 0
    requires h.tagged[i].workId == Taken(h.state, WORK_ASN, payload).value.workId
    ensures var steps := [Receive(WORK_ASN, payload), Snapshot, Drain];
            && Possible(h, steps)
            && var t := Run(h, steps).tagged;
               && |h.tagged| < |t| && h.tagged == t[..|h.tagged|]
               && (t[|h.tagged|].workId, t[|h.tagged|].sequence) == (h.tagged[i].workId, h.tagged[i].sequence)
  {
    var a, b, c := Receive(WORK_ASN, payload), Snapshot, Drain;
    var h1 := Record(h, a);
    var h2 := Record(h1, b);
    var h3 := Record(h2, c);
    var steps := [a, b, c];
    assert steps[1..] == [b, c] && steps[1..][1..] == [c] && steps[1..][1..][1..] == [];
    assert Possible(h3, []) && Possible(h2, [c]) && Possible(h1, [b, c]);
    assert Run(h2, [c]) == Run(h3, []) == h3;
    assert Run(h1, [b, c]) == h3;
  }

  /** Every accepted point is, in order, either tagged or still queued, and every tagged point is the submitted one. */
  lemma PointsConserved(anyId: U64, steps: seq<Step>)
    requires Possible(Start(anyId), steps)
    ensures var h := Run(Start(anyId), steps);
            && |h.submitted| == |h.tagged| + |h.state.queue|
            && h.submitted[|h.tagged|..] == h.state.queue
            && forall i :: 0 <= i < |h.tagged| ==>
                 && h.tagged[i].x == h.submitted[i].x && h.tagged[i].d == h.submitted[i].d
                 && h.tagged[i].kind == h.submitted[i].kind && h.tagged[i].dpBits == h.submitted[i].dpBits % 256
  {
    hide Run, Possible, NeverReissued;
    StartInvariant(anyId);
    RunKeepsInvariant(Start(anyId), steps);
  }

  // ---- What the server reads ----

  function Messages(sent: seq<seq<Tagged>>): seq<Message> {
    seq(|sent|, k requires 0 <= k < |sent| => Message(DP_BATCH_V2, Payload(sent[k])))
  }

  /** The server reads from the client's stream exactly the batches sent, in order, each parsed as tagged. */
  lemma ServerReadsSent(anyId: U64, steps: seq<Step>)
    requires Possible(Start(anyId), steps)
    ensures var h := Run(Start(anyId), steps);
            var read := ReadAll(Stream(Messages(h.sent)));
            && |read| == |h.sent|
            && forall k :: 0 <= k < |read| ==> read[k].kind == DP_BATCH_V2 && ParsedBatch(read[k].payload) == Ok(h.sent[k])
  {
    hide Run, Possible, NeverReissued, Count, InTurn, ReadAll, Stream, Payload, ParsedBatch;
    var h := Run(Start(anyId), steps);
    StartInvariant(anyId);
    RunKeepsInvariant(Start(anyId), steps);
    var messages := Messages(h.sent);
    StreamRoundTrip(messages);
    forall k | 0 <= k < |h.sent| ensures ParsedBatch(messages[k].payload) == Ok(h.sent[k]) {
      BatchRoundTrip(h.sent[k], []);
      assert Payload(h.sent[k]) + [] == Payload(h.sent[k]);
    }
  }
}
