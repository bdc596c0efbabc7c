/** The pool client's sender and receiver as atomic steps at lock boundaries. */
module PoolClient {
  import opened Limbs
  import opened ByteCodec
  import opened BigEndian
  import opened Results
  import opened Wire

  const MAX_DP_QUEUE_SIZE := 100000
  const BATCH := 100
  const SEQUENCES := 0x1_0000_0000

  const AUTH_OK: Byte := 0x02
  const AUTH_FAIL: Byte := 0x03
  const MSG_ERROR: Byte := 0xff

  datatype AuthState = Disconnected | Connecting | AuthSent | Authenticated | AuthFailed

  /** Where the sender thread is in its loop, with its local variables. */
  datatype Phase =
    | Waiting
    | Snapped(workId: U64, start: U32)
    | Drained(workId: U64, start: U32, batch: seq<Tagged>)
    | Advanced(batch: seq<Tagged>)

  /** What the threads of one client share, and the sender's locals. */
  datatype State = State(
    queue: seq<Submitted>,
    workId: U64,
    workReceived: bool,
    sequenceNext: U32,
    auth: AuthState,
    connected: bool,
    lastFired: U64,
    phase: Phase)

  // ---- What each step does ----

  function Drawable(n: nat): nat {
    if n < BATCH then n else BATCH
  }

  function AfterSubmit(s: State, dps: seq<Submitted>): State {
    if |s.queue| + |dps| > MAX_DP_QUEUE_SIZE then s else s.(queue := s.queue + dps)
  }

  function AfterSnapshot(s: State): State {
    s.(phase := Snapped(s.workId, s.sequenceNext))
  }

  function AfterDrain(s: State): State
    requires s.phase.Snapped?
  {
    var n := Drawable(|s.queue|);
    s.(queue := s.queue[n..], phase := Drained(s.phase.workId, s.phase.start, TagAll(s.phase.workId, s.phase.start, s.queue[..n])))
  }

  function AfterAdvance(s: State): State
    requires s.phase.Drained?
  {
    var next := (s.phase.start + |s.phase.batch|) % SEQUENCES;
    var t := s.(phase := Advanced(s.phase.batch));
    if s.phase.batch != [] && s.workId == s.phase.workId then t.(sequenceNext := next) else t
  }

  predicate Sends(s: State) {
    s.phase.Advanced? && s.phase.batch != [] && s.connected && s.auth == Authenticated
  }

  /** An assignment the client takes: only once authenticated, and only if the payload is long enough. */
  function Taken(s: State, kind: Byte, payload: seq<Byte>): Option<Work> {
    if kind == WORK_ASN && s.auth == Authenticated then ParseWork(payload) else None
  }

  function AfterMessage(s: State, kind: Byte, payload: seq<Byte>): State {
    if Taken(s, kind, payload).Some? then
      var id := Taken(s, kind, payload).value.workId;
      s.(workId := id, workReceived := true, sequenceNext := 0, lastFired := id)
    else if kind == AUTH_OK then s.(auth := Authenticated)
    else if kind == AUTH_FAIL then s.(auth := AuthFailed, connected := false)
    else if kind == MSG_ERROR && s.auth == AuthSent then s.(auth := AuthFailed)
    else s
  }

  class JLPPoolClient {
    var queue: seq<Submitted>
    var workId: U64
    var workReceived: bool
    var sequenceNext: U32
    var auth: AuthState
    var connected: bool
    var lastFired: U64
    var phase: Phase

    ghost function Value(): State
      reads this
    {
      State(queue, workId, workReceived, sequenceNext, auth, connected, lastFired, phase)
    }

    /** The work id has no initial value in the source. */
    constructor (anyId: U64)
      ensures Value() == State([], anyId, false, 0, Disconnected, false, 0xFFFF_FFFF_FFFF_FFFF, Waiting)
    {
      queue, workId, workReceived, sequenceNext := [], anyId, false, 0;
      auth, connected, lastFired, phase := Disconnected, false, 0xFFFF_FFFF_FFFF_FFFF, Waiting;
    }

    method SubmitDp(dp: Submitted) returns (ok: bool)
      modifies this`queue
      ensures Value() == AfterSubmit(old(Value()), [dp])
      ensures ok <==> |old(queue)| < MAX_DP_QUEUE_SIZE
    {
      if |queue| >= MAX_DP_QUEUE_SIZE { return false; }
      queue := queue + [dp];
      return true;
    }

    method SubmitDps(dps: seq<Submitted>) returns (ok: bool)
      modifies this`queue
      ensures Value() == AfterSubmit(old(Value()), dps)
      ensures ok <==> |old(queue)| + |dps| <= MAX_DP_QUEUE_SIZE
    {
      if |queue| + |dps| > MAX_DP_QUEUE_SIZE { return false; }
      ghost var before := queue;
      for i := 0 to |dps|
        invariant queue == before + dps[..i]
      {
        queue := queue + [dps[i]];
      }
      assert dps[..|dps|] == dps;
      return true;
    }

    /** Under work_mutex_. */
    method Snapshot()
      requires phase.Waiting?
      modifies this`phase
      ensures Value() == AfterSnapshot(old(Value()))
    {
      phase := Snapped(workId, sequenceNext);
    }

    /** Under dp_mutex_: at most 100 points leave the front of the queue, tagged from the snapshot. */
    method Drain()
      requires phase.Snapped?
      modifies this`phase, this`queue
      ensures Value() == AfterDrain(old(Value()))
    {
      var id, start := phase.workId, phase.start;
      var batch: seq<Tagged> := [];
      ghost var was := queue;
      while queue != [] && |batch| < BATCH
        invariant |batch| <= BATCH && |batch| + |queue| == |was|
        invariant queue == was[|batch|..] && batch == TagAll(id, start, was[..|batch|])
        decreases |queue|
      {
        var dp := queue[0];
        ghost var n := |batch|;
        batch := batch + [Tag(id, (start + |batch|) % SEQUENCES, dp)];
        queue := queue[1..];
        assert was[..n + 1] == was[..n] + [dp];
      }
      phase := Drained(id, start, batch);
    }

    /** Under work_mutex_: the counter moves on only if the work id is still the snapshot's. */
    method Advance()
      requires phase.Drained?
      modifies this`phase, this`sequenceNext
      ensures Value() == AfterAdvance(old(Value()))
    {
      if |phase.batch| != 0 {
        if workId == phase.workId {
          sequenceNext := (phase.start + |phase.batch|) % SEQUENCES;
        }
      }
      phase := Advanced(phase.batch);
    }

    /** The frame handed to the socket; a batch that cannot be sent is dropped. */
    method Send() returns (message: Option<Message>)
      requires phase.Advanced?
      modifies this`phase
      ensures Value() == old(Value()).(phase := Waiting)
      ensures message.Some? <==> old(phase).batch != [] && old(connected) && old(auth) == Authenticated
      ensures message == if Sends(old(Value())) then Some(Message(DP_BATCH_V2, Payload(old(phase).batch))) else None
    {
      message := None;
      if |phase.batch| != 0 && connected && auth == Authenticated {
        message := Some(Message(DP_BATCH_V2, Payload(phase.batch)));
      }
      phase := Waiting;
    }

    /** The receiver; fired is the assignment passed to the work callback, at most once in a row per id. */
    method HandleServerMessage(kind: Byte, payload: seq<Byte>) returns (fired: Option<Work>)
      modifies this`workId, this`workReceived, this`sequenceNext, this`auth, this`connected, this`lastFired
      ensures Value() == AfterMessage(old(Value()), kind, payload)
      ensures fired == match Taken(old(Value()), kind, payload)
                       case Some(w) => if w.workId == old(lastFired) then None else Some(w)
                       case None => None
    {
      fired := None;
      if auth != Authenticated && kind != AUTH_OK && kind != AUTH_FAIL && kind != MSG_ERROR {
        return;
      }
      if kind == WORK_ASN {
        var work := ParseWork(payload);
        if work.Some? {
          workId := work.value.workId;
          workReceived := true;
          sequenceNext := 0;
          if lastFired != workId {
            lastFired := workId;
            fired := work;
          }
        }
      } else if kind == AUTH_OK {
        auth := Authenticated;
      } else if kind == AUTH_FAIL {
        auth := AuthFailed;
        connected := false;
      } else if kind == MSG_ERROR {
        if auth == AuthSent { auth := AuthFailed; }
      }
    }
  }
  /** What the server packs, with anything behind it, an authenticated client takes, counting from 0 again, and calls
      back unless it did so last for the same id; any other client ignores it. */
  lemma TakesWork(s: State, w: Work, more: seq<Byte>)
    requires |w.publicKey| == 33
    ensures s.auth == Authenticated ==>
      && Taken(s, 0x11, PackWork(w) + more) == Some(w)
      && AfterMessage(s, 0x11, PackWork(w) + more)
           == s.(workId := w.workId, workReceived := true, sequenceNext := 0, lastFired := w.workId)
    ensures s.auth != Authenticated ==> AfterMessage(s, 0x11, PackWork(w) + more) == s
  {
    hide PackWork, Le, LeNumber;
    WorkRoundTrip(w);
    var p, q := PackWork(w), PackWork(w) + more;
    assert q[0..33] == p[0..33] && q[33..65] == p[33..65] && q[65..97] == p[65..97] && q[97..101] == p[97..101];
    assert q[101..109] == p[101..109];
  }

  /** The answers to an authentication and an error message; any other message leaves this state alone. */
  lemma OtherMessages(s: State, kind: Byte, payload: seq<Byte>)
    requires kind == 0x11 ==> |payload| < 109
    ensures AfterMessage(s, kind, payload)
      == if kind == 0x02 then s.(auth := Authenticated)
         else if kind == 0x03 then s.(auth := AuthFailed, connected := false)
         else if kind == 0xff && s.auth == AuthSent then s.(auth := AuthFailed)
         else s
  {}
}
