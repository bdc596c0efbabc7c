/** The work ids the server hands out and the ones a client takes. */
module PoolIds {
  import opened Limbs
  import opened Results
  import opened Wire
  import opened PoolServer
  import Server = PoolServerRun
  import Client = PoolClientRun
  import PoolClient

  predicate Increasing(ids: seq<nat>) {
    forall i, j :: 0 <= i < j < |ids| ==> ids[i] < ids[j]
  }

  // ---- The server ----

  /** The ids of the assignments that the steps of a run add. */
  function HandedOut(t: Tables, steps: seq<Server.Step>, verify: nat -> bool): seq<nat>
    decreases |steps|
  {
    if steps == [] then []
    else
      var u := Server.After(t, steps[0], verify);
      (if |u.assignments| > |t.assignments| then [u.assignments[|u.assignments| - 1].workId] else [])
      + HandedOut(u, steps[1..], verify)
  }

  lemma StepHandsOut(t: Tables, e: Server.Step, verify: nat -> bool)
    ensures var u := Server.After(t, e, verify);
            && t.nextWorkId <= u.nextWorkId
            && (|u.assignments| > |t.assignments| ==>
                  u.assignments[|u.assignments| - 1].workId == t.nextWorkId < u.nextWorkId)
  {}

  /** Ids only grow along a run, whatever happens in between. */
  lemma {:induction false} HandedOutIncreasing(t: Tables, steps: seq<Server.Step>, verify: nat -> bool)
    ensures Increasing(HandedOut(t, steps, verify))
    ensures forall i :: 0 <= i < |HandedOut(t, steps, verify)| ==> t.nextWorkId <= HandedOut(t, steps, verify)[i]
    decreases |steps|
  {
    if steps != [] {
      StepHandsOut(t, steps[0], verify);
      HandedOutIncreasing(Server.After(t, steps[0], verify), steps[1..], verify);
    }
  }

  // ---- The client ----

  /** The ids of the assignments that a client takes, in order. */
  function TakenIds(h: Client.History, steps: seq<Client.Step>): seq<nat>
    requires Client.Possible(h, steps)
    decreases |steps|
  {
    if steps == [] then []
    else TakenId(h, steps[0]) + TakenIds(Client.Record(h, steps[0]), steps[1..])
  }

  function TakenId(h: Client.History, e: Client.Step): seq<nat> {
    if e.Receive? && PoolClient.Taken(h.state, e.kind, e.payload).Some?
    then [PoolClient.Taken(h.state, e.kind, e.payload).value.workId]
    else []
  }

  lemma IssuedGrows(h: Client.History, e: Client.Step)
    requires Client.Enabled(h.state, e)
    ensures forall id: U64 :: id in Client.Record(h, e).issued <==> id in h.issued || id as nat in TakenId(h, e)
  {}

  /** If the ids a client takes are new to it and grow, no id comes twice. */
  lemma {:induction false} GrowingIdsFresh(h: Client.History, steps: seq<Client.Step>)
    requires Client.Possible(h, steps) && Increasing(TakenIds(h, steps))
    requires forall id: U64 :: id in h.issued ==> id as nat !in TakenIds(h, steps)
    ensures Client.NeverReissued(h, steps)
    decreases |steps|
  {
    hide Client.Record, PoolClient.Taken, Increasing;
    if steps != [] {
      var first, rest := TakenId(h, steps[0]), TakenIds(Client.Record(h, steps[0]), steps[1..]);
      assert TakenIds(h, steps) == first + rest;
      IssuedGrows(h, steps[0]);
      IncreasingParts(first, rest);
      GrowingIdsFresh(Client.Record(h, steps[0]), steps[1..]);
    }
  }

  lemma IncreasingParts(a: seq<nat>, b: seq<nat>)
    requires Increasing(a + b)
    ensures Increasing(b) && forall id :: id in a ==> id !in b
  {
    var all := a + b;
    assert forall i :: 0 <= i < |b| ==> b[i] == all[|a| + i];
    forall i, j | 0 <= i < |a| && 0 <= j < |b| ensures a[i] != b[j] {
      assert all[i] == a[i] && all[|a| + j] == b[j];
    }
  }

  // ---- Together ----

  /** The ids taken are some of the ids handed out, in the same order; at tells which. */
  predicate Received(taken: seq<nat>, handed: seq<nat>, at: seq<nat>) {
    && |at| == |taken| && Increasing(at)
    && forall i :: 0 <= i < |at| ==> at[i] < |handed| && taken[i] == handed[at[i]]
  }

  /** A client of this server whose first, arbitrary work id is not one it is later given never has an id twice,
      and so never sends a pair of work id and sequence number twice. */
  lemma ServerNeverReissues(t: Tables, server: seq<Server.Step>, verify: nat -> bool,
                            anyId: U64, client: seq<Client.Step>, at: seq<nat>)
    requires Client.Possible(Client.Start(anyId), client)
    requires Received(TakenIds(Client.Start(anyId), client), HandedOut(t, server, verify), at)
    requires anyId as nat !in TakenIds(Client.Start(anyId), client)
    ensures Client.NeverReissued(Client.Start(anyId), client)
  {
    HandedOutIncreasing(t, server, verify);
    hide HandedOut, TakenIds, Client.NeverReissued, Client.Possible;
    GrowingIdsFresh(Client.Start(anyId), client);
  }
}
