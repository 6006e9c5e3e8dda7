/**
 The WireGuard file beside the control plane. A rendering reads the table and writes the file later; only the
 syncs that follow admin actions and expiry ask for one. So a client that enforcement blocks stays in the
 file until a rendering has read its row.
 */
module TunnelProofs {

  import opened Basics
  import opened Clients
  import opened ControlPlane
  import opened EnforcementProofs
  import WireguardService

  /** The clients that the file lists, and the ones that a rendering under way is about to write. */
  datatype System = System(w: World, file: set<ClientId>, rendering: Option<set<ClientId>>)

  datatype Move =
    /** A step of the control plane, which leaves the file alone. */
    | Control(step: Step)
    | RenderReads(now: nat)
    | RenderWrites
    | RenderFails

  function ListedAt(table: Table, now: nat): set<ClientId> {
    set id | id in table && WireguardService.Rendered(table[id].client, now)
  }

  ghost predicate Moves(s: System, move: Move, s': System) {
    match move
    case Control(step) => Next(s.w, step, s'.w) && s' == s.(w := s'.w)
    case RenderReads(now) => s.rendering.None? && s' == s.(rendering := Some(ListedAt(s.w.table, now)))
    case RenderWrites => s.rendering.Some? && s' == s.(file := s.rendering.value, rendering := None)
    case RenderFails => s.rendering.Some? && s' == s.(rendering := None)
  }

  ghost predicate Course(states: seq<System>, moves: seq<Move>) {
    && |states| == |moves| + 1
    && forall i :: 0 <= i < |moves| ==> Moves(states[i], moves[i], states[i + 1])
  }

  /** Some rendering has read the table. */
  predicate HasRead(moves: seq<Move>) {
    moves != [] && (moves[|moves| - 1].RenderReads? || HasRead(moves[..|moves| - 1]))
  }

  /** Some rendering has read the table and the file was written after that. */
  predicate HasRendered(moves: seq<Move>) {
    moves != [] && (HasRendered(moves[..|moves| - 1]) || (moves[|moves| - 1].RenderWrites? && HasRead(moves[..|moves| - 1])))
  }

  predicate WithoutAdmin(move: Move, id: ClientId) {
    move.Control? ==> !ActsOn(move.step, id)
  }

  /** A client in force that the file lists, or not any more; a rendering that reads it then leaves it out. */
  ghost predicate Followed(s: System, id: ClientId, moves: seq<Move>) {
    && InForce(s.w, id) && Calm(s.w, id, s.w.table[id].client.emailTag)
    && (id in s.file <==> !HasRendered(moves))
    && (s.rendering.Some? ==> (id in s.rendering.value <==> !HasRead(moves)))
  }

  lemma {:induction false} RenderedHasRead(moves: seq<Move>)
    ensures HasRendered(moves) ==> HasRead(moves)
  {
    if moves != [] {
      RenderedHasRead(moves[..|moves| - 1]);
    }
  }

  lemma NotListed(w: World, id: ClientId, now: nat)
    requires InForce(w, id)
    ensures id !in ListedAt(w.table, now)
  {
  }

  lemma MoveFollows(s: System, move: Move, s': System, id: ClientId, before: seq<Move>)
    requires Moves(s, move, s') && Followed(s, id, before) && WithoutAdmin(move, id)
    ensures Followed(s', id, before + [move])
  {
    var moves := before + [move];
    assert moves[..|moves| - 1] == before;
    RenderedHasRead(before);
    match move
    case Control(step) => StepStaysInForce(s.w, step, s'.w, id);
    case RenderReads(now) => NotListed(s.w, id, now);
    case _ =>
  }

  /** A client that is blocked, cut off from Xray and still listed leaves the file exactly when a rendering that reads
      the table from now on is written: over every course in which no admin acts on it, whatever else happens. */
  lemma {:induction false} BlockedLeavesFileExactly(states: seq<System>, moves: seq<Move>, id: ClientId)
    requires Course(states, moves) && InForce(states[0].w, id) && Calm(states[0].w, id, states[0].w.table[id].client.emailTag)
    requires id in states[0].file && (states[0].rendering.Some? ==> id in states[0].rendering.value)
    requires forall i :: 0 <= i < |moves| ==> WithoutAdmin(moves[i], id)
    ensures Followed(states[|moves|], id, moves)
    ensures id in states[|moves|].file <==> !HasRendered(moves)
  {
    if moves != [] {
      var n := |moves| - 1;
      BlockedLeavesFileExactly(states[..n + 1], moves[..n], id);
      MoveFollows(states[n], moves[n], states[n + 1], id, moves[..n]);
      assert moves[..n] + [moves[n]] == moves;
    }
  }
}
