/**
 The row-level-security context of pooled database sessions.

 The settings are transaction-local configuration values of a connection that
 many Sessions take turns to use. The protocol is modelled at the grain of one
 statement, so the writes of one Session interleave freely with every other
 Session's steps.
 */
module RlsSession {
  import opened Common

  type SessionId = nat
  type ConnectionId = nat

  datatype Setting =
    | CurrentUserId | CurrentRole | CurrentClientId
    | PublicFormId | PublicResponseId | PublicIdempotencyKey
    | PublicWasteToken | PublicDocumentTokenHash | DocumentEventId

  datatype Write = Write(name: Setting, value: string)

  /** Absent: never defined on this connection. "": what PostgreSQL leaves behind
      when a transaction-local value of a custom setting is undone. */
  type Settings = map<Setting, string>

  datatype Context = Context(userId: string, role: string, clientId: string)

  predicate IsContextSetting(k: Setting) {
    k.CurrentUserId? || k.CurrentRole? || k.CurrentClientId?
  }

  function ContextWrites(c: Context): seq<Write> {
    [Write(CurrentUserId, c.userId), Write(CurrentRole, c.role), Write(CurrentClientId, c.clientId)]
  }

  function SetConfig(settings: Settings, w: Write): Settings {
    settings[w.name := w.value]
  }

  function SetAll(settings: Settings, ws: seq<Write>): Settings
    decreases |ws|
  {
    if ws == [] then settings else SetAll(SetConfig(settings, ws[0]), ws[1..])
  }

  function EndTransaction(settings: Settings): Settings {
    map k | k in settings :: ""
  }

  function NullIfEmpty(v: string): Option<string> {
    if v == "" then None else Some(v)
  }

  /** nullif(current_setting(k, true), '') */
  function Read(settings: Settings, k: Setting): Option<string> {
    if k in settings then NullIfEmpty(settings[k]) else None
  }

  /** `pending`: the set_config statements of the current call not yet executed. */
  datatype Transaction = Transaction(connection: ConnectionId, pending: seq<Write>, aborted: bool)

  datatype Pool = Pool(
    info: map<SessionId, Context>,
    open: map<SessionId, Transaction>,
    settings: map<ConnectionId, Settings>)

  const EMPTY_POOL := Pool(map[], map[], map[])

  datatype Op =
    | Begin(s: SessionId, on: ConnectionId)
    | SetContext(s: SessionId, context: Context, on: ConnectionId)
    | SetLocal(s: SessionId, writes: seq<Write>, on: ConnectionId)
    | Apply(s: SessionId)
    | Fail(s: SessionId)
    | Commit(s: SessionId)
    | Rollback(s: SessionId)
    | Close(s: SessionId)
    | Clear(s: SessionId, isActive: bool)
    | Discard(idle: ConnectionId)

  function SettingsOf(p: Pool, c: ConnectionId): Settings {
    if c in p.settings then p.settings[c] else map[]
  }

  predicate InUse(p: Pool, c: ConnectionId) {
    exists s :: s in p.open && p.open[s].connection == c
  }

  /** Session s can run a statement: its transaction is healthy and no call of its own is half done. */
  predicate Ready(p: Pool, s: SessionId) {
    s in p.open && p.open[s].pending == [] && !p.open[s].aborted
  }

  /** A Session is used by one thread, so its next call starts after the last one ended. */
  predicate Enabled(p: Pool, op: Op) {
    match op
    case Begin(s, c) => s !in p.open && !InUse(p, c)
    case SetContext(s, _, c) => if s in p.open then p.open[s].pending == [] else !InUse(p, c)
    case SetLocal(s, ws, c) =>
      && (forall w :: w in ws ==> !IsContextSetting(w.name))
      && (if s in p.open then p.open[s].pending == [] else !InUse(p, c))
    case Apply(s) => s in p.open && p.open[s].pending != []
    case Fail(s) => s in p.open
    case Commit(s) => s in p.open ==> p.open[s].pending == []
    case Rollback(s) => s in p.open ==> p.open[s].pending == []
    case Close(s) => s in p.open ==> p.open[s].pending == []
    case Clear(s, isActive) =>
      && (s in p.open ==> p.open[s].pending == [])
      && (!isActive ==> s in p.open && p.open[s].aborted)
    case Discard(c) => !InUse(p, c)
  }

  /** Takes connection c from the pool for s; the after_begin listener queues the stored context. */
  function BeginOn(p: Pool, s: SessionId, c: ConnectionId): Pool {
    if s in p.open then p
    else p.(open := p.open[s := Transaction(c, if s in p.info then ContextWrites(p.info[s]) else [], false)])
  }

  function Queue(p: Pool, s: SessionId, ws: seq<Write>): Pool
    requires s in p.open
  {
    var t := p.open[s];
    if t.aborted then p else p.(open := p.open[s := t.(pending := t.pending + ws)])
  }

  /** The transaction of s, if any, ends: local values are undone and the connection goes back. */
  function Release(p: Pool, s: SessionId): Pool {
    if s !in p.open then p
    else
      var c := p.open[s].connection;
      p.(open := p.open - {s}, settings := p.settings[c := EndTransaction(SettingsOf(p, c))])
  }

  function Step(p: Pool, op: Op): Pool
    requires Enabled(p, op)
  {
    match op
    case Begin(s, c) => BeginOn(p, s, c)
    case SetContext(s, ctx, c) => Queue(BeginOn(p.(info := p.info[s := ctx]), s, c), s, ContextWrites(ctx))
    case SetLocal(s, ws, c) => Queue(BeginOn(p, s, c), s, ws)
    case Apply(s) =>
      var t := p.open[s];
      p.(open := p.open[s := t.(pending := t.pending[1..])],
         settings := p.settings[t.connection := SetConfig(SettingsOf(p, t.connection), t.pending[0])])
    case Fail(s) => p.(open := p.open[s := p.open[s].(pending := [], aborted := true)])
    case Commit(s) => Release(p, s)
    case Rollback(s) => Release(p, s)
    case Close(s) => Release(p, s)
    case Clear(s, isActive) =>
      var q := if isActive then Release(p, s) else p;
      q.(info := q.info - {s})
    case Discard(c) => p.(settings := p.settings - {c})
  }

  predicate Legal(ops: seq<Op>)
    decreases |ops|, 0
  {
    ops == [] || (var n := |ops| - 1; Legal(ops[..n]) && Enabled(Run(ops[..n]), ops[n]))
  }

  function Run(ops: seq<Op>): Pool
    requires Legal(ops)
    decreases |ops|, 1
  {
    if ops == [] then EMPTY_POOL else Step(Run(ops[..|ops| - 1]), ops[|ops| - 1])
  }

  // ---------------------------------------------------------------------
  // The reference: what a Session should see, read off its own calls alone.
  // ---------------------------------------------------------------------

  /** The context s set last and has not cleared since. */
  function OwnContext(ops: seq<Op>, s: SessionId): Option<Context> {
    if ops == [] then None
    else
      var op := ops[|ops| - 1];
      if op.SetContext? && op.s == s then Some(op.context)
      else if op.Clear? && op.s == s then None
      else OwnContext(ops[..|ops| - 1], s)
  }

  function LastWrite(ws: seq<Write>, k: Setting): Option<string> {
    if ws == [] then None
    else if ws[|ws| - 1].name == k then Some(ws[|ws| - 1].value)
    else LastWrite(ws[..|ws| - 1], k)
  }

  /** The value s gave k last since its current transaction began. */
  function OwnLocal(ops: seq<Op>, s: SessionId, k: Setting): Option<string> {
    if ops == [] then None
    else
      var op, rest := ops[|ops| - 1], ops[..|ops| - 1];
      if op.SetLocal? && op.s == s && LastWrite(op.writes, k).Some? then LastWrite(op.writes, k)
      else if (op.Commit? || op.Rollback? || op.Close? || (op.Clear? && op.isActive)) && op.s == s then None
      else OwnLocal(rest, s, k)
  }

  function ContextValue(c: Context, k: Setting): string
    requires IsContextSetting(k)
  {
    match k
    case CurrentUserId => c.userId
    case CurrentRole => c.role
    case CurrentClientId => c.clientId
  }

  function Expected(ops: seq<Op>, s: SessionId, k: Setting): Option<string> {
    if IsContextSetting(k) then
      match OwnContext(ops, s)
      case Some(c) => NullIfEmpty(ContextValue(c, k))
      case None => None
    else
      match OwnLocal(ops, s, k)
      case Some(v) => NullIfEmpty(v)
      case None => None
  }

  // ---------------------------------------------------------------------
  // The invariant of every interleaving.
  // ---------------------------------------------------------------------

  predicate Blank(settings: Settings) {
    forall k :: k in settings ==> settings[k] == ""
  }

  ghost predicate ConnectionsApart(p: Pool) {
    && (forall s, t :: s in p.open && t in p.open && p.open[s].connection == p.open[t].connection ==> s == t)
    && (forall c :: !InUse(p, c) ==> Blank(SettingsOf(p, c)))
  }

  /** Once the pending writes of s are through, each setting reads as its own calls say. */
  ghost predicate SessionAgrees(ops: seq<Op>, p: Pool, s: SessionId) {
    && (if s in p.info then OwnContext(ops, s) == Some(p.info[s]) else OwnContext(ops, s) == None)
    && (s !in p.open ==> forall k :: OwnLocal(ops, s, k) == None)
    && (s in p.open && !p.open[s].aborted ==>
          forall k :: Read(SetAll(SettingsOf(p, p.open[s].connection), p.open[s].pending), k) == Expected(ops, s, k))
  }

  ghost predicate Invariant(ops: seq<Op>, p: Pool) {
    ConnectionsApart(p) && forall s :: SessionAgrees(ops, p, s)
  }

  lemma {:induction false} LastWriteConcat(a: seq<Write>, b: seq<Write>, k: Setting)
    ensures LastWrite(a + b, k) == if LastWrite(b, k).Some? then LastWrite(b, k) else LastWrite(a, k)
  {
    if b == [] {
      assert a + b == a;
    } else {
      assert (a + b)[..|a + b| - 1] == a + b[..|b| - 1];
      LastWriteConcat(a, b[..|b| - 1], k);
    }
  }

  lemma {:induction false} ReadAfterSetAll(settings: Settings, ws: seq<Write>, k: Setting)
    ensures Read(SetAll(settings, ws), k) ==
            match LastWrite(ws, k) case Some(v) => NullIfEmpty(v) case None => Read(settings, k)
    decreases |ws|
  {
    if ws != [] {
      ReadAfterSetAll(SetConfig(settings, ws[0]), ws[1..], k);
      assert ws == [ws[0]] + ws[1..];
      LastWriteConcat([ws[0]], ws[1..], k);
    }
  }

  lemma LastContextWrite(c: Context, k: Setting)
    ensures LastWrite(ContextWrites(c), k) == if IsContextSetting(k) then Some(ContextValue(c, k)) else None
  {
    var user, role, client := ContextWrites(c)[0], ContextWrites(c)[1], ContextWrites(c)[2];
    assert ContextWrites(c)[..2] == [user, role];
    assert [user, role][..1] == [user];
    assert LastWrite([user], k) == if user.name == k then Some(user.value) else None;
    assert LastWrite([user, role], k) == if role.name == k then Some(role.value) else LastWrite([user], k);
  }

  /** What the settings of an open transaction will read once its pending writes and `ws` are through. */
  lemma ReadWithMore(settings: Settings, pending: seq<Write>, ws: seq<Write>, k: Setting)
    ensures Read(SetAll(settings, pending + ws), k) ==
            match LastWrite(ws, k) case Some(v) => NullIfEmpty(v) case None => Read(SetAll(settings, pending), k)
  {
    ReadAfterSetAll(settings, pending + ws, k);
    ReadAfterSetAll(settings, pending, k);
    LastWriteConcat(pending, ws, k);
  }

  lemma BeginAgrees(ops: seq<Op>, p: Pool, s: SessionId, c: ConnectionId)
    requires Invariant(ops, p) && (s !in p.open ==> !InUse(p, c))
    ensures Invariant(ops, BeginOn(p, s, c))
  {
    if s !in p.open {
      var q := BeginOn(p, s, c);
      assert SessionAgrees(ops, p, s);
      forall d | !InUse(q, d) ensures Blank(SettingsOf(q, d)) {
        assert forall t :: t in p.open ==> t in q.open && q.open[t] == p.open[t];
        assert !InUse(p, d);
      }
      forall t ensures SessionAgrees(ops, q, t) {
        assert SessionAgrees(ops, p, t);
        if t == s {
          forall k ensures Read(SetAll(SettingsOf(q, c), q.open[s].pending), k) == Expected(ops, s, k) {
            ReadAfterSetAll(SettingsOf(q, c), q.open[s].pending, k);
            if s in p.info { LastContextWrite(p.info[s], k); }
            assert Blank(SettingsOf(p, c));
          }
        }
      }
    }
  }

  /** A step that leaves t's own state alone is invisible to t. */
  lemma OthersUnaffected(ops: seq<Op>, op: Op, p: Pool, q: Pool, t: SessionId)
    requires SessionAgrees(ops, p, t)
    requires op.Discard? || op.s != t
    requires t in p.info <==> t in q.info
    requires t in p.info ==> q.info[t] == p.info[t]
    requires t in p.open <==> t in q.open
    requires t in p.open ==> q.open[t] == p.open[t]
    requires t in p.open ==> SettingsOf(q, p.open[t].connection) == SettingsOf(p, p.open[t].connection)
    ensures SessionAgrees(ops + [op], q, t)
  {
  }

  lemma ReleaseKeeps(ops: seq<Op>, op: Op, p: Pool)
    requires Invariant(ops, p)
    requires op.Commit? || op.Rollback? || op.Close? || (op.Clear? && op.isActive)
    requires Enabled(p, op)
    ensures Invariant(ops + [op], Step(p, op))
  {
    var s, q := op.s, Step(p, op);
    assert (ops + [op])[..|ops|] == ops;
    forall d | !InUse(q, d) ensures Blank(SettingsOf(q, d)) {
      if s !in p.open || d != p.open[s].connection {
        forall t | t in p.open ensures p.open[t].connection != d {
          if t != s { assert t in q.open; }
        }
        assert !InUse(p, d);
      }
    }
    forall t ensures SessionAgrees(ops + [op], q, t) {
      assert SessionAgrees(ops, p, t);
      if t != s { OthersUnaffected(ops, op, p, q, t); }
    }
  }

  lemma SetLocalReads(ops: seq<Op>, op: Op, b: Pool, k: Setting)
    requires op.SetLocal? && op.s in b.open && !b.open[op.s].aborted && SessionAgrees(ops, b, op.s)
    requires forall w :: w in op.writes ==> !IsContextSetting(w.name)
    ensures var t := b.open[op.s];
            Read(SetAll(SettingsOf(b, t.connection), t.pending + op.writes), k) == Expected(ops + [op], op.s, k)
  {
    var s, t := op.s, b.open[op.s];
    assert (ops + [op])[..|ops|] == ops;
    assert Read(SetAll(SettingsOf(b, t.connection), t.pending), k) == Expected(ops, s, k);
    ReadWithMore(SettingsOf(b, t.connection), t.pending, op.writes, k);
    LastIsWritten(op.writes, k);
    if !IsContextSetting(k) && LastWrite(op.writes, k).None? {
      assert OwnLocal(ops + [op], s, k) == OwnLocal(ops, s, k);
    }
  }

  lemma SetLocalKeeps(ops: seq<Op>, op: Op, p: Pool)
    requires Invariant(ops, p) && Enabled(p, op) && op.SetLocal?
    ensures Invariant(ops + [op], Step(p, op))
  {
    var s, b, q := op.s, BeginOn(p, op.s, op.on), Step(p, op);
    BeginAgrees(ops, p, s, op.on);
    SameConnections(b, q);
    forall t ensures SessionAgrees(ops + [op], q, t) {
      assert SessionAgrees(ops, b, t);
      if t != s { OthersUnaffected(ops, op, b, q, t); } else { SetLocalAgrees(ops, op, b); }
    }
  }

  lemma SetLocalAgrees(ops: seq<Op>, op: Op, b: Pool)
    requires op.SetLocal? && op.s in b.open && SessionAgrees(ops, b, op.s)
    requires forall w :: w in op.writes ==> !IsContextSetting(w.name)
    ensures SessionAgrees(ops + [op], Queue(b, op.s, op.writes), op.s)
  {
    assert (ops + [op])[..|ops|] == ops;
    if !b.open[op.s].aborted {
      forall k ensures Read(SetAll(SettingsOf(b, b.open[op.s].connection), b.open[op.s].pending + op.writes), k)
                    == Expected(ops + [op], op.s, k)
      {
        SetLocalReads(ops, op, b, k);
      }
    }
  }

  lemma SetContextReads(ops: seq<Op>, op: Op, p: Pool, k: Setting)
    requires Invariant(ops, p) && Enabled(p, op) && op.SetContext?
    requires op.s in p.open ==> !p.open[op.s].aborted
    ensures var t := Step(p, op).open[op.s];
            Read(SetAll(SettingsOf(p, t.connection), t.pending), k) == Expected(ops + [op], op.s, k)
  {
    var s, ws, t := op.s, ContextWrites(op.context), Step(p, op).open[op.s];
    var settings := SettingsOf(p, t.connection);
    var pending := if s in p.open then p.open[s].pending else ws;
    assert t.pending == pending + ws;
    ReadWithMore(settings, pending, ws, k);
    LastContextWrite(op.context, k);
    assert (ops + [op])[..|ops|] == ops;
    assert SessionAgrees(ops, p, s);
    if !IsContextSetting(k) {
      assert OwnLocal(ops + [op], s, k) == OwnLocal(ops, s, k);
      if s in p.open {
        assert Read(SetAll(settings, pending), k) == Expected(ops, s, k);
      } else {
        ReadAfterSetAll(settings, pending, k);
        assert Blank(settings);
      }
    }
  }

  lemma SetContextAgrees(ops: seq<Op>, op: Op, p: Pool)
    requires Invariant(ops, p) && Enabled(p, op) && op.SetContext?
    ensures SessionAgrees(ops + [op], Step(p, op), op.s)
  {
    var q := Step(p, op);
    assert (ops + [op])[..|ops|] == ops;
    if !q.open[op.s].aborted {
      forall k ensures Read(SetAll(SettingsOf(q, q.open[op.s].connection), q.open[op.s].pending), k) == Expected(ops + [op], op.s, k) {
        SetContextReads(ops, op, p, k);
      }
    }
  }

  lemma SetContextApart(ops: seq<Op>, op: Op, p: Pool)
    requires Invariant(ops, p) && Enabled(p, op) && op.SetContext?
    ensures ConnectionsApart(Step(p, op))
  {
    BeginAgrees(ops, p, op.s, op.on);
    SameConnections(BeginOn(p, op.s, op.on), Step(p, op));
  }

  lemma SetContextKeeps(ops: seq<Op>, op: Op, p: Pool)
    requires Invariant(ops, p) && Enabled(p, op) && op.SetContext?
    ensures Invariant(ops + [op], Step(p, op))
  {
    var s, q := op.s, Step(p, op);
    SetContextApart(ops, op, p);
    forall t ensures SessionAgrees(ops + [op], q, t) {
      if t == s {
        SetContextAgrees(ops, op, p);
      } else {
        assert SessionAgrees(ops, p, t);
        OthersUnaffected(ops, op, p, q, t);
      }
    }
  }

  /** Only the pending writes of a session differ: the same connections are in use. */
  lemma SameConnections(p: Pool, q: Pool)
    requires ConnectionsApart(p)
    requires p.open.Keys == q.open.Keys
    requires forall t :: t in p.open ==> q.open[t].connection == p.open[t].connection
    requires forall c :: !InUse(p, c) ==> SettingsOf(q, c) == SettingsOf(p, c)
    ensures ConnectionsApart(q)
  {
  }

  lemma {:induction false} LastIsWritten(ws: seq<Write>, k: Setting)
    ensures LastWrite(ws, k).Some? ==> exists w :: w in ws && w.name == k
  {
    if ws != [] {
      if ws[|ws| - 1].name != k { LastIsWritten(ws[..|ws| - 1], k); }
      else { assert ws[|ws| - 1] in ws; }
    }
  }

  lemma ApplyKeeps(ops: seq<Op>, op: Op, p: Pool)
    requires Invariant(ops, p) && Enabled(p, op) && op.Apply?
    ensures Invariant(ops + [op], Step(p, op))
  {
    var s, q := op.s, Step(p, op);
    var c := p.open[s].connection;
    SameConnections(p, q);
    forall t ensures SessionAgrees(ops + [op], q, t) {
      assert SessionAgrees(ops, p, t);
      if t == s { SameExpectations(ops, op, t); } else { OthersUnaffected(ops, op, p, q, t); }
    }
  }

  lemma FailKeeps(ops: seq<Op>, op: Op, p: Pool)
    requires Invariant(ops, p) && Enabled(p, op) && op.Fail?
    ensures Invariant(ops + [op], Step(p, op))
  {
    var q := Step(p, op);
    SameConnections(p, q);
    forall t ensures SessionAgrees(ops + [op], q, t) {
      assert SessionAgrees(ops, p, t);
      if t == op.s { SameExpectations(ops, op, t); } else { OthersUnaffected(ops, op, p, q, t); }
    }
  }

  lemma ClearInactiveKeeps(ops: seq<Op>, op: Op, p: Pool)
    requires Invariant(ops, p) && Enabled(p, op) && op.Clear? && !op.isActive
    ensures Invariant(ops + [op], Step(p, op))
  {
    var q := Step(p, op);
    SameConnections(p, q);
    assert (ops + [op])[..|ops|] == ops;
    forall t ensures SessionAgrees(ops + [op], q, t) {
      assert SessionAgrees(ops, p, t);
      if t != op.s { OthersUnaffected(ops, op, p, q, t); }
    }
  }

  lemma DiscardKeeps(ops: seq<Op>, op: Op, p: Pool)
    requires Invariant(ops, p) && Enabled(p, op) && op.Discard?
    ensures Invariant(ops + [op], Step(p, op))
  {
    var q := Step(p, op);
    assert forall d :: InUse(q, d) <==> InUse(p, d);
    forall d | !InUse(q, d) ensures Blank(SettingsOf(q, d)) {
      assert Blank(SettingsOf(p, d));
    }
    forall t ensures SessionAgrees(ops + [op], q, t) {
      assert SessionAgrees(ops, p, t);
      OthersUnaffected(ops, op, p, q, t);
    }
  }

  lemma StepKeepsInvariant(ops: seq<Op>, op: Op, p: Pool)
    requires Invariant(ops, p) && Enabled(p, op)
    ensures Invariant(ops + [op], Step(p, op))
  {
    match op {
      case Begin(s, c) =>
        BeginAgrees(ops, p, s, c);
        forall t ensures SessionAgrees(ops + [op], Step(p, op), t) {
          assert SessionAgrees(ops, Step(p, op), t);
          SameExpectations(ops, op, t);
        }
      case SetContext(_, _, _) => SetContextKeeps(ops, op, p);
      case SetLocal(_, _, _) => SetLocalKeeps(ops, op, p);
      case Apply(_) => ApplyKeeps(ops, op, p);
      case Fail(_) => FailKeeps(ops, op, p);
      case Clear(_, isActive) => if isActive { ReleaseKeeps(ops, op, p); } else { ClearInactiveKeeps(ops, op, p); }
      case Discard(_) => DiscardKeeps(ops, op, p);
      case _ => ReleaseKeeps(ops, op, p);
    }
  }

  /** Steps that are no call of the protocol's functions leave every expectation as it was. */
  lemma SameExpectations(ops: seq<Op>, op: Op, s: SessionId)
    requires op.Begin? || op.Apply? || op.Fail?
    ensures OwnContext(ops + [op], s) == OwnContext(ops, s)
    ensures forall k :: OwnLocal(ops + [op], s, k) == OwnLocal(ops, s, k)
    ensures forall k :: Expected(ops + [op], s, k) == Expected(ops, s, k)
  {
  }

  lemma {:induction false} InvariantHolds(ops: seq<Op>)
    requires Legal(ops)
    ensures Invariant(ops, Run(ops))
    decreases |ops|
  {
    if ops != [] {
      var n := |ops| - 1;
      InvariantHolds(ops[..n]);
      StepKeepsInvariant(ops[..n], ops[n], Run(ops[..n]));
      assert ops[..n] + [ops[n]] == ops;
    }
  }

  // ---------------------------------------------------------------------
  // What every run guarantees.
  // ---------------------------------------------------------------------

  /** In every interleaving, a statement of s reads each setting as the calls of s alone say. */
  lemma StatementsSeeTheirOwnSession(ops: seq<Op>, s: SessionId, k: Setting)
    requires Legal(ops) && Ready(Run(ops), s)
    ensures Read(SettingsOf(Run(ops), Run(ops).open[s].connection), k) == Expected(ops, s, k)
  {
    InvariantHolds(ops);
    assert SessionAgrees(ops, Run(ops), s);
  }

  function OwnOps(ops: seq<Op>, s: SessionId): seq<Op> {
    if ops == [] then []
    else
      var op := ops[|ops| - 1];
      OwnOps(ops[..|ops| - 1], s) + if !op.Discard? && op.s == s then [op] else []
  }

  /** Steps of other sessions and of the pool leave no trace in a session's own steps; its own are all kept, in order. */
  lemma OthersLeaveNoTrace(ops: seq<Op>, op: Op, s: SessionId)
    ensures op.Discard? || op.s != s ==> OwnOps(ops + [op], s) == OwnOps(ops, s)
    ensures !op.Discard? && op.s == s ==> OwnOps(ops + [op], s) == OwnOps(ops, s) + [op]
  {
    assert (ops + [op])[..|ops|] == ops;
  }

  /** A discarded connection starts anew, and no other changes. */
  lemma DiscardedIsNew(p: Pool, idle: ConnectionId, c: ConnectionId)
    requires Enabled(p, Discard(idle))
    ensures var q := Step(p, Discard(idle));
            idle !in q.settings && q.info == p.info && q.open == p.open && (c != idle ==> SettingsOf(q, c) == SettingsOf(p, c))
  {
  }

  lemma {:induction false} ExpectedIsOwn(ops: seq<Op>, s: SessionId, k: Setting)
    ensures OwnContext(OwnOps(ops, s), s) == OwnContext(ops, s)
    ensures OwnLocal(OwnOps(ops, s), s, k) == OwnLocal(ops, s, k)
    ensures Expected(OwnOps(ops, s), s, k) == Expected(ops, s, k)
  {
    if ops != [] {
      var n := |ops| - 1;
      var mine := OwnOps(ops[..n], s);
      ExpectedIsOwn(ops[..n], s, k);
      assert (mine + [ops[n]])[..|mine|] == mine;
      assert OwnOps(ops, s) == mine || OwnOps(ops, s) == mine + [ops[n]];
    }
  }

  /** Isolation: whatever the other sessions and the pool do, s reads the same values. */
  lemma SessionsAreIsolated(ops: seq<Op>, ops': seq<Op>, s: SessionId, k: Setting)
    requires Legal(ops) && Ready(Run(ops), s)
    requires Legal(ops') && Ready(Run(ops'), s)
    requires OwnOps(ops, s) == OwnOps(ops', s)
    ensures Read(SettingsOf(Run(ops), Run(ops).open[s].connection), k)
         == Read(SettingsOf(Run(ops'), Run(ops').open[s].connection), k)
  {
    StatementsSeeTheirOwnSession(ops, s, k);
    StatementsSeeTheirOwnSession(ops', s, k);
    ExpectedIsOwn(ops, s, k);
    ExpectedIsOwn(ops', s, k);
  }

  lemma {:induction false} OwnContextSince(ops: seq<Op>, s: SessionId, from: nat)
    requires from <= |ops|
    requires forall i :: from <= i < |ops| ==> (ops[i].SetContext? || ops[i].Clear?) ==> ops[i].s != s
    ensures OwnContext(ops, s) == OwnContext(ops[..from], s)
    decreases |ops|
  {
    if from == |ops| {
      assert ops[..from] == ops;
    } else {
      OwnContextSince(ops[..|ops| - 1], s, from);
      assert ops[..|ops| - 1][..from] == ops[..from];
    }
  }

  lemma {:induction false} OwnLocalSince(ops: seq<Op>, s: SessionId, k: Setting, from: nat)
    requires from <= |ops|
    requires forall i :: from <= i < |ops| && ops[i].SetLocal? ==> ops[i].s != s
    requires OwnLocal(ops[..from], s, k) == None
    ensures OwnLocal(ops, s, k) == None
    decreases |ops|
  {
    if from == |ops| {
      assert ops[..from] == ops;
    } else {
      assert ops[..|ops| - 1][..from] == ops[..from];
      OwnLocalSince(ops[..|ops| - 1], s, k, from);
    }
  }

  /** set_rls_context holds for every later statement of s, through commits, rollbacks,
      connection changes and failures, until s sets another context or clears it. */
  lemma ContextOutlivesTransactions(ops: seq<Op>, s: SessionId, at: nat, k: Setting)
    requires Legal(ops) && Ready(Run(ops), s)
    requires at < |ops| && ops[at].SetContext? && ops[at].s == s
    requires forall i :: at < i < |ops| ==> (ops[i].SetContext? || ops[i].Clear?) ==> ops[i].s != s
    requires IsContextSetting(k)
    ensures Read(SettingsOf(Run(ops), Run(ops).open[s].connection), k) == NullIfEmpty(ContextValue(ops[at].context, k))
  {
    StatementsSeeTheirOwnSession(ops, s, k);
    OwnContextSince(ops, s, at + 1);
  }

  /** A session that never set a context, or cleared each one it set, reads none,
      whoever used its connection before. */
  lemma NoContextWithoutSetting(ops: seq<Op>, s: SessionId, k: Setting)
    requires Legal(ops) && Ready(Run(ops), s)
    requires forall i :: 0 <= i < |ops| && ops[i].SetContext? && ops[i].s == s ==>
               exists j :: i < j < |ops| && ops[j].Clear? && ops[j].s == s
    requires IsContextSetting(k)
    ensures Read(SettingsOf(Run(ops), Run(ops).open[s].connection), k) == None
  {
    StatementsSeeTheirOwnSession(ops, s, k);
    ClearedContext(ops, s);
  }

  lemma {:induction false} ClearedContext(ops: seq<Op>, s: SessionId)
    requires forall i :: 0 <= i < |ops| && ops[i].SetContext? && ops[i].s == s ==>
               exists j :: i < j < |ops| && ops[j].Clear? && ops[j].s == s
    ensures OwnContext(ops, s) == None
    decreases |ops|
  {
    if ops != [] {
      var n := |ops| - 1;
      if !(ops[n].Clear? && ops[n].s == s) {
        assert !(ops[n].SetContext? && ops[n].s == s);
        forall i | 0 <= i < n && ops[..n][i].SetContext? && ops[..n][i].s == s
          ensures exists j :: i < j < n && ops[..n][j].Clear? && ops[..n][j].s == s
        {
          var j :| i < j < |ops| && ops[j].Clear? && ops[j].s == s;
          assert ops[..n][j] == ops[j];
        }
        ClearedContext(ops[..n], s);
      }
    }
  }

  predicate Ends(op: Op, s: SessionId) {
    (op.Commit? || op.Rollback? || op.Close? || (op.Clear? && op.isActive)) && op.s == s
  }

  /** A public-form (or other capability) value does not survive its transaction. */
  lemma LocalValuesDieWithTheTransaction(ops: seq<Op>, s: SessionId, end: nat, k: Setting)
    requires Legal(ops) && Ready(Run(ops), s)
    requires end < |ops| && Ends(ops[end], s)
    requires forall i :: end < i < |ops| && ops[i].SetLocal? ==> ops[i].s != s
    requires !IsContextSetting(k)
    ensures Read(SettingsOf(Run(ops), Run(ops).open[s].connection), k) == None
  {
    StatementsSeeTheirOwnSession(ops, s, k);
    assert ops[..end + 1][..end] == ops[..end];
    OwnLocalSince(ops, s, k, end + 1);
  }

  /** ... and lasts until it: no other call of s or of anyone else undoes it before. */
  lemma {:induction false} LocalValuesLast(ops: seq<Op>, s: SessionId, at: nat, k: Setting)
    requires Legal(ops) && Ready(Run(ops), s)
    requires at < |ops| && ops[at].SetLocal? && ops[at].s == s && LastWrite(ops[at].writes, k).Some?
    requires forall i :: at < i < |ops| ==>
               !Ends(ops[i], s) && (ops[i].SetLocal? && ops[i].s == s ==> LastWrite(ops[i].writes, k).None?)
    requires !IsContextSetting(k)
    ensures Read(SettingsOf(Run(ops), Run(ops).open[s].connection), k)
         == NullIfEmpty(LastWrite(ops[at].writes, k).value)
  {
    StatementsSeeTheirOwnSession(ops, s, k);
    OwnLocalKept(ops, s, at, k);
  }

  lemma {:induction false} OwnLocalKept(ops: seq<Op>, s: SessionId, at: nat, k: Setting)
    requires at < |ops| && ops[at].SetLocal? && ops[at].s == s && LastWrite(ops[at].writes, k).Some?
    requires forall i :: at < i < |ops| ==>
               !Ends(ops[i], s) && (ops[i].SetLocal? && ops[i].s == s ==> LastWrite(ops[i].writes, k).None?)
    ensures OwnLocal(ops, s, k) == LastWrite(ops[at].writes, k)
    decreases |ops|
  {
    if at + 1 < |ops| {
      assert !Ends(ops[|ops| - 1], s);
      OwnLocalKept(ops[..|ops| - 1], s, at, k);
    }
  }

  // ---------------------------------------------------------------------
  // The protocol never gets stuck.
  // ---------------------------------------------------------------------

  /** The run in which s has completed its current call. */
  function Completed(ops: seq<Op>, s: SessionId): seq<Op>
    requires Legal(ops)
  {
    if s in Run(ops).open then ops + Applies(s, |Run(ops).open[s].pending|) else ops
  }

  lemma CompletedIsLegal(ops: seq<Op>, s: SessionId)
    requires Legal(ops)
    ensures var all, p := Completed(ops, s), Run(ops);
            && Legal(all)
            && (s in Run(all).open <==> s in p.open) && (s in p.open ==> Run(all).open[s].pending == [])
            && forall c :: InUse(Run(all), c) <==> InUse(p, c)
  {
    var p := Run(ops);
    if s in p.open {
      FinishIsARun(ops, s);
      hide Legal, Run;
      forall c ensures InUse(Finish(p, s), c) <==> InUse(p, c) {
        if t :| t in p.open && p.open[t].connection == c { assert Finish(p, s).open[t].connection == c; }
        if t :| t in Finish(p, s).open && Finish(p, s).open[t].connection == c { assert p.open[t].connection == c; }
      }
    }
  }

  lemma OneMore(ops: seq<Op>, op: Op)
    requires Legal(ops) && Enabled(Run(ops), op)
    ensures Legal(ops + [op])
  {
    assert (ops + [op])[..|ops|] == ops;
  }

  /** After completing its current call, a session can commit, roll back, close or clear, and make any call
      on its own or a free connection. */
  lemma EveryCallIsPossible(ops: seq<Op>, s: SessionId, context: Context, ws: seq<Write>, free: ConnectionId)
    requires Legal(ops) && !InUse(Run(ops), free)
    requires forall w :: w in ws ==> !IsContextSetting(w.name)
    ensures var all := Completed(ops, s);
            && Legal(all + [Commit(s)]) && Legal(all + [Rollback(s)]) && Legal(all + [Close(s)]) && Legal(all + [Clear(s, true)])
            && Legal(all + [SetContext(s, context, free)]) && Legal(all + [SetLocal(s, ws, free)])
            && (s !in Run(ops).open ==> Legal(ops + [Begin(s, free)]))
  {
    CompletedIsLegal(ops, s);
    var all := Completed(ops, s);
    OneMore(all, Commit(s));
    OneMore(all, Rollback(s));
    OneMore(all, Close(s));
    OneMore(all, Clear(s, true));
    OneMore(all, SetContext(s, context, free));
    OneMore(all, SetLocal(s, ws, free));
    if s !in Run(ops).open { OneMore(ops, Begin(s, free)); }
  }

  /** A statement can fail at any moment of a transaction, the session can then be cleared without a rollback,
      and the pool can discard any idle connection. */
  lemma FailuresArePossible(ops: seq<Op>, s: SessionId, idle: ConnectionId)
    requires Legal(ops) && !InUse(Run(ops), idle)
    ensures Legal(ops + [Discard(idle)])
    ensures s in Run(ops).open ==> Legal(ops + [Fail(s)]) && Legal(ops + [Fail(s)] + [Clear(s, false)])
  {
    OneMore(ops, Discard(idle));
    if s in Run(ops).open {
      OneMore(ops, Fail(s));
      assert (ops + [Fail(s)])[..|ops|] == ops;
      OneMore(ops + [Fail(s)], Clear(s, false));
    }
  }

  // ---------------------------------------------------------------------
  // The functions of the session module, as methods over the shared pool.
  // ---------------------------------------------------------------------

  /** All pending writes of s have been executed. */
  function Finish(p: Pool, s: SessionId): Pool
    requires s in p.open
  {
    var t := p.open[s];
    if t.pending == [] then p
    else p.(open := p.open[s := t.(pending := [])],
            settings := p.settings[t.connection := SetAll(SettingsOf(p, t.connection), t.pending)])
  }

  function Applies(s: SessionId, n: nat): seq<Op> {
    if n == 0 then [] else [Apply(s)] + Applies(s, n - 1)
  }

  /** Finishing a call is a run: one Apply step for each pending write. */
  lemma {:induction false} FinishIsARun(ops: seq<Op>, s: SessionId)
    requires Legal(ops) && s in Run(ops).open
    ensures var all := ops + Applies(s, |Run(ops).open[s].pending|);
            Legal(all) && Run(all) == Finish(Run(ops), s)
    decreases |Run(ops).open[s].pending|
  {
    var p := Run(ops);
    var n := |p.open[s].pending|;
    if n == 0 {
      assert ops + [] == ops;
    } else {
      hide Finish, BeginOn, Queue, Release;
      var next := ops + [Apply(s)];
      assert next[..|ops|] == ops;
      assert Run(next) == Step(p, Apply(s));
      FinishIsARun(next, s);
      FinishAfterApply(p, s);
      assert next + Applies(s, n - 1) == ops + Applies(s, n);
    }
  }

  lemma FinishAfterApply(p: Pool, s: SessionId)
    requires s in p.open && p.open[s].pending != []
    ensures Finish(Step(p, Apply(s)), s) == Finish(p, s)
  {
    var t, q := p.open[s], Step(p, Apply(s));
    assert q.open[s].pending == t.pending[1..];
    assert SettingsOf(q, t.connection) == SetConfig(SettingsOf(p, t.connection), t.pending[0]);
    assert SetAll(SettingsOf(p, t.connection), t.pending) == SetAll(SettingsOf(q, t.connection), t.pending[1..]);
    assert Finish(q, s).open == Finish(p, s).open;
    assert Finish(q, s).settings == Finish(p, s).settings;
  }

  class SessionPool {
    var info: map<SessionId, Context>
    var open: map<SessionId, Transaction>
    var settings: map<ConnectionId, Settings>

    ghost function State(): Pool
      reads this
    {
      Pool(info, open, settings)
    }

    constructor ()
      ensures State() == EMPTY_POOL
    {
      info, open, settings := map[], map[], map[];
    }

    method SetConfigStatement(c: ConnectionId, w: Write)
      modifies this`settings
      ensures settings == old(settings)[c := SetConfig(SettingsOf(old(State()), c), w)]
    {
      var current := if c in settings then settings[c] else map[];
      settings := settings[c := current[w.name := w.value]];
    }

    /** Three consecutive set_config statements. */
    method ExecuteThree(c: ConnectionId, ws: seq<Write>)
      requires |ws| == 3
      modifies this`settings
      ensures settings == old(settings)[c := SetAll(SettingsOf(old(State()), c), ws)]
    {
      SetConfigStatement(c, ws[0]);
      SetConfigStatement(c, ws[1]);
      SetConfigStatement(c, ws[2]);
      SetAllThree(SettingsOf(old(State()), c), ws);
    }

    method ApplyRlsContext(c: ConnectionId, context: Context)
      modifies this`settings
      ensures settings == old(settings)[c := SetAll(SettingsOf(old(State()), c), ContextWrites(context))]
    {
      ExecuteThree(c, ContextWrites(context));
    }

    /** The after_begin listener. */
    method RestoreRlsContext(s: SessionId, c: ConnectionId)
      modifies this`settings
      ensures settings == if s in info
                          then old(settings)[c := SetAll(SettingsOf(old(State()), c), ContextWrites(info[s]))]
                          else old(settings)
    {
      if s in info {
        ApplyRlsContext(c, info[s]);
      }
    }

    /** Session.connection(): begins a transaction on `free` when none is open. */
    method Connection(s: SessionId, free: ConnectionId) returns (c: ConnectionId)
      requires Enabled(State(), SetLocal(s, [], free))
      modifies this`open, this`settings
      ensures s in open && c == open[s].connection && open[s].pending == []
      ensures State() == Finish(BeginOn(old(State()), s, free), s)
    {
      if s in open {
        c := open[s].connection;
      } else {
        open := open[s := Transaction(free, [], false)];
        c := free;
        RestoreRlsContext(s, c);
      }
    }

    method SetRlsContext(s: SessionId, userId: string, role: string, clientId: Option<string>, free: ConnectionId)
      returns (ok: bool)
      requires Enabled(State(), SetLocal(s, [], free))
      modifies this
      ensures var context := Context(userId, role, clientId.GetOr(""));
              State() == Finish(Step(old(State()), SetContext(s, context, free)), s)
      ensures ok <==> Ready(State(), s)
      ensures s in info && info[s].userId == userId && info[s].role == role && info[s].clientId == clientId.GetOr("")
      ensures ok ==>
                var settings := SettingsOf(State(), open[s].connection);
                && Read(settings, CurrentUserId) == (if userId == "" then None else Some(userId))
                && Read(settings, CurrentRole) == (if role == "" then None else Some(role))
                && Read(settings, CurrentClientId) == (if clientId == Some("") then None else clientId)
    {
      var context := Context(userId, role, clientId.GetOr(""));
      info := info[s := context];
      var c := Connection(s, free);
      ok := !open[s].aborted;
      if ok {
        ContextReads(SettingsOf(State(), c), context);
        ApplyRlsContext(c, context);
        FinishTwice(old(State()).(info := info), s, free, ContextWrites(context));
      }
    }

    method SetPublicFormRlsContext(s: SessionId, formId: string, responseId: Option<string>,
                                   idempotencyKey: Option<string>, free: ConnectionId)
      returns (ok: bool)
      requires Enabled(State(), SetLocal(s, [], free))
      modifies this`open, this`settings
      ensures State() == Finish(Step(old(State()), SetLocal(s, PublicFormWrites(formId, responseId, idempotencyKey), free)), s)
      ensures ok <==> Ready(State(), s)
      ensures ok ==>
                var settings := SettingsOf(State(), open[s].connection);
                && Read(settings, PublicFormId) == (if formId == "" then None else Some(formId))
                && Read(settings, PublicResponseId) == (if responseId == Some("") then None else responseId)
                && Read(settings, PublicIdempotencyKey) == (if idempotencyKey == Some("") then None else idempotencyKey)
    {
      var c := Connection(s, free);
      ok := !open[s].aborted;
      if ok {
        var ws := PublicFormWrites(formId, responseId, idempotencyKey);
        ghost var before := SettingsOf(State(), c);
        ExecuteThree(c, ws);
        FinishTwice(old(State()), s, free, ws);
        PublicFormReads(before, formId, responseId, idempotencyKey);
      }
    }

    /** One capability setting of the current transaction. */
    method SetCapability(s: SessionId, w: Write, free: ConnectionId) returns (ok: bool)
      requires w.name in {PublicWasteToken, PublicDocumentTokenHash, DocumentEventId}
      requires Enabled(State(), SetLocal(s, [], free))
      modifies this`open, this`settings
      ensures State() == Finish(Step(old(State()), SetLocal(s, [w], free)), s)
      ensures ok <==> Ready(State(), s)
      ensures ok ==> Read(SettingsOf(State(), open[s].connection), w.name) == (if w.value == "" then None else Some(w.value))
    {
      var c := Connection(s, free);
      ok := !open[s].aborted;
      if ok {
        ghost var begun := State();
        SetConfigStatement(c, w);
        assert [w][1..] == [];
        assert SetAll(SettingsOf(begun, c), [w]) == SetConfig(SettingsOf(begun, c), w);
        FinishTwice(old(State()), s, free, [w]);
      }
    }

    method SetPublicWasteContext(s: SessionId, token: string, free: ConnectionId) returns (ok: bool)
      requires Enabled(State(), SetLocal(s, [], free))
      modifies this`open, this`settings
      ensures State() == Finish(Step(old(State()), SetLocal(s, [Write(PublicWasteToken, token)], free)), s)
      ensures ok <==> Ready(State(), s)
      ensures ok ==> Read(SettingsOf(State(), open[s].connection), PublicWasteToken) == (if token == "" then None else Some(token))
    {
      ok := SetCapability(s, Write(PublicWasteToken, token), free);
    }

    method SetPublicDocumentContext(s: SessionId, tokenHash: string, free: ConnectionId) returns (ok: bool)
      requires Enabled(State(), SetLocal(s, [], free))
      modifies this`open, this`settings
      ensures State() == Finish(Step(old(State()), SetLocal(s, [Write(PublicDocumentTokenHash, tokenHash)], free)), s)
      ensures ok <==> Ready(State(), s)
      ensures ok ==> Read(SettingsOf(State(), open[s].connection), PublicDocumentTokenHash) == (if tokenHash == "" then None else Some(tokenHash))
    {
      ok := SetCapability(s, Write(PublicDocumentTokenHash, tokenHash), free);
    }

    method SetDocumentEventContext(s: SessionId, eventId: string, free: ConnectionId) returns (ok: bool)
      requires Enabled(State(), SetLocal(s, [], free))
      modifies this`open, this`settings
      ensures State() == Finish(Step(old(State()), SetLocal(s, [Write(DocumentEventId, eventId)], free)), s)
      ensures ok <==> Ready(State(), s)
      ensures ok ==> Read(SettingsOf(State(), open[s].connection), DocumentEventId) == (if eventId == "" then None else Some(eventId))
    {
      ok := SetCapability(s, Write(DocumentEventId, eventId), free);
    }

    /** Session.rollback(), also the effect of close() on the connection. */
    method EndSessionTransaction(s: SessionId)
      modifies this`open, this`settings
      ensures State() == Release(old(State()), s)
    {
      if s in open {
        var c := open[s].connection;
        var current := if c in settings then settings[c] else map[];
        settings := settings[c := EndTransaction(current)];
        open := open - {s};
      }
    }

    method ClearRlsContext(s: SessionId, isActive: bool)
      requires Enabled(State(), Clear(s, isActive))
      modifies this
      ensures State() == Step(old(State()), Clear(s, isActive))
    {
      if isActive {
        EndSessionTransaction(s);
      }
      info := info - {s};
    }

    /** The cleanup of get_db. `clearRaises`: the rollback inside clear_rls_context raised. */
    method EndRequest(s: SessionId, isActive: bool, clearRaises: bool)
      requires Enabled(State(), Clear(s, isActive))
      modifies this
      ensures State() == if clearRaises then Release(old(State()), s)
                         else Release(Step(old(State()), Clear(s, isActive)), s)
      ensures s !in open && (!clearRaises ==> s !in info)
      ensures s in old(open) ==> Blank(SettingsOf(State(), old(open)[s].connection))
    {
      if clearRaises {
        EndSessionTransaction(s);
      } else {
        ClearRlsContext(s, isActive);
      }
      EndSessionTransaction(s);
    }
  }

  function Execute(p: Pool, c: ConnectionId, ws: seq<Write>): Pool {
    p.(settings := p.settings[c := SetAll(SettingsOf(p, c), ws)])
  }

  /** Finishing the begin and then executing ws is finishing both together. */
  lemma FinishTwice(p: Pool, s: SessionId, free: ConnectionId, ws: seq<Write>)
    requires s in p.open ==> p.open[s].pending == []
    requires !BeginOn(p, s, free).open[s].aborted && ws != []
    ensures Finish(Queue(BeginOn(p, s, free), s, ws), s)
         == Execute(Finish(BeginOn(p, s, free), s), BeginOn(p, s, free).open[s].connection, ws)
  {
    var b := BeginOn(p, s, free);
    var begun, c := Finish(b, s), b.open[s].connection;
    var all := Finish(Queue(b, s, ws), s);
    SetAllConcat(SettingsOf(b, c), b.open[s].pending, ws);
    assert SettingsOf(begun, c) == SetAll(SettingsOf(b, c), b.open[s].pending);
    assert all.open == begun.open;
    assert all.settings == begun.settings[c := SetAll(SettingsOf(begun, c), ws)];
  }

  function PublicFormWrites(formId: string, responseId: Option<string>, idempotencyKey: Option<string>): seq<Write> {
    [Write(PublicFormId, formId),
     Write(PublicResponseId, responseId.GetOr("")),
     Write(PublicIdempotencyKey, idempotencyKey.GetOr(""))]
  }

  lemma PublicFormReads(settings: Settings, formId: string, responseId: Option<string>, idempotencyKey: Option<string>)
    ensures var after := SetAll(settings, PublicFormWrites(formId, responseId, idempotencyKey));
            && Read(after, PublicFormId) == (if formId == "" then None else Some(formId))
            && Read(after, PublicResponseId) == (if responseId == Some("") then None else responseId)
            && Read(after, PublicIdempotencyKey) == (if idempotencyKey == Some("") then None else idempotencyKey)
  {
    SetAllThree(settings, PublicFormWrites(formId, responseId, idempotencyKey));
    hide SetAll;
  }

  lemma ContextReads(settings: Settings, context: Context)
    ensures var after := SetAll(settings, ContextWrites(context));
            && Read(after, CurrentUserId) == NullIfEmpty(context.userId)
            && Read(after, CurrentRole) == NullIfEmpty(context.role)
            && Read(after, CurrentClientId) == NullIfEmpty(context.clientId)
  {
    SetAllThree(settings, ContextWrites(context));
    hide SetAll;
  }

  lemma SetAllThree(settings: Settings, ws: seq<Write>)
    requires |ws| == 3
    ensures SetAll(settings, ws) == SetConfig(SetConfig(SetConfig(settings, ws[0]), ws[1]), ws[2])
  {
    assert ws == [ws[0]] + ([ws[1]] + [ws[2]]);
    SetAllConcat(settings, [ws[0]], [ws[1]] + [ws[2]]);
    SetAllConcat(SetConfig(settings, ws[0]), [ws[1]], [ws[2]]);
  }

  lemma {:induction false} SetAllConcat(settings: Settings, a: seq<Write>, b: seq<Write>)
    ensures SetAll(settings, a + b) == SetAll(SetAll(settings, a), b)
    decreases |a|
  {
    if a == [] {
      assert a + b == b;
    } else {
      assert (a + b)[1..] == a[1..] + b;
      SetAllConcat(SetConfig(settings, a[0]), a[1..], b);
    }
  }
}
