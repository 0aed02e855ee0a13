/**
 The database policies and the application's rules select the same rows, and
 evaluating the application's rules through the policies changes no answer.
 */
module AccessAgreement {
  import opened Common
  import opened Sql
  import opened AccessData
  import opened Permissions
  import opened Policies
  import RlsSession

  function RoleName(role: UserRole): (name: string)
    ensures name != ""
  {
    match role
    case SUPER_ADMIN => "SUPER_ADMIN"
    case ADMIN => "ADMIN"
    case CLIENT => "CLIENT"
    case SUPERVISOR => "SUPERVISOR"
    case LOGISTICS_OPERATOR => "LOGISTICS_OPERATOR"
    case WORKER => "WORKER"
  }

  /** The caller the database sees once set_rls_context has stored this user's context. */
  function CallerOf(user: User): Caller {
    Caller(Some(user.id), Some(RoleName(user.role)), user.clientId)
  }

  /** The role tests of the two sides coincide. */
  lemma RoleTests(user: User)
    ensures AppIsAdmin(CallerOf(user)) == Known(user.role in ADMINS)
    ensures In(CallerOf(user).role, ["SUPERVISOR", "WORKER", "LOGISTICS_OPERATOR"]) == Known(user.role in OPERATIONAL_ROLES)
    ensures Eq(CallerOf(user).role, Some("CLIENT")) == Known(user.role == CLIENT)
    ensures Eq(CallerOf(user).role, Some("SUPERVISOR")) == Known(user.role == SUPERVISOR)
    ensures Eq(CallerOf(user).role, Some("LOGISTICS_OPERATOR")) == Known(user.role == LOGISTICS_OPERATOR)
    ensures Eq(CallerOf(user).role, Some("WORKER")) == Known(user.role == WORKER)
  {
  }

  lemma RelationAgrees(user: User, eventId: Uuid, db: Database)
    ensures ExistsStaff(db.staff, eventId, CallerOf(user)) == IsAssignedToEvent(user, eventId, db)
    ensures ExistsTask(db.tasks, eventId, CallerOf(user)) == HasTaskInEvent(user, eventId, db)
  {
  }

  lemma EventConditionAgrees(user: User, eventId: Uuid, e: Event, db: Database)
    ensures EventCondition(CallerOf(user), eventId, e, db.staff, db.tasks) == True
       <==> CanViewOperationalEvent(user, e, eventId, db)
  {
  }

  /** app_can_view_event and can_access_event agree exactly on existing events and, for
      everyone but administrators, on missing ones. */
  lemma EventRulesAgree(user: User, eventId: Uuid, db: Database)
    ensures AppCanViewEvent(db, CallerOf(user), eventId) <==> eventId in db.events && CanAccessEvent(user, eventId, db)
    ensures (AppCanViewEvent(db, CallerOf(user), eventId) <==> CanAccessEvent(user, eventId, db))
       <==> (eventId in db.events || user.role !in ADMINS)
  {
  }

  /** An administrator is let through to an event that does not exist; the database shows none. */
  lemma AdministratorsMissingEvent(user: User, eventId: Uuid)
    requires user.role == ADMIN
    ensures var empty := Database(map[], map[], map[], map[], map[]);
            CanAccessEvent(user, eventId, empty) && !AppCanViewEvent(empty, CallerOf(user), eventId)
  {
  }

  lemma OrderRulesAgree(user: User, orderId: Uuid, db: Database)
    ensures AppCanViewOrder(db, CallerOf(user), orderId) <==> CanAccessOrder(user, orderId, db)
  {
  }

  lemma EvidenceRulesAgree(user: User, evidenceId: Uuid, db: Database)
    ensures evidenceId in db.evidences && OrderEvidencesRls(db, CallerOf(user), db.evidences[evidenceId]) == True
       <==> CanViewOrderEvidence(user, evidenceId, db)
  {
  }

  // ---------------------------------------------------------------------
  // The inline events policy and its filtered subqueries.
  // ---------------------------------------------------------------------

  /** The staff policy always shows a caller their own assignments. */
  lemma StaffFilterLosesNothing(db: Database, c: Caller, eventId: Uuid)
    ensures ExistsStaff(VisibleStaff(db, c), eventId, c) == ExistsStaff(db.staff, eventId, c)
  {
    if k :| k in db.staff && And(Known(db.staff[k].eventId == eventId), Eq(Some(db.staff[k].userId), c.userId)) == True {
      assert k in VisibleStaff(db, c);
    }
  }

  lemma TaskFilterLosesNothing(db: Database, c: Caller, eventId: Uuid)
    ensures ExistsTask(VisibleTasks(db, c, TasksRls), eventId, c) == ExistsTask(db.tasks, eventId, c)
  {
    if k :| k in db.tasks && And(Known(db.tasks[k].eventId == eventId), Eq(db.tasks[k].assignedTo, c.userId)) == True {
      assert k in VisibleTasks(db, c, TasksRls);
    }
  }

  /** Under tasks_rls the inline policy is app_can_view_event, for any caller whatsoever. */
  lemma InlineEventsPolicyIsExact(db: Database, c: Caller, eventId: Uuid)
    requires eventId in db.events
    ensures EventsRls(db, c, TasksRls, eventId, db.events[eventId]) == True <==> AppCanViewEvent(db, c, eventId)
  {
    StaffFilterLosesNothing(db, c, eventId);
    TaskFilterLosesNothing(db, c, eventId);
  }

  /** An operator whose only relation to an operable event is a task. */
  predicate OnlyATask(db: Database, c: Caller, eventId: Uuid)
    requires eventId in db.events
  {
    && c.role == Some("LOGISTICS_OPERATOR")
    && db.events[eventId].status != QUOTE && !db.events[eventId].hiddenFromOperations
    && ExistsTask(db.tasks, eventId, c) && !ExistsStaff(db.staff, eventId, c)
  }

  lemma SelectPolicyTasks(db: Database, c: Caller, eventId: Uuid)
    requires eventId in db.events
    requires c.role != Some("LOGISTICS_OPERATOR") && AppCanViewEvent(db, c, eventId)
    ensures ExistsTask(VisibleTasks(db, c, TasksSelect), eventId, c) == ExistsTask(db.tasks, eventId, c) || AppIsAdmin(c) == True || c.role == Some("CLIENT")
  {
    if k :| k in db.tasks && And(Known(db.tasks[k].eventId == eventId), Eq(db.tasks[k].assignedTo, c.userId)) == True {
      if AppIsAdmin(c) != True && c.role != Some("CLIENT") {
        assert c.role == Some("SUPERVISOR") || c.role == Some("WORKER");
        assert k in VisibleTasks(db, c, TasksSelect);
      }
    }
  }

  /** Since tasks_select, the inline policy hides an event that app_can_view_event shows
      exactly from the logistics operators whose only relation to it is a task. */
  lemma InlineEventsPolicySinceTasksSelect(db: Database, c: Caller, eventId: Uuid)
    requires eventId in db.events
    ensures (EventsRls(db, c, TasksSelect, eventId, db.events[eventId]) == True <==> AppCanViewEvent(db, c, eventId))
       <==> !OnlyATask(db, c, eventId)
  {
    StaffFilterLosesNothing(db, c, eventId);
    VisibleTasksAreTasks(db, c, eventId);
    if c.role != Some("LOGISTICS_OPERATOR") && AppCanViewEvent(db, c, eventId) {
      SelectPolicyTasks(db, c, eventId);
    }
    hide ExistsTask, ExistsStaff, VisibleTasks, VisibleStaff;
  }

  lemma VisibleTasksAreTasks(db: Database, c: Caller, eventId: Uuid)
    ensures ExistsTask(VisibleTasks(db, c, TasksSelect), eventId, c) ==> ExistsTask(db.tasks, eventId, c)
    ensures c.role == Some("LOGISTICS_OPERATOR") ==> !ExistsTask(VisibleTasks(db, c, TasksSelect), eventId, c)
  {
    var visible := VisibleTasks(db, c, TasksSelect);
    if k :| k in visible && And(Known(visible[k].eventId == eventId), Eq(visible[k].assignedTo, c.userId)) == True {
      assert k in db.tasks && db.tasks[k] == visible[k];
    }
  }

  // ---------------------------------------------------------------------
  // The application's rules, evaluated through the policies.
  // ---------------------------------------------------------------------

  /** An event row is returned to a user's query exactly when the rules over whole tables allow it and,
      since tasks_select, the user is not an operator related to it by a task alone. */
  lemma VisibleEvents(user: User, eventId: Uuid, db: Database, policy: TaskPolicy)
    ensures eventId in View(db, CallerOf(user), policy).events
       <==> eventId in db.events && CanAccessEvent(user, eventId, db)
            && (policy == TasksSelect ==> !OnlyATask(db, CallerOf(user), eventId))
  {
    if eventId in db.events {
      hide EventsRls, AppCanViewEvent, CanAccessEvent, OnlyATask;
      InlineEventsPolicyIsExact(db, CallerOf(user), eventId);
      InlineEventsPolicySinceTasksSelect(db, CallerOf(user), eventId);
      EventRulesAgree(user, eventId, db);
      OnlyATaskIsAllowed(user, eventId, db);
    }
  }

  lemma OnlyATaskIsAllowed(user: User, eventId: Uuid, db: Database)
    requires eventId in db.events
    ensures OnlyATask(db, CallerOf(user), eventId) ==> AppCanViewEvent(db, CallerOf(user), eventId)
  {
    RoleTests(user);
  }

  /** An operator with one task on an event in planning: the Python rule and app_can_view_event allow
      the event, and its row is not returned. */
  lemma AnOperatorWithOneTask(user: User, eventId: Uuid, taskId: Uuid, client: Uuid)
    requires user.role == LOGISTICS_OPERATOR
    ensures var db := Database(map[eventId := Event(client, PLANNING, false)], map[],
                               map[taskId := Task(eventId, Some(user.id))], map[], map[]);
            && CanAccessEvent(user, eventId, db) && AppCanViewEvent(db, CallerOf(user), eventId)
            && eventId !in View(db, CallerOf(user), TasksSelect).events
  {
    var db := Database(map[eventId := Event(client, PLANNING, false)], map[],
                       map[taskId := Task(eventId, Some(user.id))], map[], map[]);
    assert HasTaskInEvent(user, eventId, db) by { assert taskId in db.tasks; }
    EventRulesAgree(user, eventId, db);
    RelationAgrees(user, eventId, db);
    VisibleEvents(user, eventId, db, TasksSelect);
  }

  /** The assignment rows a user's query returns: those of events the user may see, and the user's own. */
  lemma VisibleStaffRows(user: User, k: Uuid, db: Database)
    ensures k in VisibleStaff(db, CallerOf(user)) <==>
            k in db.staff && ((db.staff[k].eventId in db.events && CanAccessEvent(user, db.staff[k].eventId, db)) || db.staff[k].userId == user.id)
  {
    if k in db.staff { EventRulesAgree(user, db.staff[k].eventId, db); }
  }

  /** The task rows: likewise under tasks_rls; under tasks_select all of them for administrators, those of their
      events for supervisors, their own for workers, and none for anyone else. */
  lemma VisibleTaskRows(user: User, k: Uuid, db: Database)
    requires k in db.tasks
    ensures var task := db.tasks[k];
            var accessible := task.eventId in db.events && CanAccessEvent(user, task.eventId, db);
            && (k in VisibleTasks(db, CallerOf(user), TasksRls) <==> accessible || task.assignedTo == Some(user.id))
            && (k in VisibleTasks(db, CallerOf(user), TasksSelect) <==>
                  match user.role
                  case SUPER_ADMIN => true
                  case ADMIN => true
                  case SUPERVISOR => accessible
                  case WORKER => task.assignedTo == Some(user.id)
                  case CLIENT => false
                  case LOGISTICS_OPERATOR => false)
  {
    EventRulesAgree(user, db.tasks[k].eventId, db);
    RoleTests(user);
  }

  /** Row filtering changes no answer of can_access_event. */
  lemma EventRuleUnfiltered(user: User, eventId: Uuid, db: Database)
    ensures CanAccessEvent(user, eventId, View(db, CallerOf(user), TasksRls)) == CanAccessEvent(user, eventId, db)
  {
    var c := CallerOf(user);
    var view := View(db, c, TasksRls);
    VisibleEvents(user, eventId, db, TasksRls);
    if eventId in view.events {
      StaffFilterLosesNothing(db, c, eventId);
      TaskFilterLosesNothing(db, c, eventId);
      RelationAgrees(user, eventId, db);
      RelationAgrees(user, eventId, view);
    }
  }

  /** Since tasks_select it changes exactly those of operators related by a task alone, to a refusal. */
  lemma EventRuleSinceTasksSelect(user: User, eventId: Uuid, db: Database)
    requires eventId in db.events
    ensures CanAccessEvent(user, eventId, View(db, CallerOf(user), TasksSelect))
       <==> CanAccessEvent(user, eventId, db) && !OnlyATask(db, CallerOf(user), eventId)
  {
    var c := CallerOf(user);
    var view := View(db, c, TasksSelect);
    RoleTests(user);
    InlineEventsPolicySinceTasksSelect(db, c, eventId);
    EventRulesAgree(user, eventId, db);
    RelationAgrees(user, eventId, db);
    RelationAgrees(user, eventId, view);
    EventConditionAgrees(user, eventId, db.events[eventId], view);
  }

  /** can_access_order and can_view_order_evidence keep their answers under either task policy. */
  lemma OrderRulesUnfiltered(user: User, orderId: Uuid, evidenceId: Uuid, db: Database, policy: TaskPolicy)
    ensures CanAccessOrder(user, orderId, View(db, CallerOf(user), policy)) == CanAccessOrder(user, orderId, db)
    ensures CanViewOrderEvidence(user, evidenceId, View(db, CallerOf(user), policy)) == CanViewOrderEvidence(user, evidenceId, db)
  {
    OrderRuleUnfiltered(user, orderId, db, policy);
    EvidenceRulesAgree(user, evidenceId, db);
    if evidenceId in db.evidences {
      OrderRuleUnfiltered(user, db.evidences[evidenceId].orderId, db, policy);
    }
  }

  lemma OrderRuleUnfiltered(user: User, orderId: Uuid, db: Database, policy: TaskPolicy)
    ensures CanAccessOrder(user, orderId, View(db, CallerOf(user), policy)) == CanAccessOrder(user, orderId, db)
  {
    OrderRulesAgree(user, orderId, db);
    if orderId in db.orders {
      var eventId := db.orders[orderId].eventId;
      RoleTests(user);
      if user.role == SUPERVISOR && eventId in db.events {
        EventRuleUnfiltered(user, eventId, db);
        EventRuleSinceTasksSelect(user, eventId, db);
      }
    }
  }

  // ---------------------------------------------------------------------
  // From the pooled session to the rows it reads.
  // ---------------------------------------------------------------------

  /** The uuid casts of app_current_user_id and app_current_client_id do not raise. */
  predicate Casts(settings: RlsSession.Settings) {
    forall k :: k in {RlsSession.CurrentUserId, RlsSession.CurrentClientId} ==>
      RlsSession.Read(settings, k).None? || |RlsSession.Read(settings, k).value| == 36
  }

  function CallerOn(settings: RlsSession.Settings): Caller
    requires Casts(settings)
  {
    var user, client := RlsSession.Read(settings, RlsSession.CurrentUserId), RlsSession.Read(settings, RlsSession.CurrentClientId);
    Caller(if user.Some? then Some(user.value) else None,
           RlsSession.Read(settings, RlsSession.CurrentRole),
           if client.Some? then Some(client.value) else None)
  }

  /** What get_current_user stores: set_rls_context(user.id, user.role, user.client_id). */
  function ContextOf(user: User): RlsSession.Context {
    RlsSession.Context(user.id, RoleName(user.role), if user.clientId.Some? then user.clientId.value else "")
  }

  /** End to end: at any point of any interleaving, a session that stored this user's context
      and has neither replaced nor cleared it reads exactly the rows the rules allow the user; since
      tasks_select, all of them but the events of operators related by a task alone. */
  lemma SessionsReadWhatTheRulesAllow(ops: seq<RlsSession.Op>, s: RlsSession.SessionId, at: nat, user: User, db: Database,
                                      eventId: Uuid, orderId: Uuid, evidenceId: Uuid, policy: TaskPolicy)
    requires RlsSession.Legal(ops) && RlsSession.Ready(RlsSession.Run(ops), s)
    requires at < |ops| && ops[at].SetContext? && ops[at].s == s && ops[at].context == ContextOf(user)
    requires forall i :: at < i < |ops| ==> (ops[i].SetContext? || ops[i].Clear?) ==> ops[i].s != s
    ensures var pool := RlsSession.Run(ops);
            var settings := RlsSession.SettingsOf(pool, pool.open[s].connection);
            && Casts(settings)
            && var view := View(db, CallerOn(settings), policy);
               && (eventId in view.events <==> eventId in db.events && CanAccessEvent(user, eventId, db)
                                               && (policy == TasksSelect ==> !OnlyATask(db, CallerOf(user), eventId)))
               && (orderId in view.orders <==> CanAccessOrder(user, orderId, db))
               && (evidenceId in view.evidences <==> CanViewOrderEvidence(user, evidenceId, db))
  {
    StoredCaller(ops, s, at, user);
    VisibleEvents(user, eventId, db, policy);
    OrderRulesAgree(user, orderId, db);
    EvidenceRulesAgree(user, evidenceId, db);
  }

  /** The database sees the user whose context the session stored. */
  lemma StoredCaller(ops: seq<RlsSession.Op>, s: RlsSession.SessionId, at: nat, user: User)
    requires RlsSession.Legal(ops) && RlsSession.Ready(RlsSession.Run(ops), s)
    requires at < |ops| && ops[at].SetContext? && ops[at].s == s && ops[at].context == ContextOf(user)
    requires forall i :: at < i < |ops| ==> (ops[i].SetContext? || ops[i].Clear?) ==> ops[i].s != s
    ensures var pool := RlsSession.Run(ops);
            var settings := RlsSession.SettingsOf(pool, pool.open[s].connection);
            Casts(settings) && CallerOn(settings) == CallerOf(user)
  {
    forall k | RlsSession.IsContextSetting(k) {
      RlsSession.ContextOutlivesTransactions(ops, s, at, k);
    }
    var pool := RlsSession.Run(ops);
    var settings := RlsSession.SettingsOf(pool, pool.open[s].connection);
    assert RlsSession.Read(settings, RlsSession.CurrentUserId) == Some(user.id);
    assert RlsSession.Read(settings, RlsSession.CurrentRole) == Some(RoleName(user.role));
    assert RlsSession.Read(settings, RlsSession.CurrentClientId) == user.clientId;
  }

  const NOBODY := Caller(None, None, None)

  /** Without a context no condition is true. */
  lemma NoConditionHolds(db: Database, policy: TaskPolicy)
    ensures forall id, e, staff, tasks :: EventCondition(NOBODY, id, e, staff, tasks) != True
    ensures forall o :: OrderCondition(db, NOBODY, o) != True
    ensures forall row :: EventStaffRls(db, NOBODY, row) != True
    ensures forall row :: TaskRls(db, NOBODY, policy, row) != True
  {
  }

  lemma NobodySeesNothing(db: Database, policy: TaskPolicy)
    ensures View(db, NOBODY, policy) == Database(map[], map[], map[], map[], map[])
  {
    NoConditionHolds(db, policy);
    hide EventCondition, OrderCondition, EventStaffRls, TaskRls;
    var view := View(db, NOBODY, policy);
    assert view.events == map[];
    assert view.staff == map[];
    assert view.tasks == map[];
    assert view.orders == map[];
    assert view.evidences == map[];
  }

  /** A session with no context reads no event, order or evidence at all. */
  lemma WithoutContextNothingIsVisible(ops: seq<RlsSession.Op>, s: RlsSession.SessionId, db: Database, policy: TaskPolicy)
    requires RlsSession.Legal(ops) && RlsSession.Ready(RlsSession.Run(ops), s)
    requires forall i :: 0 <= i < |ops| && ops[i].SetContext? && ops[i].s == s ==>
               exists j :: i < j < |ops| && ops[j].Clear? && ops[j].s == s
    ensures var pool := RlsSession.Run(ops);
            var settings := RlsSession.SettingsOf(pool, pool.open[s].connection);
            && Casts(settings)
            && View(db, CallerOn(settings), policy) == Database(map[], map[], map[], map[], map[])
  {
    forall k | RlsSession.IsContextSetting(k) {
      RlsSession.NoContextWithoutSetting(ops, s, k);
    }
    var pool := RlsSession.Run(ops);
    var settings := RlsSession.SettingsOf(pool, pool.open[s].connection);
    assert CallerOn(settings) == NOBODY;
    NobodySeesNothing(db, policy);
  }
}
