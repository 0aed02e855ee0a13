/**
 The row-level-security predicates of the database, in three-valued logic.
 `app_can_view_event` and `app_can_view_order` run as their owner and read whole
 tables; a subquery written inside a policy reads only the rows that the other
 tables' policies let the caller see.
 */
module Policies {
  import opened Common
  import opened Sql
  import opened AccessData

  /** What the app_current_* functions return on the caller's connection. */
  datatype Caller = Caller(userId: Option<Uuid>, role: Option<string>, clientId: Option<Uuid>)

  /** The task policies in force: tasks_rls (from revision 0005) or tasks_select (from revision 0040). */
  datatype TaskPolicy = TasksRls | TasksSelect

  function AppIsAdmin(c: Caller): Tri {
    In(c.role, ["SUPER_ADMIN", "ADMIN"])
  }

  predicate ExistsStaff(staff: map<Uuid, EventStaff>, eventId: Uuid, c: Caller) {
    exists k :: k in staff
      && And(Known(staff[k].eventId == eventId), Eq(Some(staff[k].userId), c.userId)) == True
  }

  predicate ExistsTask(tasks: map<Uuid, Task>, eventId: Uuid, c: Caller) {
    exists k :: k in tasks
      && And(Known(tasks[k].eventId == eventId), Eq(tasks[k].assignedTo, c.userId)) == True
  }

  /** The condition both app_can_view_event and the inline events policy put on an event row. */
  function EventCondition(c: Caller, id: Uuid, e: Event, staff: map<Uuid, EventStaff>, tasks: map<Uuid, Task>): Tri {
    Or(Or(AppIsAdmin(c),
          And(Eq(c.role, Some("CLIENT")), Eq(c.clientId, Some(e.clientId)))),
       And(And(And(In(c.role, ["SUPERVISOR", "WORKER", "LOGISTICS_OPERATOR"]),
                   Known(e.status != QUOTE)),
               Known(e.hiddenFromOperations == false)),
           Or(Known(ExistsStaff(staff, id, c)), Known(ExistsTask(tasks, id, c)))))
  }

  predicate AppCanViewEvent(db: Database, c: Caller, eventId: Uuid) {
    eventId in db.events && EventCondition(c, eventId, db.events[eventId], db.staff, db.tasks) == True
  }

  /** The left join leaves the event's columns NULL when the event is missing. */
  function OrderCondition(db: Database, c: Caller, o: EventOrder): Tri {
    var eventClient := if o.eventId in db.events then Some(db.events[o.eventId].clientId) else None;
    Or(Or(Or(AppIsAdmin(c),
             And(Eq(c.role, Some("CLIENT")), Eq(c.clientId, eventClient))),
          And(Eq(c.role, Some("SUPERVISOR")), Known(AppCanViewEvent(db, c, o.eventId)))),
       And(Eq(c.role, Some("LOGISTICS_OPERATOR")), Eq(o.assignedTo, c.userId)))
  }

  predicate AppCanViewOrder(db: Database, c: Caller, orderId: Uuid) {
    orderId in db.orders && OrderCondition(db, c, db.orders[orderId]) == True
  }

  function EventStaffRls(db: Database, c: Caller, row: EventStaff): Tri {
    Or(Known(AppCanViewEvent(db, c, row.eventId)), Eq(Some(row.userId), c.userId))
  }

  function TaskRls(db: Database, c: Caller, policy: TaskPolicy, row: Task): Tri {
    match policy
    case TasksRls => Or(Known(AppCanViewEvent(db, c, row.eventId)), Eq(row.assignedTo, c.userId))
    case TasksSelect =>
      Or(Or(AppIsAdmin(c), And(Eq(c.role, Some("SUPERVISOR")), Known(AppCanViewEvent(db, c, row.eventId)))),
         And(Eq(c.role, Some("WORKER")), Eq(row.assignedTo, c.userId)))
  }

  function VisibleStaff(db: Database, c: Caller): map<Uuid, EventStaff> {
    map k | k in db.staff && EventStaffRls(db, c, db.staff[k]) == True :: db.staff[k]
  }

  function VisibleTasks(db: Database, c: Caller, policy: TaskPolicy): map<Uuid, Task> {
    map k | k in db.tasks && TaskRls(db, c, policy, db.tasks[k]) == True :: db.tasks[k]
  }

  /** events_rls: its two subqueries see only the staff and task rows visible to the caller. */
  function EventsRls(db: Database, c: Caller, policy: TaskPolicy, id: Uuid, e: Event): Tri {
    EventCondition(c, id, e, VisibleStaff(db, c), VisibleTasks(db, c, policy))
  }

  function OrderEvidencesRls(db: Database, c: Caller, row: OrderEvidence): Tri {
    And(Known(AppCanViewOrder(db, c, row.orderId)),
        Or(Not(Eq(c.role, Some("CLIENT"))), Known(row.visibleToClient == true)))
  }

  /** The rows a caller's own queries return from each table. */
  function View(db: Database, c: Caller, policy: TaskPolicy): Database {
    Database(
      map k | k in db.events && EventsRls(db, c, policy, k, db.events[k]) == True :: db.events[k],
      VisibleStaff(db, c),
      VisibleTasks(db, c, policy),
      map k | k in db.orders && AppCanViewOrder(db, c, k) :: db.orders[k],
      map k | k in db.evidences && OrderEvidencesRls(db, c, db.evidences[k]) == True :: db.evidences[k])
  }
}
