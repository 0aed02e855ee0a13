/** The tables that access rules read, and a caller's identity. */
module AccessData {
  import opened Common

  /** A UUID, as its canonical text. */
  type Uuid = s: string | |s| == 36 witness seq(36, _ => '0')

  datatype UserRole = SUPER_ADMIN | ADMIN | CLIENT | SUPERVISOR | LOGISTICS_OPERATOR | WORKER
  datatype EventStatus = QUOTE | PLANNING | IN_PROGRESS | FINISHED | CANCELLED

  datatype User = User(id: Uuid, role: UserRole, clientId: Option<Uuid>)
  datatype Event = Event(clientId: Uuid, status: EventStatus, hiddenFromOperations: bool)
  datatype EventStaff = EventStaff(eventId: Uuid, userId: Uuid)
  datatype Task = Task(eventId: Uuid, assignedTo: Option<Uuid>)
  datatype EventOrder = EventOrder(eventId: Uuid, assignedTo: Option<Uuid>)
  datatype OrderEvidence = OrderEvidence(orderId: Uuid, visibleToClient: bool)

  /** Tables by primary key. */
  datatype Database = Database(
    events: map<Uuid, Event>,
    staff: map<Uuid, EventStaff>,
    tasks: map<Uuid, Task>,
    orders: map<Uuid, EventOrder>,
    evidences: map<Uuid, OrderEvidence>)
}

/** The application's access rules, over whatever rows its session can read. */
module Permissions {
  import opened Common
  import opened AccessData

  const ADMINS := {SUPER_ADMIN, ADMIN}
  const OPERATIONAL_ROLES := {SUPERVISOR, WORKER, LOGISTICS_OPERATOR}

  predicate IsAssignedToEvent(user: User, eventId: Uuid, db: Database) {
    exists k :: k in db.staff && db.staff[k].eventId == eventId && db.staff[k].userId == user.id
  }

  predicate HasTaskInEvent(user: User, eventId: Uuid, db: Database) {
    exists k :: k in db.tasks && db.tasks[k].eventId == eventId && db.tasks[k].assignedTo == Some(user.id)
  }

  predicate HasOperationalRelation(user: User, eventId: Uuid, db: Database) {
    IsAssignedToEvent(user, eventId, db) || HasTaskInEvent(user, eventId, db)
  }

  predicate CanViewOperationalEvent(user: User, event: Event, eventId: Uuid, db: Database) {
    if user.role in ADMINS then true
    else if user.role == CLIENT then user.clientId.Some? && event.clientId == user.clientId.value
    else if user.role in OPERATIONAL_ROLES then
      if event.hiddenFromOperations then false
      else if event.status == QUOTE then false
      else HasOperationalRelation(user, eventId, db)
    else false
  }

  predicate CanAccessEvent(user: User, eventId: Uuid, db: Database) {
    if user.role in ADMINS then true
    else if eventId !in db.events then false
    else CanViewOperationalEvent(user, db.events[eventId], eventId, db)
  }

  predicate CanAccessLogisticsOrder(user: User, order: EventOrder, db: Database) {
    if user.role in ADMINS then true
    else if user.role == CLIENT then
      order.eventId in db.events && user.clientId.Some? && db.events[order.eventId].clientId == user.clientId.value
    else if user.role == SUPERVISOR then CanAccessEvent(user, order.eventId, db)
    else if user.role == LOGISTICS_OPERATOR then order.assignedTo == Some(user.id)
    else false
  }

  predicate CanAccessOrder(user: User, orderId: Uuid, db: Database) {
    orderId in db.orders && CanAccessLogisticsOrder(user, db.orders[orderId], db)
  }

  predicate CanViewOrderEvidence(user: User, evidenceId: Uuid, db: Database) {
    if evidenceId !in db.evidences then false
    else if user.role == CLIENT && !db.evidences[evidenceId].visibleToClient then false
    else CanAccessOrder(user, db.evidences[evidenceId].orderId, db)
  }
}
