/** The whole engine state as one value, and the invariant every component keeps. */
module Stores {
  import opened Prelude
  import O = Objects
  import E = EventLog
  import L = Links
  import Q = Queue

  datatype Store = Store(shelf: O.Shelf, log: E.Log, table: L.Table, queues: Q.Queues)

  const EMPTY_STORE := Store(O.EMPTY_SHELF, E.EMPTY_LOG, L.EMPTY_TABLE, map[])

  /** A queue exists only once a job was pushed to it, holds jobs that name it, and no id twice. */
  ghost predicate QueuesOk(queues: Q.Queues) {
    forall name :: name in queues ==>
      queues[name] != [] && Q.DistinctIds(queues[name]) && forall j :: j in queues[name] ==> j.queue == name
  }

  /** Events carry the creation stamp that appending gives them. */
  ghost predicate EventsStamped(log: E.Log) {
    forall e :: e in log.events ==> e.createdAt != ""
  }

  ghost predicate StoreOk(parse: O.Parser, s: Store) {
    O.ShelfOk(parse, s.shelf) && E.LogOk(s.log) && EventsStamped(s.log) && L.LinksOk(s.table) && QueuesOk(s.queues)
  }
}
