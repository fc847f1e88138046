/** What both analytics sinks store and are asked to do. */
module AnalyticsModel {
  import opened Wrappers

  datatype Key = Key(tenant: string, aggregate: string, aggId: string)
  datatype EventKey = EventKey(key: Key, version: int)

  /** A stored payload with the columns a reprojection leaves alone. */
  datatype Doc<M> = Doc(payload: string, meta: M)
  datatype FactMeta = FactMeta(version: int, at: int, deleted: bool)
  datatype EventMeta = EventMeta(kind: string, at: int)
  type FactDoc = Doc<FactMeta>
  type EventDoc = Doc<EventMeta>

  datatype Fact = Fact(key: Key, version: int, payload: string, at: int, deleted: bool) {
    function Stored(): FactDoc { Doc(payload, FactMeta(version, at, deleted)) }
  }
  datatype Event = Event(id: EventKey, kind: string, payload: string, at: int) {
    function Stored(): EventDoc { Doc(payload, EventMeta(kind, at)) }
  }
  datatype Mark = Mark(key: Key, version: int)

  /** A redaction pass over one payload; None is the transform's error. */
  type Transform = string -> Option<string>

  datatype Call =
    | UpsertFacts(facts: seq<Fact>)
    | AppendEvents(events: seq<Event>)
    | SetWatermark(marks: seq<Mark>)
    | Reproject(tenant: string, aggregate: string, transform: Transform)
    | Prune(olderThan: int)
    | Purge(tenant: string)

  /** The WHERE clause of a reprojection: one tenant, and one aggregate unless "". */
  predicate InScope(k: Key, tenant: string, aggregate: string) {
    k.tenant == tenant && (aggregate == "" || k.aggregate == aggregate)
  }

  /** A row that a reprojection has to leave alone: another tenant's, or another aggregate's
      when one is named. */
  ghost predicate Elsewhere(k: Key, tenant: string, aggregate: string) {
    k.tenant != tenant || (aggregate != "" && k.aggregate != aggregate)
  }

  function FactScope(tenant: string, aggregate: string): Key -> bool {
    (k: Key) => InScope(k, tenant, aggregate)
  }

  function EventScope(tenant: string, aggregate: string): EventKey -> bool {
    (k: EventKey) => InScope(k.key, tenant, aggregate)
  }

  function KeyOf(tenant: string): Key -> bool {
    (k: Key) => k.tenant == tenant
  }

  function EventKeyOf(tenant: string): EventKey -> bool {
    (k: EventKey) => k.key.tenant == tenant
  }
}
