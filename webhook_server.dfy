/** The GitHub webhook handler: it turns a delivery into a flat event record
    and appends that record to the stored rolling log. */
module WebhookServer {
  import opened Wrappers
  import opened JsonValue
  import opened RollingLog

  /** The `event_type` recorded when the delivery has no `X-GitHub-Event`
      header. */
  const UnknownEventType := "unknown"

  /** The HTTP status of every rejected delivery. */
  const BadRequest := 400

  /** One stored event record. Each `Json` field holds JSON null where the
      delivery had nothing to offer. */
  datatype Event = Event(
    timestamp: string,
    eventType: string,
    action: Json,
    workflowRun: Json,
    checkRun: Json,
    repository: Json,
    sender: Json)

  /** The reply to a delivery: `{"status": "received"}`, or a status code
      with `{"error": message}`. */
  datatype Reply = Received | Rejected(status: int, error: string)

  /** `v` is what `m.get(key)` yields: the value under `key`, else null. */
  predicate FieldOrNull(m: map<string, Json>, key: string, v: Json) {
    (key in m ==> v == m[key]) && (key !in m ==> v == JNull)
  }

  /** `m[outer]` may be looked up with `get`: the key is absent or holds an
      object. */
  predicate ObjectOrAbsent(m: map<string, Json>, outer: string) {
    outer in m ==> m[outer].JObj?
  }

  /** `v` is what `m.get(outer, {}).get(inner)` yields when it does not raise. */
  predicate NestedOrNull(m: map<string, Json>, outer: string, inner: string, v: Json)
    requires ObjectOrAbsent(m, outer)
  {
    (outer in m ==> FieldOrNull(m[outer].fields, inner, v)) && (outer !in m ==> v == JNull)
  }

  /** The bodies the handler can build a record from. */
  predicate Recordable(data: Json) {
    data.JObj? && ObjectOrAbsent(data.fields, "repository") && ObjectOrAbsent(data.fields, "sender")
  }

  /** `data.get(outer, {}).get(inner)`. */
  function GetNested(data: Json, outer: string, inner: string): Result<Json, string> {
    var o :- Get(data, outer, JObj(map[]));
    Get(o, inner, JNull)
  }

  /** The event record built from a decoded body, the `X-GitHub-Event` header
      and the reception time; the dictionary lookups are evaluated in the
      order they are written, so the first value without `get` names the
      error. */
  function BuildEvent(data: Json, header: Option<string>, timestamp: string): (r: Result<Event, string>)
    ensures r.Ok? <==> Recordable(data)
    ensures r.Ok? ==> r.value.timestamp == timestamp
    ensures r.Ok? && header.Some? ==> r.value.eventType == header.value
    ensures r.Ok? && header.None? ==> r.value.eventType == UnknownEventType
    ensures r.Ok? ==> FieldOrNull(data.fields, "action", r.value.action)
    ensures r.Ok? ==> FieldOrNull(data.fields, "workflow_run", r.value.workflowRun)
    ensures r.Ok? ==> FieldOrNull(data.fields, "check_run", r.value.checkRun)
    ensures r.Ok? ==> NestedOrNull(data.fields, "repository", "full_name", r.value.repository)
    ensures r.Ok? ==> NestedOrNull(data.fields, "sender", "login", r.value.sender)
    ensures !data.JObj? ==> r == Err(NoAttribute(data, "get"))
    ensures data.JObj? && !ObjectOrAbsent(data.fields, "repository") ==>
              r == Err(NoAttribute(data.fields["repository"], "get"))
    ensures data.JObj? && ObjectOrAbsent(data.fields, "repository") && !ObjectOrAbsent(data.fields, "sender") ==>
              r == Err(NoAttribute(data.fields["sender"], "get"))
  {
    if !data.JObj? then
      // the first lookup, `data.get("action")`, already raises
      Get(data, "action", JNull).PropagateFailure()
    else
      var action := Get(data, "action", JNull).value;
      var workflowRun := Get(data, "workflow_run", JNull).value;
      var checkRun := Get(data, "check_run", JNull).value;
      var repository :- GetNested(data, "repository", "full_name");
      var sender :- GetNested(data, "sender", "login");
      Ok(Event(timestamp, header.GetOr(UnknownEventType), action, workflowRun, checkRun, repository, sender))
  }

  /** The events file. A missing file reads as an empty log; a file that
      cannot be loaded as a list carries the message loading it raises. */
  class EventStore {
    var events: seq<Event>
    var loadError: Option<string>

    /** A store over a file holding `events`, or failing to load with
        `loadError`; a missing file is `[]` with no error. */
    constructor (events: seq<Event>, loadError: Option<string>)
      ensures this.events == events && this.loadError == loadError
    {
      this.events := events;
      this.loadError := loadError;
    }

    /** Handles one delivery: `body` is the decoded request body, or the
        message decoding raised; `header` the `X-GitHub-Event` header;
        `timestamp` the reception time. Any exception becomes a 400 reply
        that leaves the file untouched. */
    method HandleWebhook(body: Result<Json, string>, header: Option<string>, timestamp: string)
      returns (reply: Reply)
      modifies this
      ensures loadError == old(loadError)
      ensures reply == Received <==>
                body.Ok? && Recordable(body.value) && old(loadError).None?
      ensures reply == Received ==>
                events == Roll(old(events), BuildEvent(body.value, header, timestamp).value)
      ensures reply != Received ==> events == old(events) && reply.Rejected? && reply.status == BadRequest
      ensures body.Err? ==> reply == Rejected(BadRequest, body.error)
      ensures body.Ok? && !Recordable(body.value) ==>
                reply == Rejected(BadRequest, BuildEvent(body.value, header, timestamp).error)
      ensures body.Ok? && Recordable(body.value) && old(loadError).Some? ==>
                reply == Rejected(BadRequest, old(loadError).value)
    {
      if body.Err? {
        return Rejected(BadRequest, body.error);
      }
      var built := BuildEvent(body.value, header, timestamp);
      if built.Err? {
        return Rejected(BadRequest, built.error);
      }
      var event := built.value;

      if loadError.Some? {
        return Rejected(BadRequest, loadError.value);
      }
      // a missing file is the empty log
      var stored := events + [event];
      stored := KeepLast(stored, Capacity);

      events := stored;
      reply := Received;
    }
  }
}
