# GitHub webhook receiver: event record and rolling log

This project models the webhook handler of a small server that receives
GitHub Actions webhook deliveries (`handle_webhook` in `webhook_server.py`).
For each delivery the handler does three things:

- it builds a flat event record from the decoded JSON body and the
  `X-GitHub-Event` header;
- it appends that record to the events file, which keeps only the 100 most
  recent events;
- it replies `{"status": "received"}`, or status 400 carrying the text of
  whatever exception was raised on the way.

Modules:

- `Wrappers` (`wrappers.dfy`): `Option` and `Result`.
- `JsonValue` (`json_value.dfy`): decoded JSON values, Python's type names
  for them, and `dict.get`, which raises `AttributeError` on anything that
  is not a dict.
- `RollingLog` (`rolling_log.dfy`): the append-then-`[-100:]` update and its
  properties: the length bound, the newest-last order, eviction of the
  oldest entries, and the log after any number of deliveries.
- `WebhookServer` (`webhook_server.dfy`): the event record, `BuildEvent`,
  the reply, and the `EventStore` class. The class holds the events file as
  a `seq<Event>` and `HandleWebhook` updates it in place.

Inputs the handler takes from its environment become parameters:

- the decoded body is a `Result<Json, string>`, where `Err` carries the
  message of a failed `request.json()`;
- the header is an `Option<string>`;
- the `datetime.utcnow().isoformat()` timestamp is an opaque string.

A missing events file behaves exactly like a file holding an empty list, so
the store starts from `[]`. A file that exists but cannot be loaded as a
list is the store's `loadError`.

An events file that cannot be loaded is not replaced by an empty log:
`json.load` raising inside the `try` turns every later delivery into a 400
and nothing is written. The model keeps the store's `loadError` and rejects
every delivery.

## Model

| member | source | states |
|---|---|---|
| `JsonValue.TypeName` | webhook_server.py:118-119 | The Python type name in the exception text: "dict" exactly for objects, "list" exactly for arrays, "NoneType" exactly for null. |
| `JsonValue.Get` | webhook_server.py:96-100 | `get` succeeds exactly on a dict. It yields the value under the key when the key is present and the default otherwise. On any other value it fails with "'<type>' object has no attribute 'get'". |
| `WebhookServer.BuildEvent` | webhook_server.py:93-101 | A record is built exactly when the body is an object and `repository` and `sender` are each absent or an object. The record's timestamp is the given one. `event_type` is the header when present, else "unknown". `action`, `workflow_run` and `check_run` are the body's values, or null when absent. `repository` is `repository.full_name` and `sender` is `sender.login`, null when either level is absent. Errors follow evaluation order: a non-object body, then a non-object `repository`, then a non-object `sender`. The helpers `GetNested` (`data.get(outer, {}).get(inner)`) and `NoAttribute` (the `AttributeError` text) are pinned by this contract and `Get`'s. |
| `RollingLog.KeepLast` | webhook_server.py:111 | `s[-n:]` has length min(\|s\|, n). It is all of `s` when `s` is short enough. Otherwise it is the last n elements of `s`, in order. |
| `RollingLog.Roll` | webhook_server.py:110-111 | After an append the log is non-empty, holds at most 100 events and ends with the new event. Below capacity it is the old log plus the event. At or above capacity it keeps the last 99 old entries in order, then the event. From an empty log it is `[event]`. |
| `RollingLog.RollWhenFull` | webhook_server.py:111 | On a log of exactly 100 events, exactly the oldest is dropped, the survivors keep their order, and the length stays 100. |
| `RollingLog.DuplicatesKept` | webhook_server.py:110 | The same event delivered twice in a row is stored as two entries at the end of the log. |
| `RollingLog.KeepLastAbsorbs` | webhook_server.py:110-111 | Trimming to the last n and then appending more, then trimming again, gives the same log as appending to the untrimmed log and trimming once. |
| `RollingLog.RollAllKeepsMostRecent` | webhook_server.py:110-111 | After any non-empty series of accepted deliveries, the log is the last 100 entries of the starting log followed by every accepted event, in arrival order. |
| `WebhookServer.EventStore.constructor` | webhook_server.py:104-107 | The store starts from the stored log and its load error. A missing file is the empty log with no error. |
| `WebhookServer.EventStore.HandleWebhook` | webhook_server.py:87-119 | A delivery is received exactly when the body decoded, a record could be built and the file loaded. Then the log becomes `Roll(old log, record)`. Otherwise the reply is a 400 and the log is unchanged. The error text is the first failure in the source's order: decoding, then record building, then loading the file. The load error itself never changes. |

## Left out

- The aiohttp application, routing, request and response objects and the
  startup prints (webhook_server.py:82, 121-129): HTTP plumbing. The reply is
  the `Reply` datatype.
- Parsing the raw request bytes (`request.json()`): the model starts from
  the decoded value or the decoder's error message.
- File I/O and JSON (de)serialisation of the events file
  (webhook_server.py:105-107, 114-115): the file is the store's `events`
  field. A write that fails half-way is not modelled.
- Entries in the events file that are not event records (the file can hold
  any JSON list): the log is a list of `Event`.
- The exact text of `json.load`'s errors: an unreadable file carries an
  opaque message.
- The clock (`datetime.utcnow().isoformat()`): the timestamp is a parameter.
- Concurrent deliveries and the unguarded read-modify-write of the file:
  the code has no locking, and the model handles one delivery at a time.
- Floating-point numbers: a JSON float is modelled by the real number it
  denotes, so `NaN`, `Infinity` and out-of-range values such as `1e400`,
  which Python's `json` also decodes to floats, cannot be represented. The
  handler only copies such values and uses their type name.
