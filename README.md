# Sharded visit counter: `RedisManager` and `VisitCounterService`

This project is a Dafny model of the counting core of the visit-counter service.

- `RedisManager` reads the comma-separated `REDIS_NODES` setting. It strips each piece of whitespace and drops the empty ones. It then builds an insertion-ordered table with one Redis client per distinct node.
- The manager sends each key to one node: the one at position `hash(key) % N` in the table.
- `increment` runs INCRBY on that node.
- `get` runs GET on that node. An absent key reads as 0. Otherwise it decodes the reply and parses it with Python's `int()`.
- `VisitCounterService` keeps one counter per page, under the key `"visit_count:" + page_id`.

Each Redis server is modelled by the data it holds: a map from key to stored bytes (`RedisStore.Store`). The manager's `stores` sequence runs parallel to its node table. The counter value crosses the boundary as text:

- Redis writes the decimal digits of the new value.
- INCRBY only accepts Redis's strict 64-bit integer syntax.
- `get` decodes the bytes and applies Python's more lenient `int()`.

The model defines all three and proves they agree on every value Redis writes.

Files:

- `wrappers.dfy`: `Option`, `Result`, `Outcome`.
- `sequences.dfy`: distinctness and first occurrence in a sequence.
- `pytext.dfy`: Python's `str.split` and `str.strip`.
- `numerals.dfy`: decimal text, Redis's integer syntax, and Python's `int()` on ASCII text.
- `redis_store.dfy`: INCRBY, the GET reply, and the `get` read-back on one node.
- `node_list.dfy`: the node-list parser and the client table's key order.
- `redis_manager.dfy`: the `RedisManager` class (module `Core`).
- `visit_counter.dfy`: the `VisitCounterService` class (module `Services`).

Inputs the code takes from its environment are parameters of the constructors:

- the `REDIS_NODES` setting;
- Python's string `hash`, an arbitrary function from strings to integers, fixed for the manager's lifetime;
- the data each node address already holds when the manager starts.

`__init__` accepts an empty node list. The first routed call then raises `ZeroDivisionError` in `get_connection`, so both `Increment` and `Get` return `Failure(ZeroDivision)` on an empty table.

## Model

| member | source | states |
|---|---|---|
| PyText.StripSpec | app/core/redis_manager.py:12 | `Strip` (`str.strip()`) leaves the infix that neither starts nor ends with whitespace. Everything cut off on both sides is whitespace. The result is empty exactly when the piece is all whitespace. |
| PyText.StripKeepsCharacters | app/core/redis_manager.py:12 | Every character of a stripped piece occurs in the piece. |
| PyText.StripUnchanged | app/core/redis_manager.py:12 | A string with no whitespace at either end is left as it is by `strip()`. |
| PyText.Split | app/core/redis_manager.py:12 | `split(',')` yields at least one piece, and no piece contains the separator. |
| PyText.JoinSplit | app/core/redis_manager.py:12 | Joining the pieces of `split(sep)` with `sep` gives the setting back. |
| PyText.SplitJoin | app/core/redis_manager.py:12 | Splitting a join of separator-free pieces gives the pieces back. |
| PyText.SplitAppend | app/core/redis_manager.py:12 | Splitting `a + sep + b` gives the pieces of `a` followed by the pieces of `b`. |
| NodeList.CleanPieces | app/core/redis_manager.py:12 | The comprehension keeps at most one name per piece, and every name it keeps is non-empty, has no whitespace at either end and no comma. |
| NodeList.ParseNodes | app/core/redis_manager.py:12 | Every parsed node name is non-empty, carries no surrounding whitespace and contains no comma. |
| NodeList.ParseNodesAppend | app/core/redis_manager.py:12 | Parsing keeps the left-to-right order of the setting: the names of `a + "," + b` are those of `a` followed by those of `b`. |
| NodeList.CleanPiecesMembership | app/core/redis_manager.py:12 | A name is kept exactly when it is non-empty and some piece strips to it. |
| NodeList.ParseNodesMembership | app/core/redis_manager.py:12 | A name is parsed exactly when it is non-empty and some comma-separated piece of the setting strips to it. |
| NodeList.Dedup | app/core/redis_manager.py:16-19 | Filling the client dictionary leaves exactly the distinct parsed names as keys, each once, no more of them than parsed names. |
| NodeList.DedupFirstOccurrence | app/core/redis_manager.py:16-19 | The table keys are ordered by their first occurrence in the parsed list. |
| Numerals.DigitsOf | app/core/redis_manager.py:48 | The decimal digits Redis writes are non-empty digits, "0" exactly for zero, and without a leading zero otherwise. |
| Numerals.DecimalShape | app/core/redis_manager.py:48 | `Decimal`, the text of a counter, starts with '-' exactly when it is negative, and all other characters are digits. |
| Numerals.DigitsValueOf | app/core/redis_manager.py:69 | The digits of `n` denote `n`. |
| Numerals.DigitsOfValue | app/core/redis_manager.py:48 | A digit string without a leading zero is the one written for its value. |
| Numerals.CanonicalOfDecimal | app/core/redis_manager.py:48 | `CanonicalValue`, Redis's integer syntax (string2ll before its range check), reads back the decimal text it writes. |
| Numerals.CanonicalIsDecimal | app/core/redis_manager.py:48 | The only text Redis reads as `v` is the decimal text of `v`. |
| Numerals.ScanDigitsValue | app/core/redis_manager.py:69 | On a plain digit string, `ScanDigits`, the underscore-aware digit loop of `int()`, computes the number the digits denote. |
| Numerals.PyIntOfDecimal | app/core/redis_manager.py:69 | `PyIntValue` (`int()` on ASCII text: whitespace, sign, digits) parses the decimal text of any integer back to that integer. |
| RedisStore.EncodeAscii | app/core/redis_manager.py:48 | ASCII text is stored as one byte per character. |
| RedisStore.DecodeAscii | app/core/redis_manager.py:67 | A successful decode has one character per byte. |
| RedisStore.DecodeEncodeAscii | app/core/redis_manager.py:67 | `decode('utf-8')` undoes the encoding of ASCII text. |
| RedisStore.DecodeInjective | app/core/redis_manager.py:67 | Two byte strings that decode to the same text are equal. |
| RedisStore.EncodeCounter | app/core/redis_manager.py:48 | The stored form of a counter is never empty. |
| RedisStore.IncrBy | app/core/redis_manager.py:48 | INCRBY's result is a 64-bit integer. On an absent key it is the amount. It fails only with "not an integer" or "overflow". |
| RedisStore.IncrByStoredCanonical | app/core/redis_manager.py:48 | INCRBY succeeds on a stored value only when the stored bytes are exactly the decimal text of the previous counter. |
| RedisStore.ReadCounter | app/core/redis_manager.py:60-69 | `get` returns 0 for an absent key, and its only failure on a stored value is a ValueError. |
| RedisStore.ReadEncodedCounter | app/core/redis_manager.py:66-69 | Decimal round trip: `get` reads back exactly the counter Redis stored. |
| RedisStore.IncrementEncodedCounter | app/core/redis_manager.py:48 | `RedisInteger` (decode, string2ll, then the int64 range check) reads any 64-bit counter Redis has stored, so INCRBY can add to it again. |
| RedisStore.IncrByReadAgreement | app/core/redis_manager.py:36-69 | When INCRBY succeeds, `get` had read the previous value: the returned value minus the amount, with an absent key as 0. |
| RedisStore.LenientReadStrictIncrement | app/core/redis_manager.py:48-69 | The two parsers differ off Redis's own output: `get` reads the bytes "07" as 7, but INCRBY refuses them. |
| Core.ShardIndex | app/core/redis_manager.py:32 | `hash % N` fails with ZeroDivision exactly when N = 0. Otherwise the index lies in [0, N), even for a negative hash. |
| Core.RedisManager.constructor | app/core/redis_manager.py:6-19 | The table keys are the distinct parsed node names in first-occurrence order, each a clean node name. Each node's store is `Held`, the data that address holds. |
| Core.RedisManager.AddClients | app/core/redis_manager.py:16-19 | The loop leaves one distinct entry per parsed name, in first-occurrence order, each with the data its address holds. |
| Core.RedisManager.GetConnection | app/core/redis_manager.py:32-34 | Routing fails exactly on an empty table, and otherwise yields a valid position in the table. |
| Core.RedisManager.Get | app/core/redis_manager.py:50-69 | Fails with ZeroDivision on an empty table. Otherwise GET on the routed node (`Stored`, a lookup in that node's data) decides: 0 when the node does not hold the key, and otherwise the decoded, `int()`-parsed stored value. |
| Core.RedisManager.Increment | app/core/redis_manager.py:36-48 | Fails with ZeroDivision on an empty table. Otherwise returns INCRBY's result on the routed node's value. On success, that node stores the new value's text under the key, `get` read the previous value (result minus amount) and now reads the result. No other key's `get` changes, the table and routing stay fixed, and on failure nothing changes. |
| Services.VisitKey | app/services/visit_counter.py:12 | The key of a page starts with the prefix "visit_count:" and is longer than the page by exactly the prefix's length. |
| Services.PageOf | app/services/visit_counter.py:12 | A key names a page exactly when it starts with the prefix; the page is the rest of the key. |
| Services.PageOfVisitKey | app/services/visit_counter.py:12 | The page is recovered from its key. |
| Services.VisitKeyOfPage | app/services/visit_counter.py:12 | Every key with the prefix is the key of the page it names. |
| Services.VisitKeyInjective | app/services/visit_counter.py:12-15 | Two pages share a key exactly when they are the same page. |
| Services.VisitCounterService.constructor | app/services/visit_counter.py:7-9 | The service owns a fresh manager built from the setting. |
| Services.VisitCounterService.GetVisitCount | app/services/visit_counter.py:14-16 | Reads exactly the page's key: 0 when the page's node does not hold it, the parsed stored value otherwise, and ZeroDivision with no nodes. |
| Services.VisitCounterService.IncrementVisit | app/services/visit_counter.py:11-12 | Succeeds exactly when INCRBY by 1 succeeds on the page's key. On success the page's count afterwards is its count before plus one. The new stores are the old ones with the page's key on its routed node set to the text of the new count, so no other key anywhere changes. On failure no store changes. Every other page's count is unchanged. |

## Left out

- The local cache, pending-write buffer, flusher and evictor described for the service: none of them exist in the code modelled here.
- The HTTP endpoints (app/api/v1/endpoints/counter.py) are not part of this model. They unpack a pair from `get_visit_count`, which returns a single integer; the model follows the service.
- The Redis client library, connection pools and the network are not modelled. A node's server is its data, and transport failures are not modelled. `connection_pools` has the same keys as `redis_clients`, so the node table stands for both.
- `redis.ConnectionPool.from_url(node)` (app/core/redis_manager.py:17) raises ValueError during `__init__` for a node string without a redis://, rediss:// or unix:// scheme. The constructor here accepts every parsed node name, for example "localhost:6379", because URL parsing is part of the client library.
- `async`/`await` is modelled as sequential calls; the Redis calls in the code are synchronous.
- `print` of the node list is left out (output only).
- The class attribute `visit_counts` is left out: nothing reads or writes it.
- The settings module is not part of this model: the `REDIS_NODES` string is a constructor parameter.
- Python's salted string hash is an arbitrary function passed to the constructor; its algorithm is not modelled.
- Redis's WRONGTYPE error (a key holding a list, hash or set) is not modelled: every stored value is a string of bytes.
- RedisStore.DecodeAscii: a stored byte from 0x80 up counts as a failed decode. Valid multi-byte UTF-8 is therefore read as a ValueError, even where Python would decode it and `int()` might accept non-ASCII digits or whitespace.
- Numerals.PyIntValue: Python's limit of 4300 digits for `int()` on text is not modelled. Longer digit strings (possible only in data held before the manager starts) parse here but raise ValueError in Python.
