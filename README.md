# RedCached hash commands, modelled in Dafny

RedCached's `Client` (in `redcached/client.py`) adds Redis-style hash commands
to a memcached client. Memcached can only get or set a whole value per key, so
each hash is stored under its key as one JSON object. Every command follows the
same round trip:

1. fetch the document with the inherited `get`;
2. decode it with `json.loads`, or treat a missing key as "no hash";
3. read the decoded dictionary, or change it in place;
4. encode it with `json.dumps` and write it back whole with the inherited `set`.

The model has three modules:

- `Dict` (dict.dfy) models Python dictionaries as the commands use them. A
  dictionary is built from an ordered list of items, and a later item wins over
  an earlier item with the same key (`FromItems`). It is read back by iterating
  over its items (`IterItems`), in an order its contents do not determine.
- `Json` (json.dfy) models the codec at the level of a JSON object's
  name/value members (section 4 of RFC 8259). A `Document` is either an object
  or some other text stored through the plain `set`. `Loads` decodes an object
  and `Dumps` encodes a dictionary. `Dumps` is proved to round-trip:
  `Loads(Dumps(d)) == d`.
- `RedCached` (client.dfy) holds class `Client`, whose one field `store` is
  the cache's key space. The read commands (`hget`, `hgetall`, `hlen`,
  `hexists`) are functions of `store`. `hkeys` and `hvals` build a list by
  iterating, so they are methods that change nothing. The write commands
  (`hset`, `hdel`, `hincrby`) are methods that change the decoded dictionary
  step by step and write it back. `RedCachedException` is the error side of a
  `Result`.

The code runs under Python 2 (it calls `iteritems`). There, `isinstance(x, int)`
is false for a `long`. Every integer outside the range of `sys.maxint` is a
`long`, but a `long` can also hold a value inside that range (`5L`). `IsInt`
judges an integer by its value alone, with the `sys.maxint` of a 64-bit Unix
CPython 2, so `hincrby` rejects an increment, or a stored value, outside that
range. Stored values are not affected by the difference, because `json.loads`
returns an `int` for every number inside the range.

Where the code and its tests disagree, the model follows the code:

- `hdel` answers a 0/1 flag, not a count. After the last field is deleted it
  writes back an empty object, so `hgetall` then finds `{}`. The test at
  `tests/test_hashes.py:28-29` expects the key to be gone
  (`HashScenarios.DeleteLastField`).
- `hincrby` answers the status of the write, not the new value. The tests at
  `tests/test_hashes.py:43-50` expect the new value, for example 2 at line 43
  (`HashScenarios.IncrementField`).

The tests also exercise `hincrbyfloat` (`tests/test_hashes.py:52-59`), which
`client.py` does not define, so the model has no such command.

## Model

| member | source | states |
|---|---|---|
| `Dict.FromItems` | redcached/client.py:22 | The decoded dictionary's keys are exactly the names the object's members carry. |
| `Dict.FromItemsLastWins` | redcached/client.py:31-33 | A member that no later member overrides supplies its name's value in the decoded dictionary. |
| `Dict.FromItemsLastItem` | redcached/client.py:31-33 | Conversely, every decoded value is the value of the last member carrying that name. |
| `Dict.KeysOfBound` | redcached/client.py:57 | An object never has more distinct names than members, so `hlen` is at most the member count. |
| `Dict.DistinctKeysCount` | redcached/client.py:48-52 | An item list with no repeated key has exactly as many items as keys, so a listing of a dictionary is as long as the dictionary. |
| `Dict.IterItems` | redcached/client.py:45 | Iterating over a dictionary lists each entry exactly once: keys are distinct, they are exactly the dictionary's keys, each item is an entry, and the list is as long as the dictionary. |
| `Dict.ItemsRebuild` | redcached/client.py:22-26 | A list that gives every entry of `d` exactly once decodes back to `d`. |
| `Dict.ValueCount` | redcached/client.py:45 | Over a list without repeated keys, each value occurs among the listed values exactly as many times as the dictionary holds it. |
| `Json.Loads` | redcached/client.py:22 | `json.loads` of an object: its keys are the members' names, and there are at most as many as members. |
| `Json.Dumps` | redcached/client.py:26 | `json.dumps` emits one member per entry with no repeated name, and decoding the document gives back the same dictionary. |
| `RedCached.IsInt` | redcached/client.py:79-88 | `isinstance(v, int)` under Python 2, as `hincrby` applies it to the increment and to the stored value: an integer value inside the range of a 64-bit `sys.maxint`. |
| `RedCached.Client.Get` | redcached/client.py:20 | The inherited `get`, called the same way at the head of every hash command: it answers none exactly when the key is missing, and otherwise the document stored under it. |
| `RedCached.Client.Fetch` | redcached/client.py:20-24 | The dictionary `hset` and `hincrby` start from: for a stored key its keys are the names the object's members carry, and for a missing key it is empty. |
| `RedCached.Client.constructor` | redcached/client.py:16-17 | A new client sees whatever the servers already hold. |
| `RedCached.Client.Set` | redcached/client.py:26 | The inherited `set` replaces one key's document, leaves every other key alone, and answers `SUCCESS`. |
| `RedCached.Client.HGet` | redcached/client.py:28-34 | Finds a value exactly when the key exists and some member carries the field. The value is then that of the last member naming the field. |
| `RedCached.Client.HGetAll` | redcached/client.py:36-40 | Answers none exactly when the key is missing. Otherwise it answers a dictionary whose keys are the members' names and which agrees with `HGet` on every field. |
| `RedCached.Client.HLen` | redcached/client.py:54-58 | 0 for a missing key. Otherwise the number of distinct names in the object, at most its member count. |
| `RedCached.Client.HExists` | redcached/client.py:60-64 | True exactly when `HGet` finds the field, and so false for a missing key or field. |
| `RedCached.Client.HKeys` | redcached/client.py:48-52 | None exactly for a missing key. Otherwise lists each field exactly once: no repeats, membership equals `HExists`, and the length equals `HLen`. |
| `RedCached.Client.HVals` | redcached/client.py:42-46 | None exactly for a missing key. Otherwise the values as a multiset: each value occurs as many times as fields hold it, and the length equals `HLen`. |
| `RedCached.Client.HSet` | redcached/client.py:19-26 | Sets the field, creating `{field: value}` for a missing key, so `HGet` then finds the value. Every other field and every other key is unchanged, and the answer is the write status `SUCCESS`. The `FAILED` branch can never be taken. |
| `RedCached.Client.HDel` | redcached/client.py:66-77 | Answers `SUCCESS` exactly when the key exists and one of the named fields is present, and otherwise `FAILED` with the store unchanged. On success it removes exactly the named fields, leaves other keys alone and keeps the key even if its hash is now empty. Afterwards no named field is present. |
| `RedCached.Client.HIncrBy` | redcached/client.py:79-93 | Succeeds exactly when the increment is an `int` and the field is missing or holds an `int`. Otherwise it raises `value is not an integer or out of range` and the store is unchanged. On success the field becomes its old value plus the increment, or just the increment when the field or key is missing. Other fields and keys are unchanged, and the answer is the write status, not the new value. |
| `HashScenarios.FixtureLoads` | tests/test_hashes.py:7 | The object the tests start from decodes to `{'1': 1, '2': 2, '3': 3}`. |
| `HashScenarios.DeleteLastField` | tests/test_hashes.py:27-29 | Deleting a hash's last field answers `SUCCESS`, after which `hgetall` answers an empty hash where the test expects none. |
| `HashScenarios.IncrementField` | tests/test_hashes.py:41-44 | Incrementing field `1` (value 1) by 1 answers `SUCCESS` where the test expects 2, and `hget` then finds 2. |

## Left out

- The `memcache.Client` superclass, its server list and the network transport are not modelled. The client's view of the servers is the `store` map.
- RedCached.Client.Set: a write never fails in this model. A failed memcached `set` would leave the store unchanged and make `hset` and `hincrby` answer a false status. `hdel` ignores that status in any case.
- The JSON text itself, its characters and its escaping, is not modelled. Documents are lists of object members.
- Documents that are not JSON objects (a scalar stored with the plain `set`) are outside every hash command's precondition (`HoldsHash`). On such a document the code either fails inside the `json` library or inspects the scalar itself.
- The race between `get` and `set` is not modelled. Concurrent writers can lose each other's updates, and this model is sequential.
- `hmset`, `hmget`, `hsetnx`, `hincrbyfloat` and the string commands (`incr`, `incrby`, `incrbyfloat`, `getset`, `mset`, `msetnx`, `setnx`) are exercised by the tests, but their implementation is not part of this model. The float commands would also need floating point.
- Floats, booleans, null, arrays and nested objects are one opaque `Other` value, with no arithmetic.
- Python's `bool` counts as an `int` in `isinstance`. The model has no booleans, so `hincrby` treats a boolean like any other non-integer.
- A field that holds JSON null reads as Python `None` in `hget`, which looks the same as a missing field. The model distinguishes the two (`Some(Other)` against `None`).
- Field names are text and are compared as decoded text. In the code a field can be any hashable value, and `json.dumps` turns a non-string name into text. So after `hset('a', 1, v)`, `hget('a', 1)` finds nothing, because the stored name reads back as `u'1'`. A later `hset('a', 1, w)` then leaves both `1` and `u'1'` in the dictionary and writes two members named "1". Under Python 2, a non-ASCII byte-string field never equals the unicode name `json.loads` gives back. Non-string and non-ASCII byte-string fields are not modelled.
- RedCached.Client.HIncrBy: the increment is judged by its value only. `hincrby('a', '1', 5L)` raises in the code, but the model accepts an increment of 5 whatever its Python type. `MaxInt` assumes a 64-bit LP64 CPython 2: on 32-bit builds and on 64-bit Windows `sys.maxint` is 2**31-1. Stored values are unaffected, because `json.loads` returns an `int` for every in-range number.
- The order of `hkeys` and `hvals` follows Python 2's dictionary order. The model leaves that order open.
- `setup.py` (packaging) and `tests/conftest.py` (fixtures against a local server) are not modelled.
