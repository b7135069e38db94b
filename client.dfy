/** The Redis-style hash commands of `redcached.Client`, emulated on a cache
    that can only get or set a whole value per key. Each hash is stored under
    its key as one JSON object document; every command fetches that document,
    decodes it (or treats a missing key as "no hash"), reads it or changes the
    decoded dictionary, and, when it changed it, encodes it and writes it back
    whole. */
module RedCached {
  import opened Dict
  import opened Json

  datatype Option<T> = None | Some(value: T)

  /** The client's status codes. */
  const SUCCESS := 1
  const FAILED := 0

  /** `sys.maxint` of a 64-bit Unix CPython 2: an integer beyond it is a
      `long`, and a `long` is not an instance of `int`. */
  const MaxInt := 0x7fff_ffff_ffff_ffff

  /** `isinstance(v, int)` under Python 2, judged by the integer's value:
      a value outside the `int` range can only be a `long`. */
  predicate IsInt(v: Val)
  {
    v.Int? && -MaxInt - 1 <= v.n <= MaxInt
  }

  /** `RedCachedException` and the one message the hash commands raise it with. */
  datatype RedCachedException = RedCachedException(message: string)

  const NotAnInteger := "value is not an integer or out of range"

  /** The outcome of a command that may raise `RedCachedException`. */
  datatype Result<T> = Ok(value: T) | Raise(exception: RedCachedException)

  class Client {
    /** The cache's key space, as the inherited `get` and `set` see it. */
    var store: map<string, Document>

    /** A client connected to servers that already hold `contents`. */
    constructor (contents: map<string, Document>)
      ensures store == contents
    {
      store := contents;
    }

    /** The inherited `get`: the stored document, or none for a missing key. */
    function Get(key: string): (r: Option<Document>)
      reads this
      ensures r.None? <==> key !in store
      ensures r.Some? ==> r.value == store[key]
    {
      if key in store then Some(store[key]) else None
    }

    /** The inherited `set`, which this model lets always succeed: it
        answers `True`, which equals `SUCCESS`. */
    method Set(key: string, doc: Document) returns (status: int)
      modifies this
      ensures store == old(store)[key := doc]
      ensures status == SUCCESS
    {
      store := store[key := doc];
      status := SUCCESS;
    }

    /** The document under `key`, if any, is a JSON object. Every hash
        command relies on this. */
    predicate HoldsHash(key: string)
      reads this
    {
      key in store ==> store[key].Object?
    }

    /** The dictionary `hset` and `hincrby` start from: the decoded hash, or
        an empty one when the key is missing. */
    function Fetch(key: string): (r: map<string, Val>)
      reads this
      requires HoldsHash(key)
      ensures key in store ==> r.Keys == KeysOf(store[key].members)
      ensures key !in store ==> r == map[]
    {
      if key in store then Loads(store[key]) else map[]
    }

    /** `hget`: the value of the last member named `field` in the stored
        object, or none when the key or the field is missing. */
    function HGet(key: string, field: string): (r: Option<Val>)
      reads this
      requires HoldsHash(key)
      ensures r.Some? <==> key in store && field in KeysOf(store[key].members)
      ensures r.Some? ==>
        exists i :: 0 <= i < |store[key].members| && store[key].members[i] == (field, r.value)
                    && forall j :: i < j < |store[key].members| ==> store[key].members[j].0 != field
    {
      match Get(key)
      case None => None
      case Some(doc) =>
        var val := Loads(doc);
        if field in val then
          FromItemsLastItem(doc.members, field);
          Some(val[field])
        else None
    }

    /** `hgetall`: the whole decoded hash, or none when the key is missing;
        it holds exactly the fields `hget` finds, with the values it finds. */
    function HGetAll(key: string): (r: Option<map<string, Val>>)
      reads this
      requires HoldsHash(key)
      ensures r.None? <==> key !in store
      ensures r.Some? ==> r.value.Keys == KeysOf(store[key].members)
      ensures forall f {:trigger HGet(key, f)} :: HGet(key, f) == if r.Some? && f in r.value then Some(r.value[f]) else None
    {
      match Get(key)
      case None => None
      case Some(doc) => Some(Loads(doc))
    }

    /** `hlen`: the number of distinct field names in the stored object, 0
        when the key is missing. */
    function HLen(key: string): (r: nat)
      reads this
      requires HoldsHash(key)
      ensures key !in store ==> r == 0
      ensures key in store ==> r == |KeysOf(store[key].members)| && r <= |store[key].members|
    {
      match Get(key)
      case None => 0
      case Some(doc) => |Loads(doc)|
    }

    /** `hexists`: whether the field is there, which is exactly when `hget`
        finds it. */
    function HExists(key: string, field: string): (r: bool)
      reads this
      requires HoldsHash(key)
      ensures r <==> HGet(key, field).Some?
      ensures r ==> key in store && field in KeysOf(store[key].members)
    {
      match Get(key)
      case None => false
      case Some(doc) => field in Loads(doc)
    }

    /** `hkeys`: none when the key is missing; otherwise each field exactly
        once, as many as `hlen` counts, in iteration order. */
    method HKeys(key: string) returns (r: Option<seq<string>>)
      requires HoldsHash(key)
      ensures r.None? <==> key !in store
      ensures r.Some? ==> |r.value| == HLen(key)
      ensures r.Some? ==> forall f :: f in r.value <==> HExists(key, f)
      ensures r.Some? ==> forall i, j :: 0 <= i < j < |r.value| ==> r.value[i] != r.value[j]
    {
      var jsonVal := Get(key);
      if jsonVal.None? {
        return None;
      }
      var items := IterItems(Loads(jsonVal.value));
      var ks := Keys(items);
      forall f ensures f in ks <==> f in KeysOf(items) {
        if f in KeysOf(items) {
          var i :| 0 <= i < |items| && items[i].0 == f;
          assert ks[i] == f;
        }
      }
      r := Some(ks);
    }

    /** `hvals`: none when the key is missing; otherwise the hash's values as
        a multiset (each value as often as fields hold it), as many as `hlen`
        counts, in iteration order. */
    method HVals(key: string) returns (r: Option<seq<Val>>)
      requires HoldsHash(key)
      ensures r.None? <==> key !in store
      ensures r.Some? ==> |r.value| == HLen(key)
      ensures r.Some? ==> forall v :: multiset(r.value)[v] == |Holding(HGetAll(key).value, v)|
    {
      var jsonVal := Get(key);
      if jsonVal.None? {
        return None;
      }
      var val := Loads(jsonVal.value);
      var items := IterItems(val);
      ItemsRebuild(val, items);
      forall v ensures multiset(Values(items))[v] == |Holding(val, v)| {
        ValueCount(items, v);
      }
      r := Some(Values(items));
    }

    /** `hset`: creates or overwrites one field, keeps every other field and
        every other key, and answers the status of the write. */
    method HSet(key: string, field: string, value: Val) returns (status: int)
      requires HoldsHash(key)
      modifies this
      ensures status == SUCCESS
      ensures key in store && store[key].Object? && store == old(store)[key := store[key]]
      ensures HGetAll(key) == Some(old(Fetch(key))[field := value])
      ensures HGet(key, field) == Some(value)
      ensures forall f :: f != field ==> HGet(key, f) == old(HGet(key, f))
    {
      var jsonVal := Get(key);
      var val: map<string, Val>;
      if jsonVal.Some? {
        val := Loads(jsonVal.value);
      } else {
        val := map[];
      }
      val := val[field := value];
      var doc := Dumps(val);
      if SUCCESS != 0 {
        status := Set(key, doc);
      } else {
        status := FAILED;
      }
    }

    /** `hdel`: removes those of the named fields that are present. It
        answers `SUCCESS` exactly when one of them was present, and only then
        writes back; the key stays even when its last field goes. */
    method HDel(key: string, fields: seq<string>) returns (ret: int)
      requires HoldsHash(key)
      modifies this
      ensures ret == SUCCESS || ret == FAILED
      ensures ret == SUCCESS <==> key in old(store) && exists i :: 0 <= i < |fields| && fields[i] in old(Fetch(key))
      ensures ret == FAILED ==> store == old(store)
      ensures ret == SUCCESS ==>
        key in store && store[key].Object? && store == old(store)[key := store[key]]
      ensures ret == SUCCESS ==> HGetAll(key) == Some(old(Fetch(key)) - set f | f in fields)
      ensures forall i :: 0 <= i < |fields| ==> fields[i] !in Fetch(key)
    {
      var jsonVal := Get(key);
      ret := FAILED;
      if jsonVal.Some? {
        var val := Loads(jsonVal.value);
        ghost var val0, named := val, {};
        for i := 0 to |fields|
          invariant store == old(store)
          invariant named == set f | f in fields[..i]
          invariant val == val0 - named
          invariant ret == SUCCESS || ret == FAILED
          invariant ret == SUCCESS <==> exists j :: 0 <= j < i && fields[j] in val0
        {
          if fields[i] in val {
            RemoveOneMore(val0, named, fields[i]);
            ret := SUCCESS;
            val := val - {fields[i]};
          } else {
            KeepOneMore(val0, named, fields[i]);
          }
          assert fields[..i + 1] == fields[..i] + [fields[i]];
          NamedOneMore(fields[..i], fields[i]);
          named := named + {fields[i]};
        }
        assert fields[..|fields|] == fields;
        if ret == SUCCESS {
          var doc := Dumps(val);
          var _ := Set(key, doc);
        }
      }
    }

    /** `hincrby`: raises when the increment, or the field's present value, is
        not an `int`, and then changes nothing; otherwise sets the field to its
        value plus the increment (to the increment when the field or the key
        is missing), keeps everything else, and answers the status of the
        write, not the new value. */
    method HIncrBy(key: string, field: string, increment: Val) returns (r: Result<int>)
      requires HoldsHash(key)
      modifies this
      ensures var prior := old(Fetch(key));
        r.Ok? <==> IsInt(increment) && (field in prior ==> IsInt(prior[field]))
      ensures r.Raise? ==> r.exception == RedCachedException(NotAnInteger) && store == old(store)
      ensures r.Ok? ==> r.value == SUCCESS
      ensures r.Ok? ==> key in store && store[key].Object? && store == old(store)[key := store[key]]
      ensures r.Ok? ==>
        var prior := old(Fetch(key));
        var sum := (if field in prior then prior[field].n else 0) + increment.n;
        && HGetAll(key) == Some(prior[field := Int(sum)])
        && HGet(key, field) == Some(Int(sum))
    {
      if !IsInt(increment) {
        return Raise(RedCachedException(NotAnInteger));
      }
      ghost var base := Fetch(key);
      var jsonVal := Get(key);
      var val: map<string, Val>;
      if jsonVal.Some? {
        val := Loads(jsonVal.value);
        if field in val {
          if !IsInt(val[field]) {
            return Raise(RedCachedException(NotAnInteger));
          }
          val := val[field := Int(val[field].n + increment.n)];
        } else {
          val := val[field := increment];
        }
      } else {
        val := map[field := increment];
      }
      ghost var sum := (if field in base then base[field].n else 0) + increment.n;
      assert val == base[field := Int(sum)];
      var doc := Dumps(val);
      if SUCCESS != 0 {
        var status := Set(key, doc);
        assert HGetAll(key) == Some(val);
        r := Ok(status);
      } else {
        r := Ok(FAILED);
      }
    }
  }
}
