/** The remote coordination store as seen through its client: a map from key to
    (value, lease), bulk reads of the whole keyspace or of one prefix, and single
    lease-free writes. The transport is not modelled; its failures are oracles. */
module Etcd {
  import opened Errors
  import opened Bytes

  /** One entry as a range read returns it. Lease 0 means "no lease attached". */
  datatype KeyValue = KeyValue(key: Key, value: Value, lease: int)

  /** What the store holds under a key. */
  datatype Stored = Stored(value: Value, lease: int)

  /** The scope of a range read. */
  datatype Request = Everything | WithPrefix(prefix: Key)

  predicate Matches(req: Request, k: Key) {
    match req
    case Everything => true
    case WithPrefix(p) => IsPrefix(p, k)
  }

  /** `kvs` lists, in some order and once each, exactly the entries of `store`
      that `req` selects. */
  predicate IsListing(kvs: seq<KeyValue>, store: map<Key, Stored>, req: Request) {
    && (forall i :: 0 <= i < |kvs| ==>
          kvs[i].key in store && Matches(req, kvs[i].key)
          && store[kvs[i].key] == Stored(kvs[i].value, kvs[i].lease))
    && (forall i, j :: 0 <= i < j < |kvs| ==> kvs[i].key != kvs[j].key)
    && (forall k :: k in store && Matches(req, k) ==> exists i :: 0 <= i < |kvs| && kvs[i].key == k)
  }

  /** A client connected to the remote store. Besides the store's contents it
      carries the oracles that decide the outcome of the foreign calls. */
  class EtcdClient {
    var store: map<Key, Stored>
    /** Keys whose put fails, each with the error that put returns. */
    var rejected: map<Key, Error>
    /** The failure, if any, of every range read. */
    var fetchError: Option<Error>
    /** The failure, if any, of establishing the connection. */
    var connectError: Option<Error>
    /** The credentials the connection was made with. */
    var auth: Option<(string, string)>
    /** Every put issued, in order. */
    ghost var puts: seq<(Key, Value)>

    constructor (store: map<Key, Stored>, rejected: map<Key, Error>, fetchError: Option<Error>, connectError: Option<Error>)
      ensures this.store == store && this.rejected == rejected
      ensures this.fetchError == fetchError && this.connectError == connectError
      ensures auth == None && puts == []
    {
      this.store := store;
      this.rejected := rejected;
      this.fetchError := fetchError;
      this.connectError := connectError;
      auth := None;
      puts := [];
    }

    /** Opens the connection with the given credentials (`EtcdClient::new`). */
    method Connect(credentials: Option<(string, string)>) returns (o: Outcome)
      modifies this`auth
      ensures connectError.Some? ==> o == Fail(connectError.value) && auth == old(auth)
      ensures connectError.None? ==> o == Pass && auth == credentials
    {
      if connectError.Some? {
        return Fail(connectError.value);
      }
      auth := credentials;
      return Pass;
    }

    /** A range read. The store decides the order of the entries; the model
        leaves it open by choosing the next key arbitrarily. */
    method Range(req: Request) returns (r: Result<seq<KeyValue>>)
      ensures fetchError.Some? ==> r == Err(fetchError.value)
      ensures fetchError.None? ==> r.Ok? && IsListing(r.value, store, req)
    {
      if fetchError.Some? {
        return Err(fetchError.value);
      }
      var pending := set k | k in store && Matches(req, k);
      var out: seq<KeyValue> := [];
      while pending != {}
        invariant forall k :: k in pending ==> k in store && Matches(req, k)
        invariant forall i :: 0 <= i < |out| ==>
          out[i].key in store && Matches(req, out[i].key)
          && store[out[i].key] == Stored(out[i].value, out[i].lease)
          && out[i].key !in pending
        invariant forall i, j :: 0 <= i < j < |out| ==> out[i].key != out[j].key
        invariant forall k :: k in store && Matches(req, k) && k !in pending ==>
          exists i :: 0 <= i < |out| && out[i].key == k
        decreases |pending|
      {
        var k :| k in pending;
        ghost var before := out;
        out := out + [KeyValue(k, store[k].value, store[k].lease)];
        pending := pending - {k};
        forall x | x in store && Matches(req, x) && x !in pending
          ensures exists i :: 0 <= i < |out| && out[i].key == x
        {
          if x == k {
            assert out[|out| - 1].key == x;
          } else {
            var i :| 0 <= i < |before| && before[i].key == x;
            assert out[i] == before[i];
          }
        }
      }
      return Ok(out);
    }

    /** Every entry of the store (`all`). */
    method All() returns (r: Result<seq<KeyValue>>)
      ensures fetchError.Some? ==> r == Err(fetchError.value)
      ensures fetchError.None? ==> r.Ok? && IsListing(r.value, store, Everything)
    {
      r := Range(Everything);
    }

    /** Every entry whose key starts with `p` (`get_with_prefix`). */
    method GetWithPrefix(p: Key) returns (r: Result<seq<KeyValue>>)
      ensures fetchError.Some? ==> r == Err(fetchError.value)
      ensures fetchError.None? ==> r.Ok? && IsListing(r.value, store, WithPrefix(p))
    {
      r := Range(WithPrefix(p));
    }

    /** A plain put: writes `value` under `key` with no lease attached, or
        fails with the error the store gives for `key` and changes nothing. */
    method Put(key: Key, value: Value) returns (o: Outcome)
      modifies this`store, this`puts
      ensures puts == old(puts) + [(key, value)]
      ensures key in rejected ==> o == Fail(rejected[key]) && store == old(store)
      ensures key !in rejected ==> o == Pass && store == old(store)[key := Stored(value, 0)]
    {
      puts := puts + [(key, value)];
      if key in rejected {
        return Fail(rejected[key]);
      }
      store := store[key := Stored(value, 0)];
      return Pass;
    }
  }
}
