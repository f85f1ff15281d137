/** The four operations of the tool, one method each: dump (remote to
    snapshot), restore (snapshot to remote), print (remote to console) and
    read (snapshot to console). Console output is the sequence of
    (key, value) pairs printed, one per `key => value` line. */
module Engine {
  import opened Errors
  import opened Bytes
  import opened Etcd
  import opened Sled
  import opened Policy
  import opened Restore

  /** The connection options an operation is given. The endpoint address is
      not modelled. */
  datatype EtcdOpts = EtcdOpts(user: Option<string>, password: Option<string>, prefix: Option<Key>)

  /** Connects with credentials only when both the user and the password are set. */
  method ConnectEtcd(etcd: EtcdClient, opts: EtcdOpts) returns (o: Outcome)
    modifies etcd`auth
    ensures etcd.connectError.Some? ==> o == Fail(etcd.connectError.value) && etcd.auth == old(etcd.auth)
    ensures etcd.connectError.None? ==> o == Pass && etcd.auth == AuthPair(opts.user, opts.password)
  {
    var auth: Option<(string, string)> := None;
    if opts.user.Some? && opts.password.Some? {
      auth := Some((opts.user.value, opts.password.value));
    }
    o := etcd.Connect(auth);
  }

  /** Fetches under the configured prefix if there is one, else everything. */
  method Fetch(etcd: EtcdClient, prefix: Option<Key>) returns (r: Result<seq<KeyValue>>)
    ensures etcd.fetchError.Some? ==> r == Err(etcd.fetchError.value)
    ensures etcd.fetchError.None? ==> r.Ok? && IsListing(r.value, etcd.store, Scope(prefix))
  {
    match prefix
    case Some(p) =>
      r := etcd.GetWithPrefix(p);
    case None =>
      r := etcd.All();
  }

  /** Dump: fetch, keep what the lease policy keeps, insert it into one batch
      (a later insert of a key overwrites an earlier one) and apply the batch
      on top of the snapshot as it was. Any failure before the batch is
      applied leaves the snapshot as it was. `fetched` is what the fetch
      returned. */
  method DumpData(etcd: EtcdClient, tree: Tree, opts: EtcdOpts, all: bool) returns (o: Outcome, ghost fetched: seq<KeyValue>)
    modifies etcd`auth, tree`entries, tree`unreadable
    ensures etcd.connectError.Some? ==> o == Fail(etcd.connectError.value) && etcd.auth == old(etcd.auth)
    ensures etcd.connectError.None? && tree.openError.Some? ==> o == Fail(tree.openError.value)
    ensures etcd.connectError.None? && tree.openError.None? && etcd.fetchError.Some? ==>
              o == Fail(etcd.fetchError.value)
    ensures etcd.connectError.None? && tree.openError.None? && etcd.fetchError.None? ==>
              && IsListing(fetched, etcd.store, Scope(opts.prefix))
              && (tree.applyError.Some? ==> o == Fail(tree.applyError.value))
              && (tree.applyError.None? ==> o == Pass)
    ensures etcd.connectError.None? ==> etcd.auth == AuthPair(opts.user, opts.password)
    ensures o.Fail? ==> tree.entries == old(tree.entries) && tree.unreadable == old(tree.unreadable)
    ensures o.Pass? ==>
              && etcd.connectError.None? && tree.openError.None? && etcd.fetchError.None? && tree.applyError.None?
              && tree.entries == old(tree.entries) + Collect(Selection(fetched, all))
              && tree.entries == old(tree.entries) + Retained(etcd.store, Scope(opts.prefix), all)
              && tree.unreadable == old(tree.unreadable) - Retained(etcd.store, Scope(opts.prefix), all).Keys
  {
    fetched := [];
    o := ConnectEtcd(etcd, opts);
    if o.Fail? {
      return;
    }
    o := tree.Open();
    if o.Fail? {
      return;
    }
    var r := Fetch(etcd, opts.prefix);
    if r.Err? {
      return Fail(r.error), fetched;
    }
    var kvs := r.value;
    fetched := kvs;
    var batch := BuildBatch(kvs, all);
    DumpSelects(kvs, etcd.store, Scope(opts.prefix), all);
    o := tree.ApplyBatch(batch);
  }

  /** The batch loop of dump: every kept entry inserted in fetch order. */
  method BuildBatch(kvs: seq<KeyValue>, all: bool) returns (batch: map<Key, Value>)
    ensures batch == Collect(Selection(kvs, all))
  {
    batch := map[];
    for i := 0 to |kvs|
      invariant batch == Collect(Selection(kvs[..i], all))
    {
      var kv := kvs[i];
      assert kvs[..i + 1] == kvs[..i] + [kv];
      SelectionSnoc(kvs[..i], kv, all);
      if all || kv.lease == 0 {
        CollectSnoc(Selection(kvs[..i], all), (kv.key, kv.value));
        batch := batch[kv.key := kv.value];
      } else {
        assert Selection(kvs[..i], all) + [] == Selection(kvs[..i], all);
      }
    }
    assert kvs[..|kvs|] == kvs;
  }

  /** Restore: walk the snapshot in ascending key order, skip entries that
      cannot be read, put every other one with no lease, and stop at the
      first failed put, leaving the earlier puts in place. */
  method RestoreData(etcd: EtcdClient, tree: Tree, opts: EtcdOpts) returns (o: Outcome)
    modifies etcd`auth, etcd`store, etcd`puts
    ensures etcd.connectError.Some? ==> o == Fail(etcd.connectError.value) && etcd.auth == old(etcd.auth)
    ensures etcd.connectError.None? && tree.openError.Some? ==> o == Fail(tree.openError.value)
    ensures etcd.connectError.None? ==> etcd.auth == AuthPair(opts.user, opts.password)
    ensures etcd.connectError.Some? || tree.openError.Some? ==>
              etcd.store == old(etcd.store) && etcd.puts == old(etcd.puts)
    ensures etcd.connectError.None? && tree.openError.None? ==>
              var r := Replay(old(etcd.store), Scan(tree.entries, tree.unreadable), etcd.rejected);
              o == r.outcome && etcd.store == r.store && etcd.puts == old(etcd.puts) + r.attempted
  {
    o := ConnectEtcd(etcd, opts);
    if o.Fail? {
      return;
    }
    o := tree.Open();
    if o.Fail? {
      return;
    }
    var items := tree.Iter();
    o := PutAll(etcd, items);
  }

  /** The put loop of restore: one put per readable item, in order, ending at
      the first failed put. */
  method PutAll(etcd: EtcdClient, items: seq<ScanItem>) returns (o: Outcome)
    modifies etcd`store, etcd`puts
    ensures var r := Replay(old(etcd.store), items, etcd.rejected);
              o == r.outcome && etcd.store == r.store && etcd.puts == old(etcd.puts) + r.attempted
  {
    ghost var full := Replay(etcd.store, items, etcd.rejected);
    ghost var done: seq<Pair> := [];
    for i := 0 to |items|
      invariant etcd.puts == old(etcd.puts) + done
      invariant var rest := Replay(etcd.store, items[i..], etcd.rejected);
        full == rest.(attempted := done + rest.attempted)
    {
      ReplayAt(etcd.store, items, i, etcd.rejected);
      match items[i]
      case ReadError =>
      case Item(key, value) =>
        o := etcd.Put(key, value);
        if o.Fail? {
          return;
        }
        done := done + [(key, value)];
    }
    assert items[|items|..] == [];
    o := Pass;
  }

  /** Print: the same fetch and lease policy as dump, each kept entry shown in
      fetch order; neither store changes. */
  method PrintData(etcd: EtcdClient, opts: EtcdOpts, all: bool) returns (r: Result<seq<Pair>>, ghost fetched: seq<KeyValue>)
    modifies etcd`auth
    ensures etcd.store == old(etcd.store)
    ensures etcd.connectError.None? ==> etcd.auth == AuthPair(opts.user, opts.password)
    ensures etcd.connectError.Some? ==> r == Err(etcd.connectError.value) && etcd.auth == old(etcd.auth)
    ensures etcd.connectError.None? && etcd.fetchError.Some? ==> r == Err(etcd.fetchError.value)
    ensures etcd.connectError.None? && etcd.fetchError.None? ==>
              IsListing(fetched, etcd.store, Scope(opts.prefix)) && r == Ok(Selection(fetched, all))
  {
    fetched := [];
    var c := ConnectEtcd(etcd, opts);
    if c.Fail? {
      return Err(c.error), fetched;
    }
    var f := Fetch(etcd, opts.prefix);
    if f.Err? {
      return Err(f.error), fetched;
    }
    var kvs := f.value;
    fetched := kvs;
    var out := ShowEntries(kvs, all);
    return Ok(out), fetched;
  }

  /** The output loop of print: every kept entry, in fetch order. */
  method ShowEntries(kvs: seq<KeyValue>, all: bool) returns (out: seq<Pair>)
    ensures out == Selection(kvs, all)
  {
    out := [];
    for i := 0 to |kvs|
      invariant out == Selection(kvs[..i], all)
    {
      var kv := kvs[i];
      assert kvs[..i + 1] == kvs[..i] + [kv];
      SelectionSnoc(kvs[..i], kv, all);
      if all || kv.lease == 0 {
        out := out + [(kv.key, kv.value)];
      } else {
        assert out + [] == out;
      }
    }
    assert kvs[..|kvs|] == kvs;
  }

  /** Read: every readable snapshot entry, in ascending key order; nothing
      changes. */
  method ReadData(tree: Tree) returns (r: Result<seq<Pair>>)
    ensures tree.openError.Some? ==> r == Err(tree.openError.value)
    ensures tree.openError.None? ==> r == Ok(Readable(Scan(tree.entries, tree.unreadable)))
  {
    var o := tree.Open();
    if o.Fail? {
      return Err(o.error);
    }
    var items := tree.Iter();
    var out: seq<Pair> := [];
    for i := 0 to |items|
      invariant out == Readable(items[..i])
    {
      assert items[..i + 1] == items[..i] + [items[i]];
      ReadableConcat(items[..i], [items[i]]);
      assert Readable([items[i]]) == PairsOf(items[i]) + [];
      match items[i]
      case ReadError =>
      case Item(key, value) =>
        out := out + [(key, value)];
    }
    assert items[..|items|] == items;
    return Ok(out);
  }

  /** Dump onto an empty snapshot, then read: the entries shown are in
      ascending key order and are exactly the store's entries in scope that the
      lease policy keeps, whatever order the store listed them in. */
  lemma DumpThenRead(kvs: seq<KeyValue>, store: map<Key, Stored>, req: Request, all: bool)
    requires IsListing(kvs, store, req)
    ensures var shown := Readable(Scan(map[] + Collect(Selection(kvs, all)), {}));
      KeysAscending(shown) && Collect(shown) == Retained(store, req, all)
  {
    var snapshot := Collect(Selection(kvs, all));
    assert map[] + snapshot == snapshot;
    ReadFresh(snapshot);
    DumpSelects(kvs, store, req, all);
  }
}
