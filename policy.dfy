/** The decisions the engine makes about which remote entries cross into the
    snapshot or onto the console, and with which credentials it connects. */
module Policy {
  import opened Errors
  import opened Bytes
  import opened Etcd

  /** A (key, value) pair: one line of output, one put, one batch insert. */
  type Pair = (Key, Value)

  /** Credentials are used only when both the user and the password are given. */
  function AuthPair(user: Option<string>, password: Option<string>): (auth: Option<(string, string)>)
    ensures auth.Some? <==> user.Some? && password.Some?
    ensures auth.Some? ==> auth.value.0 == user.value && auth.value.1 == password.value
  {
    if user.Some? && password.Some? then Some((user.value, password.value)) else None
  }

  /** The range read a configured prefix calls for. */
  function Scope(prefix: Option<Key>): (req: Request)
    ensures forall k :: Matches(req, k) <==> prefix.None? || IsPrefix(prefix.value, k)
  {
    if prefix.Some? then WithPrefix(prefix.value) else Everything
  }

  /** The lease-inclusion policy: leased entries only with `all`. */
  predicate Keep(kv: KeyValue, all: bool): (kept: bool)
    ensures kv.lease == 0 ==> kept
    ensures all ==> kept
    ensures !all && kv.lease != 0 ==> !kept
  {
    all || kv.lease == 0
  }

  /** The kept entries of a fetch, as (key, value) pairs, in fetch order. */
  function Selection(kvs: seq<KeyValue>, all: bool): (r: seq<Pair>)
    ensures |r| <= |kvs|
    ensures forall kv :: kv in kvs && Keep(kv, all) ==> (kv.key, kv.value) in r
    ensures forall p :: p in r ==> exists kv :: kv in kvs && Keep(kv, all) && p == (kv.key, kv.value)
  {
    if kvs == [] then []
    else
      var init, last := kvs[..|kvs| - 1], kvs[|kvs| - 1];
      assert kvs == init + [last];
      Selection(init, all) + (if Keep(last, all) then [(last.key, last.value)] else [])
  }

  /** The map a sequence of inserts builds when a later insert of a key
      overwrites an earlier one. */
  function Collect(w: seq<Pair>): (m: map<Key, Value>)
    ensures forall k :: k in m <==> exists j :: 0 <= j < |w| && w[j].0 == k
  {
    if w == [] then map[]
    else
      var rest := Collect(w[1..]);
      assert forall j :: 1 <= j < |w| ==> w[j] == w[1..][j - 1];
      if w[0].0 in rest then rest else rest[w[0].0 := w[0].1]
  }

  /** The reference definition of what a dump keeps: every entry of the store
      in scope, leased ones only with `all`, lease dropped. */
  function Retained(store: map<Key, Stored>, req: Request, all: bool): (m: map<Key, Value>)
  {
    map k | k in store && Matches(req, k) && (all || store[k].lease == 0) :: store[k].value
  }

  /** One more fetched entry adds its pair at the end if it is kept. */
  lemma SelectionSnoc(kvs: seq<KeyValue>, kv: KeyValue, all: bool)
    ensures Selection(kvs + [kv], all) == Selection(kvs, all) + (if Keep(kv, all) then [(kv.key, kv.value)] else [])
  {
    assert (kvs + [kv])[..|kvs|] == kvs;
  }

  /** Inserting one more pair overwrites its key and keeps everything else. */
  lemma {:induction false} CollectSnoc(w: seq<Pair>, p: Pair)
    ensures Collect(w + [p]) == Collect(w)[p.0 := p.1]
    decreases |w|
  {
    if w != [] {
      assert (w + [p])[1..] == w[1..] + [p];
      CollectSnoc(w[1..], p);
    }
  }

  /** The last pair with a given key is the one the map holds. */
  lemma {:induction false} CollectLast(w: seq<Pair>, j: nat)
    requires j < |w|
    requires forall j' :: j < j' < |w| ==> w[j'].0 != w[j].0
    ensures w[j].0 in Collect(w) && Collect(w)[w[j].0] == w[j].1
    decreases |w|
  {
    if j > 0 {
      CollectLast(w[1..], j - 1);
    }
  }

  /** A key is in the dump batch iff some fetched entry with that key is kept. */
  lemma {:induction false} BatchKeys(kvs: seq<KeyValue>, all: bool, k: Key)
    ensures k in Collect(Selection(kvs, all)) <==>
              exists i :: 0 <= i < |kvs| && kvs[i].key == k && Keep(kvs[i], all)
  {
    var sel := Selection(kvs, all);
    if k in Collect(sel) {
      var j :| 0 <= j < |sel| && sel[j].0 == k;
      assert sel[j] in sel;
      var kv :| kv in kvs && Keep(kv, all) && sel[j] == (kv.key, kv.value);
      var i :| 0 <= i < |kvs| && kvs[i] == kv;
      assert kvs[i].key == k;
    }
    if exists i :: 0 <= i < |kvs| && kvs[i].key == k && Keep(kvs[i], all) {
      var i :| 0 <= i < |kvs| && kvs[i].key == k && Keep(kvs[i], all);
      assert kvs[i] in kvs;
      var j :| 0 <= j < |sel| && sel[j] == (kvs[i].key, kvs[i].value);
      assert sel[j].0 == k;
    }
  }

  /** Among fetched entries with the same key, the last kept one wins. */
  lemma {:induction false} BatchLastKeptWins(kvs: seq<KeyValue>, all: bool, i: nat)
    requires i < |kvs| && Keep(kvs[i], all)
    requires forall j :: i < j < |kvs| && Keep(kvs[j], all) ==> kvs[j].key != kvs[i].key
    ensures kvs[i].key in Collect(Selection(kvs, all))
    ensures Collect(Selection(kvs, all))[kvs[i].key] == kvs[i].value
    decreases |kvs|
  {
    var init, last := kvs[..|kvs| - 1], kvs[|kvs| - 1];
    var sel := Selection(init, all);
    assert kvs == init + [last];
    SelectionSnoc(init, last, all);
    if i == |kvs| - 1 {
      CollectSnoc(sel, (last.key, last.value));
    } else {
      BatchLastKeptWins(init, all, i);
      if Keep(last, all) {
        CollectSnoc(sel, (last.key, last.value));
      } else {
        assert sel + [] == sel;
      }
    }
  }

  /** A dump of a complete listing keeps exactly the reference selection,
      whatever order the store listed the entries in. */
  lemma DumpSelects(kvs: seq<KeyValue>, store: map<Key, Stored>, req: Request, all: bool)
    requires IsListing(kvs, store, req)
    ensures Collect(Selection(kvs, all)) == Retained(store, req, all)
  {
    var batch, want := Collect(Selection(kvs, all)), Retained(store, req, all);
    forall k
      ensures k in batch <==> k in want
      ensures k in batch ==> batch[k] == want[k]
    {
      BatchKeys(kvs, all, k);
      if k in want {
        var i :| 0 <= i < |kvs| && kvs[i].key == k;
        BatchLastKeptWins(kvs, all, i);
      }
    }
    assert batch == want;
  }

  /** The per-entry view of a dump onto an existing snapshot `prior`: a kept
      fetched entry lands with its value, a dropped one leaves its key as it
      was; with the default policy a leased entry is never added. */
  lemma DumpEntry(prior: map<Key, Value>, kvs: seq<KeyValue>, store: map<Key, Stored>, req: Request, all: bool, i: nat)
    requires IsListing(kvs, store, req) && i < |kvs|
    ensures var after := prior + Collect(Selection(kvs, all));
      && (Keep(kvs[i], all) ==> kvs[i].key in after && after[kvs[i].key] == kvs[i].value)
      && (!Keep(kvs[i], all) ==> (kvs[i].key in after <==> kvs[i].key in prior))
      && (!Keep(kvs[i], all) && kvs[i].key in prior ==> after[kvs[i].key] == prior[kvs[i].key])
  {
    DumpSelects(kvs, store, req, all);
  }

  /** Onto an empty snapshot, a fetched entry is stored with its value iff the
      policy keeps it; every stored key lies within the requested scope. */
  lemma DumpFresh(kvs: seq<KeyValue>, store: map<Key, Stored>, req: Request, all: bool)
    requires IsListing(kvs, store, req)
    ensures forall i :: 0 <= i < |kvs| ==>
              (kvs[i].key in Collect(Selection(kvs, all)) && Collect(Selection(kvs, all))[kvs[i].key] == kvs[i].value
               <==> all || kvs[i].lease == 0)
    ensures forall k :: k in Collect(Selection(kvs, all)) ==> Matches(req, k)
  {
    DumpSelects(kvs, store, req, all);
  }
}
