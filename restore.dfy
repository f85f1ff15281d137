/** What a restore does to the remote store: the snapshot's readable entries
    are put one by one in the order the iteration yields them, and the first
    refused put ends the restore with no rollback. */
module Restore {
  import opened Errors
  import opened Bytes
  import opened Etcd
  import opened Sled
  import opened Policy

  /** The state a replay leaves behind: the remote store, the outcome, and
      every put it issued, in order. */
  datatype Replayed = Replayed(store: map<Key, Stored>, outcome: Outcome, attempted: seq<Pair>)

  /** The restore loop as a function: skip read errors, put every readable
      entry with no lease, stop at the first failed put. */
  function Replay(store: map<Key, Stored>, items: seq<ScanItem>, rejected: map<Key, Error>): Replayed
    decreases |items|
  {
    if items == [] then Replayed(store, Pass, [])
    else match items[0]
      case ReadError => Replay(store, items[1..], rejected)
      case Item(k, v) =>
        if k in rejected then Replayed(store, Fail(rejected[k]), [(k, v)])
        else
          var r := Replay(store[k := Stored(v, 0)], items[1..], rejected);
          r.(attempted := [(k, v)] + r.attempted)
  }

  /** What one iteration item contributes to the readable entries. */
  function PairsOf(item: ScanItem): seq<Pair> {
    match item
    case Item(k, v) => [(k, v)]
    case ReadError => []
  }

  /** One step of the replay, at position `i` of the iteration. */
  lemma ReplayAt(store: map<Key, Stored>, items: seq<ScanItem>, i: nat, rejected: map<Key, Error>)
    requires i < |items|
    ensures Replay(store, items[i..], rejected) ==
      match items[i]
      case ReadError => Replay(store, items[i + 1..], rejected)
      case Item(k, v) =>
        if k in rejected then Replayed(store, Fail(rejected[k]), [(k, v)])
        else
          var r := Replay(store[k := Stored(v, 0)], items[i + 1..], rejected);
          r.(attempted := [(k, v)] + r.attempted)
  {
    assert items[i..][0] == items[i] && items[i..][1..] == items[i + 1..];
  }

  /** The readable entries of an iteration, in iteration order. */
  function Readable(items: seq<ScanItem>): seq<Pair>
    decreases |items|
  {
    if items == [] then [] else PairsOf(items[0]) + Readable(items[1..])
  }

  /** Skipping read errors never adds entries. */
  lemma {:induction false} ReadableLength(items: seq<ScanItem>)
    ensures |Readable(items)| <= |items|
    decreases |items|
  {
    if items != [] {
      ReadableLength(items[1..]);
    }
  }

  /** The readable entries are exactly the entry items of the iteration:
      read errors are dropped and nothing else is. */
  lemma {:induction false} ReadableItems(items: seq<ScanItem>)
    ensures forall i :: 0 <= i < |items| && items[i].Item? ==> (items[i].key, items[i].value) in Readable(items)
    ensures forall p :: p in Readable(items) ==> Item(p.0, p.1) in items
    decreases |items|
  {
    if items != [] {
      ReadableItems(items[1..]);
      assert Readable(items) == PairsOf(items[0]) + Readable(items[1..]);
      forall i | 0 <= i < |items| && items[i].Item?
        ensures (items[i].key, items[i].value) in Readable(items)
      {
        if i > 0 {
          assert items[1..][i - 1] == items[i];
        }
      }
      forall p | p in Readable(items)
        ensures Item(p.0, p.1) in items
      {
        if p !in PairsOf(items[0]) {
          assert Item(p.0, p.1) in items[1..];
        }
      }
    }
  }

  /** The position of the first pair whose put fails (|w| if none is). */
  function FirstRejected(w: seq<Pair>, rejected: map<Key, Error>): (n: nat)
    ensures n <= |w|
    ensures forall j :: 0 <= j < n ==> w[j].0 !in rejected
    ensures n < |w| ==> w[n].0 in rejected
    decreases |w|
  {
    if w == [] || w[0].0 in rejected then 0 else 1 + FirstRejected(w[1..], rejected)
  }

  /** Successive lease-free puts of the pairs of `w`. */
  function Apply(s: map<Key, Stored>, w: seq<Pair>): map<Key, Stored>
    decreases |w|
  {
    if w == [] then s else Apply(s[w[0].0 := Stored(w[0].1, 0)], w[1..])
  }

  /** The entries of `m` as the remote store holds them after a plain put. */
  function Unleased(m: map<Key, Value>): map<Key, Stored> {
    map k | k in m :: Stored(m[k], 0)
  }

  /** The entries of a snapshot that can be read back. */
  function ReadableEntries(entries: map<Key, Value>, unreadable: set<Key>): map<Key, Value> {
    map k | k in entries && k !in unreadable :: entries[k]
  }

  /** The keys of `w` are strictly ascending. */
  predicate KeysAscending(w: seq<Pair>) {
    forall i, j :: 0 <= i < j < |w| ==> Below(w[i].0, w[j].0)
  }

  lemma {:induction false} ReadableConcat(a: seq<ScanItem>, b: seq<ScanItem>)
    ensures Readable(a + b) == Readable(a) + Readable(b)
    decreases |a|
  {
    if a == [] {
      assert a + b == b;
    } else {
      assert (a + b)[0] == a[0];
      assert (a + b)[1..] == a[1..] + b;
      ReadableConcat(a[1..], b);
      assert PairsOf(a[0]) + (Readable(a[1..]) + Readable(b)) == (PairsOf(a[0]) + Readable(a[1..])) + Readable(b);
    }
  }

  /** One put in front of later ones: the later puts override it on their keys. */
  lemma OverlayCons(s: map<Key, Stored>, k: Key, v: Value, rest: map<Key, Value>)
    ensures s[k := Stored(v, 0)] + Unleased(rest)
              == s + Unleased(if k in rest then rest else rest[k := v])
  {
    var lhs := s[k := Stored(v, 0)] + Unleased(rest);
    var rhs := s + Unleased(if k in rest then rest else rest[k := v]);
    forall x
      ensures x in lhs <==> x in rhs
      ensures x in lhs ==> lhs[x] == rhs[x]
    {
      if x == k {
      } else {
        assert x in rest <==> x in (if k in rest then rest else rest[k := v]);
      }
    }
  }

  /** Successive puts are an overlay of the store with the last value put
      under each key, lease dropped. */
  lemma {:induction false} ApplyIsOverlay(s: map<Key, Stored>, w: seq<Pair>)
    ensures Apply(s, w) == s + Unleased(Collect(w))
    decreases |w|
  {
    if w != [] {
      var k, v := w[0].0, w[0].1;
      ApplyIsOverlay(s[k := Stored(v, 0)], w[1..]);
      OverlayCons(s, k, v, Collect(w[1..]));
    }
  }

  /** What a replay of readable entries `w` must leave: the store after the puts
      before the first failed one, the outcome, and the puts attempted. */
  function FailFast(s: map<Key, Stored>, w: seq<Pair>, rejected: map<Key, Error>): Replayed {
    var n := FirstRejected(w, rejected);
    if n < |w| then Replayed(Apply(s, w[..n]), Fail(rejected[w[n].0]), w[..n + 1])
    else Replayed(Apply(s, w), Pass, w)
  }

  /** Fail-fast and non-atomic: if the put of the (n+1)-th readable entry is the
      first to fail, the store holds exactly the first n puts on top of
      its prior contents, that put was the last one attempted, and the error is
      returned; if none fails, every readable entry was put once, in order. */
  lemma {:induction false} ReplayIsFailFast(s: map<Key, Stored>, items: seq<ScanItem>, rejected: map<Key, Error>)
    ensures Replay(s, items, rejected) == FailFast(s, Readable(items), rejected)
    decreases |items|
  {
    if items != [] {
      match items[0]
      case ReadError =>
        ReplayIsFailFast(s, items[1..], rejected);
        assert Readable(items) == [] + Readable(items[1..]) == Readable(items[1..]);
      case Item(k, v) =>
        if k !in rejected {
          ReplayIsFailFast(s[k := Stored(v, 0)], items[1..], rejected);
          FailFastCons(s, k, v, Readable(items[1..]), rejected);
        }
    }
  }

  /** An accepted put in front of the rest. */
  lemma FailFastCons(s: map<Key, Stored>, k: Key, v: Value, w': seq<Pair>, rejected: map<Key, Error>)
    requires k !in rejected
    ensures var r' := FailFast(s[k := Stored(v, 0)], w', rejected);
      FailFast(s, [(k, v)] + w', rejected) == r'.(attempted := [(k, v)] + r'.attempted)
  {
    var w := [(k, v)] + w';
    var n' := FirstRejected(w', rejected);
    assert w[1..] == w';
    assert FirstRejected(w, rejected) == n' + 1;
    if n' < |w'| {
      assert w[..n' + 1][1..] == w'[..n'];
      assert w[..n' + 2] == [(k, v)] + w'[..n' + 1];
    }
  }

  /** Restoring twice leaves the remote store as restoring once did, and the
      second run fails, or succeeds, exactly as the first did. */
  lemma RestoreIdempotent(s: map<Key, Stored>, items: seq<ScanItem>, rejected: map<Key, Error>)
    ensures var r := Replay(s, items, rejected);
      Replay(r.store, items, rejected) == r
  {
    var w := Readable(items);
    var n := FirstRejected(w, rejected);
    var done := if n < |w| then w[..n] else w;
    ReplayIsFailFast(s, items, rejected);
    var once := Apply(s, done);
    ReplayIsFailFast(once, items, rejected);
    ApplyIsOverlay(s, done);
    ApplyIsOverlay(once, done);
    assert once + Unleased(Collect(done)) == once;
  }

  /** The readable entries among `keys`, in that order. */
  function ReadablePairs(keys: seq<Key>, entries: map<Key, Value>, unreadable: set<Key>): seq<Pair>
    requires forall i :: 0 <= i < |keys| ==> keys[i] in entries
  {
    Readable(ScanOf(keys, entries, unreadable))
  }

  /** One more key at the end of the visit adds its entry if it is readable. */
  lemma ReadablePairsSnoc(keys: seq<Key>, k: Key, entries: map<Key, Value>, unreadable: set<Key>)
    requires forall i :: 0 <= i < |keys| ==> keys[i] in entries
    requires k in entries
    ensures ReadablePairs(keys + [k], entries, unreadable) ==
      ReadablePairs(keys, entries, unreadable) + (if k in unreadable then [] else [(k, entries[k])])
  {
    var extended := keys + [k];
    assert extended[..|extended| - 1] == keys;
    ReadableConcat(ScanOf(keys, entries, unreadable), [ItemFor(k, entries, unreadable)]);
    assert Readable([ItemFor(k, entries, unreadable)]) == PairsOf(ItemFor(k, entries, unreadable)) + [];
  }

  lemma AscendingInit(keys: seq<Key>)
    requires keys != [] && Ascending(keys)
    ensures Ascending(keys[..|keys| - 1])
    ensures forall i :: 0 <= i < |keys| - 1 ==> Below(keys[i], keys[|keys| - 1])
  {
    var init := keys[..|keys| - 1];
    forall i, j | 0 <= i < j < |init| ensures Below(init[i], init[j]) {
      assert init[i] == keys[i] && init[j] == keys[j];
    }
  }

  /** Visiting ascending keys yields readable entries in ascending key order,
      drawn from those keys. */
  lemma {:induction false} ScanOfAscending(keys: seq<Key>, entries: map<Key, Value>, unreadable: set<Key>)
    requires Ascending(keys)
    requires forall i :: 0 <= i < |keys| ==> keys[i] in entries
    ensures var w := ReadablePairs(keys, entries, unreadable);
      && KeysAscending(w)
      && (forall j :: 0 <= j < |w| ==> w[j].0 in keys)
    decreases |keys|
  {
    if keys != [] {
      var init, k := keys[..|keys| - 1], keys[|keys| - 1];
      assert keys == init + [k];
      AscendingInit(keys);
      ScanOfAscending(init, entries, unreadable);
      ReadablePairsSnoc(init, k, entries, unreadable);
      var wi := ReadablePairs(init, entries, unreadable);
      var w := ReadablePairs(keys, entries, unreadable);
      if k !in unreadable {
        assert w == wi + [(k, entries[k])];
        forall i, j | 0 <= i < j < |w|
          ensures Below(w[i].0, w[j].0)
        {
          if j == |w| - 1 {
            var x :| 0 <= x < |init| && init[x] == wi[i].0;
            assert keys[x] == init[x];
          } else {
            assert w[i] == wi[i] && w[j] == wi[j];
          }
        }
      }
    }
  }

  /** The readable entries among the visited keys, one key later. */
  lemma VisitedSnoc(keys: seq<Key>, init: seq<Key>, k: Key, entries: map<Key, Value>, unreadable: set<Key>)
    requires keys == init + [k] && k in entries
    ensures (map x | x in keys && x in entries && x !in unreadable :: entries[x]) ==
      var before := map x | x in init && x in entries && x !in unreadable :: entries[x];
      if k in unreadable then before else before[k := entries[k]]
  {
    var want := map x | x in keys && x in entries && x !in unreadable :: entries[x];
    var before := map x | x in init && x in entries && x !in unreadable :: entries[x];
    forall x
      ensures x in want <==> x in before || (x == k && k !in unreadable)
    {
      assert x in keys <==> x in init || x == k;
    }
  }

  /** Visiting keys puts each readable one's entry, with its value, in the
      map the visit's pairs build. */
  lemma {:induction false} ScanOfCollect(keys: seq<Key>, entries: map<Key, Value>, unreadable: set<Key>)
    requires forall i :: 0 <= i < |keys| ==> keys[i] in entries
    ensures Collect(ReadablePairs(keys, entries, unreadable))
              == map k | k in keys && k in entries && k !in unreadable :: entries[k]
    decreases |keys|
  {
    if keys != [] {
      var init, k := keys[..|keys| - 1], keys[|keys| - 1];
      assert keys == init + [k];
      ScanOfCollect(init, entries, unreadable);
      ReadablePairsSnoc(init, k, entries, unreadable);
      var wi := ReadablePairs(init, entries, unreadable);
      VisitedSnoc(keys, init, k, entries, unreadable);
      if k in unreadable {
        assert ReadablePairs(keys, entries, unreadable) == wi + [] == wi;
      } else {
        assert ReadablePairs(keys, entries, unreadable) == wi + [(k, entries[k])];
        CollectSnoc(wi, (k, entries[k]));
      }
    }
  }

  /** A full iteration of a snapshot yields its readable entries in ascending
      key order, each exactly once with its value. */
  lemma ScanReadable(entries: map<Key, Value>, unreadable: set<Key>)
    ensures KeysAscending(Readable(Scan(entries, unreadable)))
    ensures Collect(Readable(Scan(entries, unreadable))) == ReadableEntries(entries, unreadable)
  {
    var keys := SortedKeys(entries.Keys);
    ScanOfAscending(keys, entries, unreadable);
    ScanOfCollect(keys, entries, unreadable);
    assert Readable(Scan(entries, unreadable)) == ReadablePairs(keys, entries, unreadable);
    assert (map k | k in keys && k in entries && k !in unreadable :: entries[k]) == ReadableEntries(entries, unreadable);
  }

  /** A replay none of whose readable puts fails puts every readable entry,
      in order, and passes. */
  lemma ReplayAllAccepted(s: map<Key, Stored>, items: seq<ScanItem>, rejected: map<Key, Error>)
    requires forall k :: k in Collect(Readable(items)) ==> k !in rejected
    ensures Replay(s, items, rejected) == Replayed(s + Unleased(Collect(Readable(items))), Pass, Readable(items))
  {
    var w := Readable(items);
    ReplayIsFailFast(s, items, rejected);
    assert FirstRejected(w, rejected) == |w| by {
      forall j | 0 <= j < |w|
        ensures w[j].0 !in rejected
      {
        assert w[j].0 in Collect(w);
      }
    }
    ApplyIsOverlay(s, w);
  }

  /** Whatever its outcome, a replay attempts a prefix of the readable
      entries and leaves every key outside them as it was. */
  lemma ReplayTouches(s: map<Key, Stored>, items: seq<ScanItem>, rejected: map<Key, Error>)
    ensures var r := Replay(s, items, rejected);
      && r.attempted <= Readable(items)
      && (forall k :: k !in Collect(Readable(items)) ==> (k in r.store <==> k in s))
      && (forall k :: k !in Collect(Readable(items)) && k in s ==> r.store[k] == s[k])
  {
    var w := Readable(items);
    ReplayIsFailFast(s, items, rejected);
    var n := FirstRejected(w, rejected);
    var done := if n < |w| then w[..n] else w;
    ApplyIsOverlay(s, done);
    forall k | k in Collect(done)
      ensures k in Collect(w)
    {
      var j :| 0 <= j < |done| && done[j].0 == k;
      assert w[j] == done[j];
    }
  }

  /** A prefix of pairs in ascending key order is in ascending key order. */
  lemma PrefixAscending(p: seq<Pair>, w: seq<Pair>)
    requires p <= w && KeysAscending(w)
    ensures KeysAscending(p)
  {
    forall i, j | 0 <= i < j < |p|
      ensures Below(p[i].0, p[j].0)
    {
      assert p[i] == w[i] && p[j] == w[j];
    }
  }

  /** Reading a snapshot none of whose entries is unreadable shows its
      entries in ascending key order, each once with its value. */
  lemma ReadFresh(m: map<Key, Value>)
    ensures KeysAscending(Readable(Scan(m, {})))
    ensures Collect(Readable(Scan(m, {}))) == m
  {
    ScanReadable(m, {});
    assert ReadableEntries(m, {}) == m;
  }

  /** A restore of a snapshot none of whose readable puts fails succeeds,
      puts every readable entry once in ascending key order, leaves each
      readable key holding the snapshot's value with no lease, and leaves every
      other remote key as it was. */
  lemma RestoreFromSnapshot(s: map<Key, Stored>, entries: map<Key, Value>, unreadable: set<Key>, rejected: map<Key, Error>)
    requires forall k :: k in entries && k !in unreadable ==> k !in rejected
    ensures var r := Replay(s, Scan(entries, unreadable), rejected);
      && r == Replayed(s + Unleased(ReadableEntries(entries, unreadable)), Pass, Readable(Scan(entries, unreadable)))
      && (forall k :: k in entries && k !in unreadable ==> k in r.store && r.store[k] == Stored(entries[k], 0))
      && (forall k :: k !in entries || k in unreadable ==> (k in r.store <==> k in s))
      && (forall k :: (k !in entries || k in unreadable) && k in s ==> r.store[k] == s[k])
  {
    var items := Scan(entries, unreadable);
    ScanReadable(entries, unreadable);
    ReplayAllAccepted(s, items, rejected);
  }

  /** Whatever the outcome, a restore issues its puts in ascending key order,
      as a prefix of the snapshot's readable entries, and leaves every remote
      key that is not a readable snapshot key as it was. */
  lemma RestoreTouchesOnlySnapshot(s: map<Key, Stored>, entries: map<Key, Value>, unreadable: set<Key>, rejected: map<Key, Error>)
    ensures var r := Replay(s, Scan(entries, unreadable), rejected);
      && r.attempted <= Readable(Scan(entries, unreadable))
      && KeysAscending(r.attempted)
      && (forall k :: k !in entries || k in unreadable ==> (k in r.store <==> k in s))
      && (forall k :: (k !in entries || k in unreadable) && k in s ==> r.store[k] == s[k])
  {
    var items := Scan(entries, unreadable);
    ScanReadable(entries, unreadable);
    ReplayTouches(s, items, rejected);
    PrefixAscending(Replay(s, items, rejected).attempted, Readable(items));
  }
}
