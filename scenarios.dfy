/** Concrete runs of dump and restore over small stores. Keys and values are
    one-byte strings: "x" is [120], "1" is [49], and so on. */
module Scenarios {
  import opened Errors
  import opened Bytes
  import opened Etcd
  import opened Sled
  import opened Policy
  import opened Restore

  const X: Key := [120]
  const Y: Key := [121]
  const A: Key := [97]
  const B: Key := [98]
  const C: Key := [99]
  const One: Value := [49]
  const Two: Value := [50]
  const Three: Value := [51]

  /** The remote store {"x": ("1", lease 0), "y": ("2", lease 7)}. */
  function LeasedRemote(): map<Key, Stored> {
    map[X := Stored(One, 0), Y := Stored(Two, 7)]
  }

  /** The reference selection of that store under each policy. */
  lemma RetainedOfLeasedRemote()
    ensures Retained(LeasedRemote(), Everything, false) == map[X := One]
    ensures Retained(LeasedRemote(), Everything, true) == map[X := One, Y := Two]
  {
    var remote := LeasedRemote();
    assert X != Y by { assert X[0] != Y[0]; }
    assert remote.Keys == {X, Y};
    var permanent := Retained(remote, Everything, false);
    assert permanent.Keys == {X};
    var both := Retained(remote, Everything, true);
    assert both.Keys == {X, Y};
    assert both[X] == One && both[Y] == Two;
  }

  /** However the store lists its two entries, a default dump keeps only the
      permanent one and a dump with `all` keeps both, lease dropped. */
  lemma DumpOfLeasedRemote(kvs: seq<KeyValue>)
    requires IsListing(kvs, LeasedRemote(), Everything)
    ensures Collect(Selection(kvs, false)) == map[X := One]
    ensures Collect(Selection(kvs, true)) == map[X := One, Y := Two]
  {
    DumpSelects(kvs, LeasedRemote(), Everything, false);
    DumpSelects(kvs, LeasedRemote(), Everything, true);
    RetainedOfLeasedRemote();
  }

  /** Restoring the snapshot {"x": "1", "y": "2"} into an empty store puts
      "x" then "y" and leaves both keys without a lease. */
  lemma RestoreIntoEmptyRemote()
    ensures Replay(map[], Scan(map[X := One, Y := Two], {}), map[])
              == Replayed(map[X := Stored(One, 0), Y := Stored(Two, 0)], Pass, [(X, One), (Y, Two)])
  {
    var snapshot := map[X := One, Y := Two];
    assert Below(X, Y);
    assert snapshot.Keys == {X, Y};
    AscendingUnique([X, Y], SortedKeys(snapshot.Keys));
    var keys := [X, Y];
    assert keys[..1] == [X] && [X][..0] == [];
    var items := [Item(X, One), Item(Y, Two)];
    assert X != Y by { assert X[0] != Y[0]; }
    assert SortedKeys(snapshot.Keys) == keys;
    assert ScanOf([X], snapshot, {}) == [Item(X, One)];
    assert ScanOf(keys, snapshot, {}) == ScanOf([X], snapshot, {}) + [Item(Y, Two)];
    assert Scan(snapshot, {}) == items;
    RestoreFromSnapshot(map[], snapshot, {}, map[]);
    assert items[1..] == [Item(Y, Two)] && [Item(Y, Two)][1..] == [];
    assert Readable([Item(Y, Two)]) == [(Y, Two)] + Readable([]);
    assert Readable(items) == [(X, One)] + Readable([Item(Y, Two)]);
    assert map[] + Unleased(ReadableEntries(snapshot, {})) == map[X := Stored(One, 0), Y := Stored(Two, 0)];
  }

  /** A snapshot of three entries whose second put fails with a transport
      error: only the first entry reaches the store, the third is never
      attempted, and that put's error is returned. */
  lemma RestoreStopsAtRefusedPut()
    ensures Replay(map[], Scan(map[A := One, B := Two, C := Three], {}), map[B := TransportError])
              == Replayed(map[A := Stored(One, 0)], Fail(TransportError), [(A, One), (B, Two)])
  {
    ScanOfThree();
    var items := [Item(A, One), Item(B, Two), Item(C, Three)];
    assert items[1..] == [Item(B, Two), Item(C, Three)];
    var s1 := map[][A := Stored(One, 0)];
    assert Replay(s1, items[1..], map[B := TransportError]) == Replayed(s1, Fail(TransportError), [(B, Two)]);
    assert s1 == map[A := Stored(One, 0)];
  }

  /** The snapshot {"a": "1", "b": "2", "c": "3"} is visited a, b, c. */
  lemma ScanOfThree()
    ensures Scan(map[A := One, B := Two, C := Three], {}) == [Item(A, One), Item(B, Two), Item(C, Three)]
  {
    var snapshot := map[A := One, B := Two, C := Three];
    assert Below(A, B) && Below(B, C) && Below(A, C);
    assert snapshot.Keys == {A, B, C};
    AscendingUnique([A, B, C], SortedKeys(snapshot.Keys));
    var keys := [A, B, C];
    assert keys[..2] == [A, B] && [A, B][..1] == [A] && [A][..0] == [];
    var items := [Item(A, One), Item(B, Two), Item(C, Three)];
    assert A != B && B != C && A != C by { assert A[0] != B[0] && B[0] != C[0] && A[0] != C[0]; }
    assert SortedKeys(snapshot.Keys) == keys;
    assert ScanOf([A], snapshot, {}) == [Item(A, One)];
    assert ScanOf([A, B], snapshot, {}) == ScanOf([A], snapshot, {}) + [Item(B, Two)];
    assert ScanOf(keys, snapshot, {}) == ScanOf([A, B], snapshot, {}) + [Item(C, Three)];
    assert Scan(snapshot, {}) == items;
  }
}
