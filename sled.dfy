/** The local snapshot: an ordered embedded key-value tree. Its on-disk layout
    is not modelled; what matters is that a batch is applied as one overlay and
    that iteration yields the keys in ascending byte order, with an error item
    in place of every entry that cannot be read. */
module Sled {
  import opened Errors
  import opened Bytes

  /** One step of an iteration over the tree: an entry, or a read error. */
  datatype ScanItem = Item(key: Key, value: Value) | ReadError

  function ItemFor(k: Key, entries: map<Key, Value>, unreadable: set<Key>): ScanItem
    requires k in entries
  {
    if k in unreadable then ReadError else Item(k, entries[k])
  }

  /** The items an iteration yields when it visits `keys` in that order. */
  function ScanOf(keys: seq<Key>, entries: map<Key, Value>, unreadable: set<Key>): (r: seq<ScanItem>)
    requires forall i :: 0 <= i < |keys| ==> keys[i] in entries
    ensures |r| == |keys|
  {
    if keys == [] then []
    else ScanOf(keys[..|keys| - 1], entries, unreadable) + [ItemFor(keys[|keys| - 1], entries, unreadable)]
  }

  /** A full iteration: every key of the tree, in ascending order. */
  ghost function Scan(entries: map<Key, Value>, unreadable: set<Key>): seq<ScanItem> {
    ScanOf(SortedKeys(entries.Keys), entries, unreadable)
  }

  /** The snapshot tree at one directory. */
  class Tree {
    var entries: map<Key, Value>
    /** Keys whose stored entry cannot be read back. */
    var unreadable: set<Key>
    /** The failure, if any, of opening the tree. */
    var openError: Option<Error>
    /** The failure, if any, of applying a batch. */
    var applyError: Option<Error>

    constructor (entries: map<Key, Value>, unreadable: set<Key>, openError: Option<Error>, applyError: Option<Error>)
      ensures this.entries == entries && this.unreadable == unreadable
      ensures this.openError == openError && this.applyError == applyError
    {
      this.entries := entries;
      this.unreadable := unreadable;
      this.openError := openError;
      this.applyError := applyError;
    }

    /** Opens the existing tree, or creates an empty one; never clears it. */
    method Open() returns (o: Outcome)
      ensures o == if openError.Some? then Fail(openError.value) else Pass
    {
      o := if openError.Some? then Fail(openError.value) else Pass;
    }

    /** Applies a batch atomically: either every insert lands, overwriting what
        was under its key, or nothing changes. */
    method ApplyBatch(batch: map<Key, Value>) returns (o: Outcome)
      modifies this`entries, this`unreadable
      ensures applyError.Some? ==>
                o == Fail(applyError.value) && entries == old(entries) && unreadable == old(unreadable)
      ensures applyError.None? ==>
                o == Pass && entries == old(entries) + batch && unreadable == old(unreadable) - batch.Keys
    {
      if applyError.Some? {
        return Fail(applyError.value);
      }
      entries := entries + batch;
      unreadable := unreadable - batch.Keys;
      return Pass;
    }

    /** A full iteration, in ascending key order. */
    method Iter() returns (items: seq<ScanItem>)
      ensures items == Scan(entries, unreadable)
    {
      var pending := entries.Keys;
      ghost var visited: seq<Key> := [];
      items := [];
      while pending != {}
        invariant pending <= entries.Keys
        invariant forall k :: k in visited <==> k in entries && k !in pending
        invariant Ascending(visited)
        invariant forall i, k :: 0 <= i < |visited| && k in pending ==> Below(visited[i], k)
        invariant items == ScanOf(visited, entries, unreadable)
        decreases |pending|
      {
        LeastExists(pending);
        var k :| IsLeast(k, pending);
        assert (visited + [k])[..|visited|] == visited;
        visited := visited + [k];
        items := items + [ItemFor(k, entries, unreadable)];
        pending := pending - {k};
        forall i, x | 0 <= i < |visited| && x in pending
          ensures Below(visited[i], x)
        {
          if i < |visited| - 1 {
            BelowTransitive(visited[i], k, x);
          }
        }
      }
      AscendingUnique(visited, SortedKeys(entries.Keys));
    }
  }
}
