# etcddata synchronisation engine, modelled in Dafny

`etcddata` copies the contents of an etcd key-value store into a local sled
snapshot (`dump`), replays a snapshot back into etcd (`restore`), and shows
either side on the console (`print`, `read`). This project models the engine
in `src/main.rs` that does this, and proves what each operation does to both
stores.

Both backends are foreign libraries, so each is modelled as plain state with
oracles for its failures:

- **Remote store** (`Etcd.EtcdClient`): a `map<Key, Stored>` from key to
  (value, lease). Range reads return the entries in scope in an order the
  store chooses; the model picks the next key arbitrarily, so every proof
  holds for every order. A put writes the value with lease 0. It fails for
  the keys in the map `rejected`, with the error that map gives for the key
  (a refusal, a lost connection, an auth or transport error). `fetchError` and `connectError` decide whether
  range reads and connecting fail. A ghost log `puts` records every put
  issued.
- **Snapshot** (`Sled.Tree`): a `map<Key, Value>`, a set `unreadable` of
  entries whose read fails, and oracles `openError` and `applyError`.
  `ApplyBatch` is one atomic overlay. `Iter` yields the keys in ascending
  lexicographic byte order (`Bytes.Below`), with a `ReadError` item wherever
  an entry cannot be read. It is proved equal to the ghost specification
  `Scan`.
- Keys and values are byte strings (`seq` of integers 0..255). Console output
  is the sequence of (key, value) pairs printed, one per `key => value` line.

The engine (`Engine`) follows the source step by step:

- `DumpData`: connect, open, fetch, batch loop, apply.
- `RestoreData`: connect, open, ordered put loop with early exit.
- `PrintData`: connect, fetch, output loop.
- `ReadData`: open, output loop.

Each operation is proved against a specification function:

- Dump against `Collect(Selection(...))`, which is the policy-filtered batch
  with last-wins inserts. This batch in turn equals the reference selection
  `Retained`.
- Restore against `Replay`. Replay is characterised by `FailFast`: it applies
  exactly the puts before the first failed one.
- Read against `Readable(Scan(...))`.

The lemmas in `Policy`, `Restore` and `Scenarios` then state the source's
promises as theorems about these functions:

- the lease-inclusion rule;
- the overlay (a dump does not clear the snapshot);
- last-wins among duplicate keys;
- prefix scope;
- ordered, fail-fast and idempotent restore;
- the concrete runs in which a leased key is dropped, a snapshot is restored
  into an empty store, and a restore stops at its second put.

Note that in the code:

- A lease is the etcd `i64` lease id, modelled as `int`; only `== 0` matters.
- `restore` accepts `--prefix` (its `EtcdOpts` carries one) but never uses
  it. Every readable snapshot entry is put, whatever the prefix
  (src/main.rs:120-132).
- A failed fetch leaves the snapshot exactly as it was, not empty. The tree
  is opened and never cleared (src/main.rs:100-105).

## Model

| member | source | states |
|---|---|---|
| `Policy.AuthPair` | src/main.rs:81-88 | credentials are `Some((user, password))` iff both options are present, otherwise `None` |
| `Engine.ConnectEtcd` | src/main.rs:80-95 | a failed connection returns its error; otherwise the client is connected with exactly `AuthPair(user, password)` |
| `Etcd.EtcdClient.Connect` | src/main.rs:92 | connecting either fails with the connection error and records nothing, or records the credentials it was given |
| `Etcd.EtcdClient.Range` | src/main.rs:103-106 | a failed read returns its error; otherwise the result lists every entry in scope exactly once, with its value and lease |
| `Etcd.EtcdClient.All` | src/main.rs:105 | an unscoped read lists every entry of the store once |
| `Etcd.EtcdClient.GetWithPrefix` | src/main.rs:104 | a prefix read lists exactly the entries whose key has that byte prefix |
| `Etcd.EtcdClient.Put` | src/main.rs:127 | a put is logged; it fails with the error the store gives for that key and changes nothing, or it stores the value with lease 0 |
| `Policy.Scope` | src/main.rs:103-106 | a key is in the scope of the read iff no prefix is configured or the key starts with the configured prefix |
| `Engine.Fetch` | src/main.rs:103-106 | the fetch is prefix-scoped iff a prefix is configured, and lists exactly the entries in that scope |
| `Policy.Keep` | src/main.rs:109 | an entry without a lease is always kept; a leased entry is kept with `all` and dropped without it |
| `Policy.Selection` | src/main.rs:108-112 | the kept pairs are exactly the fetched entries with `all \|\| lease == 0`, no more pairs than entries |
| `Policy.Collect` | src/main.rs:101-110 | a key is in the batch iff some insert has that key |
| `Policy.CollectSnoc` | src/main.rs:110 | one more insert overwrites its key and leaves every other key as it was |
| `Policy.CollectLast` | src/main.rs:110 | the batch holds, under each key, the value of the last insert of that key |
| `Policy.BatchKeys` | src/main.rs:108-112 | a key is in the dump batch iff some fetched entry with that key passes the lease policy |
| `Policy.BatchLastKeptWins` | src/main.rs:108-112 | among fetched entries with the same key, the last kept one is the value in the batch |
| `Policy.DumpSelects` | src/main.rs:103-112 | for any listing order, the batch equals the reference selection: the entries in scope with `all \|\| lease == 0`, lease dropped |
| `Policy.DumpEntry` | src/main.rs:100-114 | on an existing snapshot, a kept entry lands with its value, and a dropped entry leaves its key as it was (leased entries are never added by default) |
| `Policy.DumpFresh` | src/main.rs:108-112 | on an empty snapshot, a fetched key maps to its value iff `all \|\| lease == 0`, and every stored key lies in the requested prefix |
| `Sled.Tree.Open` | src/main.rs:100 | opening fails with the storage error or succeeds, and never clears the tree |
| `Sled.Tree.ApplyBatch` | src/main.rs:114 | applying a batch fails and changes nothing, or it overlays the batch on the tree, keeping every other key |
| `Sled.Tree.Iter` | src/main.rs:125 | iteration yields exactly `Scan`: every key in ascending byte order, with a read error in place of each unreadable entry |
| `Sled.Scan` | src/main.rs:125 | the order `tree.iter()` visits the tree, as a definition: every key once, in `SortedKeys` order, each as its entry or a read error. It carries no contract of its own; `Sled.Tree.Iter` is proved equal to it and `ScanReadable` states its properties |
| `Bytes.SortedKeys` | src/main.rs:158 | the iteration order holds exactly the tree's keys, strictly ascending |
| `Engine.DumpData` | src/main.rs:97-118 | a connect, open, fetch or apply failure returns the error and leaves the snapshot unchanged; with none of them the dump passes. Success overlays the kept, last-wins batch of the fetched entries, which equals `Retained(store, scope, all)`. After a connection the client holds `AuthPair(user, password)` |
| `Engine.BuildBatch` | src/main.rs:101-112 | the batch loop builds the last-wins map of the kept fetched entries |
| `Engine.RestoreData` | src/main.rs:120-132 | a connect or open failure changes nothing. Otherwise the remote store, the outcome and every put issued are those of `Replay` over the ordered scan. After a connection the client holds `AuthPair(user, password)` |
| `Restore.Replay` | src/main.rs:125-129 | the restore loop as a definition: skip read errors, put each readable entry at lease 0, stop at the first failed put with its error. It carries no contract of its own; `ReplayIsFailFast`, `RestoreIdempotent`, `RestoreFromSnapshot` and `RestoreTouchesOnlySnapshot` state its properties |
| `Restore.Readable` | src/main.rs:126 | the `if let Ok` skip as a definition: the entry items of an iteration, in iteration order. It carries no contract of its own; `ReadableLength`, `ReadableItems` and `ReadableConcat` state its properties |
| `Restore.ReadableLength` | src/main.rs:126 | skipping read errors never yields more entries than there are items |
| `Restore.ReadableItems` | src/main.rs:126 | every entry item of the iteration is among the readable entries, and every readable entry is an entry item |
| `Engine.PutAll` | src/main.rs:125-129 | the put loop skips read errors, puts each readable entry in order and stops at the first failed put, as `Replay` says |
| `Restore.ReplayIsFailFast` | src/main.rs:125-129 | if the put of the n+1-th readable entry is the first to fail, the store holds exactly the first n puts on its prior state. That put was the last attempted and its error is returned. With no failure, every readable entry is put once, in order |
| `Restore.ApplyIsOverlay` | src/main.rs:127 | successive lease-free puts leave the prior store overlaid with the last value put under each key, at lease 0 |
| `Restore.RestoreIdempotent` | src/main.rs:125-129 | restoring a second time, with the same failures, leaves the remote store, the outcome and the puts exactly as the first restore did |
| `Restore.ScanReadable` | src/main.rs:125-126 | the readable items of a scan are in strictly ascending key order, and are exactly the snapshot's readable entries with their values |
| `Restore.RestoreFromSnapshot` | src/main.rs:125-129 | with no failed put, restore succeeds and puts every readable entry once, in key order. Each readable key then holds the snapshot's value with lease 0; every other remote key is untouched |
| `Restore.ReplayAllAccepted` | src/main.rs:125-129 | for any iteration, when no readable put fails, the replay passes, puts every readable entry in order, and leaves the prior store overlaid with them at lease 0 |
| `Restore.ReplayTouches` | src/main.rs:125-129 | for any iteration and any outcome, the puts attempted are a prefix of the readable entries, and every key outside them is left as it was |
| `Restore.ReadFresh` | src/main.rs:158-165 | reading a snapshot with no unreadable entry shows its entries in ascending key order, each once with its value |
| `Restore.RestoreTouchesOnlySnapshot` | src/main.rs:125-129 | whatever the outcome, puts go in ascending key order as a prefix of the readable entries, and remote keys that are not readable snapshot keys are untouched |
| `Engine.PrintData` | src/main.rs:134-153 | a connect or fetch failure returns the error; otherwise the output is exactly the kept fetched entries in fetch order. The store is unchanged, and after a connection the client holds `AuthPair(user, password)` |
| `Engine.ShowEntries` | src/main.rs:142-150 | the output loop prints exactly the kept entries in fetch order |
| `Engine.ReadData` | src/main.rs:155-169 | an open failure returns the error; otherwise the output is the readable items of the ordered scan, and nothing changes |
| `Engine.DumpThenRead` | src/main.rs:108-114 | after a dump into an empty snapshot, read shows, in ascending key order, exactly the kept entries in scope, whatever the fetch order |
| `Scenarios.DumpOfLeasedRemote` | src/main.rs:108-112 | from {x: (1, lease 0), y: (2, lease 7)}, a default dump keeps {x: 1} and a dump with `all` keeps {x: 1, y: 2} |
| `Scenarios.RetainedOfLeasedRemote` | src/main.rs:109 | the reference selection of that store is {x: 1} by default and {x: 1, y: 2} with `all` |
| `Scenarios.RestoreIntoEmptyRemote` | src/main.rs:125-129 | restoring {x: 1, y: 2} into an empty store puts x then y and leaves both at lease 0 |
| `Scenarios.ScanOfThree` | src/main.rs:125 | the snapshot {a: 1, b: 2, c: 3} is iterated a, b, c |
| `Scenarios.RestoreStopsAtRefusedPut` | src/main.rs:125-129 | when the second of three puts fails with a transport error, only the first entry reaches the store, the third is not attempted, and that transport error is returned |

## Left out

- Command-line parsing (`Args`, `DumpCmd`, `RestoreCmd`, `PrintCmd`, `ReadCmd`, `EtcdOpts` attributes, src/main.rs:7-62) and the `main` dispatch (src/main.rs:64-78): declarative glue. Each operation is modelled as its own method, taking its options as parameters.
- The endpoint string and logger initialisation (src/main.rs:66, 90): they do not affect what crosses between the stores.
- The async runtime and the etcd transport: connect, range reads and puts are modelled over the store map, and their failures are oracles.
- Transient put failures: whether a put fails, and with which error, is decided per key (`rejected`), not per call. A network failure that hits one put in one restore and not the same put in a second restore is therefore not distinguished.
- `Sled.Tree.ApplyBatch`: the model does not capture crash atomicity or the on-disk layout. The batch is modelled as one atomic overlay. An overwritten key becomes readable again; this is a modelling choice.
- `tree.flush()` (src/main.rs:115): durability cannot be expressed here. A flush failure would make dump return an error after the batch is applied, and that case is not modelled.
- Which entries sled fails to read: the model fixes them as a set of keys. The tool only sees an `Err` item at that point of the iteration.
- `String::from_utf8_lossy` decoding and `println!` formatting (src/main.rs:144-148, 160-164): output is modelled as the (key, value) byte pairs that would be printed.
