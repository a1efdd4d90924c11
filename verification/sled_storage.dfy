/** `SledStorage`: the store as a finite map from 16-byte keys to records. A
    record is a decodable item or a blob that does not decode. Engine failures
    are an input, `Faults`: the keys whose reads fail, the keys whose writes
    fail, and whether the durability barrier fails. */
module SledStorage {
  import opened Wrappers
  import opened Errors
  import opened Text
  import opened Uuids
  import opened Clipboard
  import opened Ordering
  import opened StorageTrait

  type Key = Bytes16

  datatype Record = Stored(item: ClipboardItem) | Corrupt(blob: seq<byte>)

  type Db = map<Key, Record>

  datatype Faults = Faults(unreadable: set<Key>, unwritable: set<Key>, flushFails: bool)

  const NoFaults := Faults({}, {}, false)

  /** The store after a mutating call, and the call's result. */
  datatype Written = Written(db: Db, result: Result<(), ClipboardError>)

  /** `id_to_key`: the uuid's 16 bytes, from which the uuid can be read back. */
  function IdToKey(id: Uuid): (k: Key)
    ensures FromBytes(k) == id
  {
    FromBytesAsBytes(id);
    AsBytes(id)
  }

  /** Two items share a key only if they share an id. */
  lemma IdToKeyInjective(a: Uuid, b: Uuid)
    ensures IdToKey(a) == IdToKey(b) <==> a == b
  {
  }

  /** Every key is the key of some uuid. */
  lemma IdToKeySurjective(k: Key)
    ensures IdToKey(FromBytes(k)) == k
  {
    AsBytesFromBytes(k);
  }

  /** Every decodable record sits under the key of its own id, as inserts make it. */
  ghost predicate WellKeyed(db: Db) {
    forall k :: k in db && db[k].Stored? ==> IdToKey(db[k].item.id) == k
  }

  // Scanning

  /** The scan reads `it` from key `k`. */
  ghost predicate Yields(db: Db, f: Faults, k: Key, it: ClipboardItem) {
    k in db && k !in f.unreadable && db[k] == Stored(it)
  }

  /** The keys whose record the scan reads and decodes. */
  ghost function ItemKeys(db: Db, f: Faults): set<Key> {
    set k | k in db && k !in f.unreadable && db[k].Stored?
  }

  /** The decodable records under `keys`, in that order, skipping read errors
      and undecodable values. */
  function Collect(keys: seq<Key>, db: Db, f: Faults): (r: seq<ClipboardItem>)
    ensures |r| <= |keys|
    ensures forall i :: 0 <= i < |r| ==> Stored(r[i]) in db.Values
  {
    if |keys| == 0 then []
    else
      var k := keys[0];
      var rest := Collect(keys[1..], db, f);
      if k in db && k !in f.unreadable && db[k].Stored? then [db[k].item] + rest else rest
  }

  lemma {:induction false} CollectMembers(keys: seq<Key>, db: Db, f: Faults)
    ensures forall it :: it in Collect(keys, db, f) <==> exists k :: k in keys && Yields(db, f, k, it)
  {
    if |keys| > 0 {
      var k := keys[0];
      CollectMembers(keys[1..], db, f);
      assert forall k' :: k' in keys <==> k' == k || k' in keys[1..];
      forall it ensures it in Collect(keys, db, f) <==> exists k' :: k' in keys && Yields(db, f, k', it) {
        if it in Collect(keys, db, f) {
          if k in db && k !in f.unreadable && db[k].Stored? && it == db[k].item {
            assert Yields(db, f, k, it);
          }
        }
        if exists k' :: k' in keys && Yields(db, f, k', it) {
          var k' :| k' in keys && Yields(db, f, k', it);
          if k' != k {
            assert k' in keys[1..];
          }
        }
      }
    }
  }

  lemma {:induction false} CollectCount(keys: seq<Key>, db: Db, f: Faults)
    requires forall i, j :: 0 <= i < j < |keys| ==> keys[i] != keys[j]
    ensures |Collect(keys, db, f)| == |set k | k in keys && k in ItemKeys(db, f)|
  {
    if |keys| > 0 {
      var k := keys[0];
      CollectCount(keys[1..], db, f);
      var s := set k' | k' in keys && k' in ItemKeys(db, f);
      var s' := set k' | k' in keys[1..] && k' in ItemKeys(db, f);
      assert k !in keys[1..] by {
        forall j | 0 <= j < |keys[1..]| ensures keys[1..][j] != k {
          assert keys[1..][j] == keys[j + 1];
        }
      }
      if k in ItemKeys(db, f) {
        assert s == s' + {k};
      } else {
        assert s == s';
      }
    }
  }

  /** The scan in key order, before sorting. */
  function ScanOrder(db: Db, f: Faults): seq<ClipboardItem> {
    Collect(KeysAscending(db.Keys), db, f)
  }

  /** `get_all_items`: every decodable record the scan reads, newest first. */
  function GetAllItems(db: Db, f: Faults): (r: Result<seq<ClipboardItem>, ClipboardError>)
    ensures r.Ok?
    ensures NewestFirst(r.value)
    ensures forall it :: it in r.value <==> exists k :: Yields(db, f, k, it)
  {
    var found := ScanOrder(db, f);
    CollectMembers(KeysAscending(db.Keys), db, f);
    var sorted := SortNewestFirst(found);
    assert forall it :: it in sorted <==> it in found by {
      forall it ensures it in sorted <==> it in found {
        assert it in sorted <==> it in multiset(sorted);
      }
    }
    Ok(sorted)
  }

  /** The scan skips nothing else: one item per readable decodable record. */
  lemma GetAllItemsCount(db: Db, f: Faults)
    ensures |GetAllItems(db, f).value| == |ItemKeys(db, f)|
  {
    var keys := KeysAscending(db.Keys);
    var found := ScanOrder(db, f);
    assert forall i, j :: 0 <= i < j < |keys| ==> keys[i] != keys[j] by {
      forall i, j | 0 <= i < j < |keys| ensures keys[i] != keys[j] {
        LexLessAsymmetric(keys[i], keys[i]);
      }
    }
    CollectCount(keys, db, f);
    assert (set k | k in keys && k in ItemKeys(db, f)) == ItemKeys(db, f);
    assert |SortNewestFirst(found)| == |multiset(found)|;
  }

  /** The sort is stable: items with equal timestamps keep their scan order. */
  lemma GetAllItemsStable(db: Db, f: Faults, t: Timestamp)
    ensures StampedAt(GetAllItems(db, f).value, t) == StampedAt(ScanOrder(db, f), t)
  {
  }

  /** The items are in strictly ascending order of their ids' keys. */
  predicate KeyAscending(items: seq<ClipboardItem>) {
    forall i, j :: 0 <= i < j < |items| ==> LexLess(IdToKey(items[i].id), IdToKey(items[j].id))
  }

  /** Putting an item with a smaller key in front keeps the key order. */
  lemma ConsKeyAscending(x: ClipboardItem, rest: seq<ClipboardItem>)
    requires KeyAscending(rest)
    requires forall j :: 0 <= j < |rest| ==> LexLess(IdToKey(x.id), IdToKey(rest[j].id))
    ensures KeyAscending([x] + rest)
  {
    var r := [x] + rest;
    forall i, j | 0 <= i < j < |r| ensures LexLess(IdToKey(r[i].id), IdToKey(r[j].id)) {
      assert r[j] == rest[j - 1];
      if i > 0 { assert r[i] == rest[i - 1]; }
    }
  }

  /** In a well-keyed store, the scan loop over ascending keys yields its items
      in ascending key order. */
  lemma {:induction false} CollectKeyAscending(keys: seq<Key>, db: Db, f: Faults)
    requires WellKeyed(db)
    requires Ascending(keys)
    ensures KeyAscending(Collect(keys, db, f))
  {
    if |keys| > 0 {
      var k := keys[0];
      var rest := Collect(keys[1..], db, f);
      assert Ascending(keys[1..]) by {
        forall i, j | 0 <= i < j < |keys[1..]| ensures LexLess(keys[1..][i], keys[1..][j]) {
          assert keys[1..][i] == keys[i + 1] && keys[1..][j] == keys[j + 1];
        }
      }
      CollectKeyAscending(keys[1..], db, f);
      CollectMembers(keys[1..], db, f);
      forall j | 0 <= j < |rest| ensures LexLess(k, IdToKey(rest[j].id)) {
        assert rest[j] in rest;
        var k' :| k' in keys[1..] && Yields(db, f, k', rest[j]);
        var m :| 0 <= m < |keys[1..]| && keys[1..][m] == k';
        assert keys[m + 1] == k';
      }
      if k in db && k !in f.unreadable && db[k].Stored? {
        assert IdToKey(db[k].item.id) == k;
        ConsKeyAscending(db[k].item, rest);
      }
    }
  }

  /** Keeping only the items with one timestamp keeps their key order. */
  lemma {:induction false} StampedAtKeyAscending(xs: seq<ClipboardItem>, t: Timestamp)
    requires KeyAscending(xs)
    ensures KeyAscending(StampedAt(xs, t))
  {
    if |xs| > 0 {
      var rest := StampedAt(xs[1..], t);
      assert KeyAscending(xs[1..]) by {
        forall i, j | 0 <= i < j < |xs[1..]|
          ensures LexLess(IdToKey(xs[1..][i].id), IdToKey(xs[1..][j].id))
        {
          assert xs[1..][i] == xs[i + 1] && xs[1..][j] == xs[j + 1];
        }
      }
      StampedAtKeyAscending(xs[1..], t);
      StampedAtMembers(xs[1..], t);
      if xs[0].timestamp == t {
        forall j | 0 <= j < |rest| ensures LexLess(IdToKey(xs[0].id), IdToKey(rest[j].id)) {
          assert rest[j] in rest;
          var m :| 0 <= m < |xs[1..]| && xs[1..][m] == rest[j];
          assert xs[m + 1] == rest[j];
        }
        ConsKeyAscending(xs[0], rest);
      }
    }
  }

  /** In a well-keyed store, items with equal timestamps come out of
      `get_all_items` in ascending order of their keys, the order in which the
      engine iterates them, because the sort is stable. */
  lemma GetAllItemsTiesByKey(db: Db, f: Faults, t: Timestamp)
    requires WellKeyed(db)
    ensures KeyAscending(StampedAt(GetAllItems(db, f).value, t))
  {
    CollectKeyAscending(KeysAscending(db.Keys), db, f);
    StampedAtKeyAscending(ScanOrder(db, f), t);
  }

  // Point operations

  /** `get_item`: absent is `Ok(None)`; a read failure or an undecodable value is an error. */
  function GetItem(db: Db, f: Faults, id: Uuid): (r: Result<Option<ClipboardItem>, ClipboardError>)
    ensures IdToKey(id) in f.unreadable ==> r == Err(Storage)
    ensures IdToKey(id) !in f.unreadable && IdToKey(id) !in db ==> r == Ok(None)
    ensures IdToKey(id) !in f.unreadable && IdToKey(id) in db ==>
              match db[IdToKey(id)]
              case Stored(it) => r == Ok(Some(it))
              case Corrupt(_) => r == Err(Serialization)
  {
    var k := IdToKey(id);
    if k in f.unreadable then Err(Storage)
    else if k !in db then Ok(None)
    else match db[k]
      case Stored(it) => Ok(Some(it))
      case Corrupt(_) => Err(Serialization)
  }

  /** The insert shared by `add_item` and `update_item`: overwrite or create the
      record under the item's key, and touch nothing else. */
  function Upsert(db: Db, f: Faults, item: ClipboardItem): (w: Written)
    ensures IdToKey(item.id) in f.unwritable ==> w == Written(db, Err(Storage))
    ensures IdToKey(item.id) !in f.unwritable ==>
              && w.result == Ok(())
              && w.db.Keys == db.Keys + {IdToKey(item.id)}
              && w.db[IdToKey(item.id)] == Stored(item)
              && forall k :: k in db && k != IdToKey(item.id) ==> w.db[k] == db[k]
  {
    var k := IdToKey(item.id);
    if k in f.unwritable then Written(db, Err(Storage))
    else Written(db[k := Stored(item)], Ok(()))
  }

  /** `add_item`. */
  function AddItem(db: Db, f: Faults, item: ClipboardItem): (w: Written)
    ensures IdToKey(item.id) in f.unwritable ==> w == Written(db, Err(Storage))
    ensures IdToKey(item.id) !in f.unwritable ==>
              w.result.Ok? && IdToKey(item.id) in w.db && w.db[IdToKey(item.id)] == Stored(item)
    ensures forall k :: k in db && k != IdToKey(item.id) ==> k in w.db && w.db[k] == db[k]
    ensures forall k :: k in w.db ==> k in db || k == IdToKey(item.id)
    ensures w.result.Err? ==> w.db == db
  {
    Upsert(db, f, item)
  }

  /** `update_item`: the very same insert, so an id never stored before is
      simply added and there is no not-found error. */
  function UpdateItem(db: Db, f: Faults, item: ClipboardItem): (w: Written)
    ensures IdToKey(item.id) in f.unwritable ==> w == Written(db, Err(Storage))
    ensures IdToKey(item.id) !in f.unwritable ==>
              w.result.Ok? && IdToKey(item.id) in w.db && w.db[IdToKey(item.id)] == Stored(item)
    ensures forall k :: k in db && k != IdToKey(item.id) ==> k in w.db && w.db[k] == db[k]
    ensures forall k :: k in w.db ==> k in db || k == IdToKey(item.id)
    ensures w.result.Err? ==> w.db == db
  {
    Upsert(db, f, item)
  }

  lemma UpdateIsAdd(db: Db, f: Faults, item: ClipboardItem)
    ensures UpdateItem(db, f, item) == AddItem(db, f, item)
  {
  }

  /** `remove_item`: deletes only the id's key; an absent id is not an error. */
  function RemoveItem(db: Db, f: Faults, id: Uuid): (w: Written)
    ensures IdToKey(id) in f.unwritable ==> w == Written(db, Err(Storage))
    ensures IdToKey(id) !in f.unwritable ==>
              && w.result == Ok(())
              && w.db.Keys == db.Keys - {IdToKey(id)}
              && forall k :: k in w.db ==> w.db[k] == db[k]
  {
    var k := IdToKey(id);
    if k in f.unwritable then Written(db, Err(Storage))
    else Written(db - {k}, Ok(()))
  }

  /** `flush`: a durability barrier; it changes nothing in the abstract store. */
  function Flush(db: Db, f: Faults): (w: Written)
    ensures w.db == db
    ensures w.result.Err? <==> f.flushFails
  {
    if f.flushFails then Written(db, Err(Storage)) else Written(db, Ok(()))
  }

  /** `init`: nothing to prepare. */
  function Init(db: Db): (w: Written)
    ensures w == Written(db, Ok(()))
  {
    Written(db, Ok(()))
  }

  // Bulk eviction

  /** The keys of the unpinned items of `items`, in order. */
  function UnpinnedKeys(items: seq<ClipboardItem>): (r: seq<Key>)
    ensures forall k :: k in r <==> exists it :: it in items && !it.pinned && IdToKey(it.id) == k
  {
    if |items| == 0 then []
    else
      assert forall it :: it in items <==> it == items[0] || it in items[1..];
      (if items[0].pinned then [] else [IdToKey(items[0].id)]) + UnpinnedKeys(items[1..])
  }

  /** How many keys of `ks` come before the first one whose write fails. */
  function WritablePrefix(ks: seq<Key>, f: Faults): (n: nat)
    ensures n <= |ks|
    ensures forall j :: 0 <= j < n ==> ks[j] !in f.unwritable
    ensures n < |ks| ==> ks[n] in f.unwritable
  {
    if |ks| == 0 || ks[0] in f.unwritable then 0 else 1 + WritablePrefix(ks[1..], f)
  }

  /** The loop of `clear_non_pinned`: remove each unpinned item in turn and stop
      at the first failing removal, keeping the removals already made. */
  function RemoveUnpinned(db: Db, f: Faults, items: seq<ClipboardItem>): (w: Written)
    ensures forall k :: k in w.db ==> k in db && w.db[k] == db[k]
    ensures w.result.Err? ==> w.result.error == Storage
  {
    if |items| == 0 then Written(db, Ok(()))
    else if items[0].pinned then RemoveUnpinned(db, f, items[1..])
    else
      var w := RemoveItem(db, f, items[0].id);
      if w.result.Err? then w else RemoveUnpinned(w.db, f, items[1..])
  }

  /** The loop removes the unpinned items' keys up to the first one whose write
      fails, and fails exactly when there is such a key. */
  lemma {:induction false} RemoveUnpinnedEffect(db: Db, f: Faults, items: seq<ClipboardItem>)
    ensures var w := RemoveUnpinned(db, f, items);
            var ks := UnpinnedKeys(items);
            var n := WritablePrefix(ks, f);
            && (forall k :: k in w.db <==> k in db && k !in ks[..n])
            && (forall k :: k in w.db ==> w.db[k] == db[k])
            && (w.result.Ok? <==> n == |ks|)
            && (w.result.Err? ==> w.result.error == Storage)
  {
    if |items| > 0 {
      var ks' := UnpinnedKeys(items[1..]);
      if items[0].pinned {
        assert UnpinnedKeys(items) == ks';
        RemoveUnpinnedEffect(db, f, items[1..]);
      } else {
        var k := IdToKey(items[0].id);
        assert UnpinnedKeys(items) == [k] + ks';
        if k in f.unwritable {
          assert RemoveUnpinned(db, f, items) == Written(db, Err(Storage));
          assert WritablePrefix([k] + ks', f) == 0;
        } else {
          RemoveUnpinnedHead(db, f, items, k, ks');
        }
      }
    }
  }

  /** The step of `RemoveUnpinnedEffect` for an unpinned head whose removal
      succeeds. */
  lemma {:induction false} RemoveUnpinnedHead(db: Db, f: Faults, items: seq<ClipboardItem>, head: Key, ks': seq<Key>)
    requires |items| > 0 && !items[0].pinned
    requires head == IdToKey(items[0].id) && head !in f.unwritable
    requires ks' == UnpinnedKeys(items[1..])
    requires UnpinnedKeys(items) == [head] + ks'
    ensures var w := RemoveUnpinned(db, f, items);
            var ks := UnpinnedKeys(items);
            var n := WritablePrefix(ks, f);
            && (forall k :: k in w.db <==> k in db && k !in ks[..n])
            && (forall k :: k in w.db ==> w.db[k] == db[k])
            && (w.result.Ok? <==> n == |ks|)
            && (w.result.Err? ==> w.result.error == Storage)
  {
    var db' := db - {head};
    var w := RemoveUnpinned(db', f, items[1..]);
    assert RemoveUnpinned(db, f, items) == w;
    RemoveUnpinnedEffect(db', f, items[1..]);
    var n' := WritablePrefix(ks', f);
    var ks := [head] + ks';
    assert ks[1..] == ks';
    assert WritablePrefix(ks, f) == n' + 1;
    assert ks[..n' + 1] == [head] + ks'[..n'];
    forall k ensures k in w.db <==> k in db && k !in ks[..n' + 1] {
      assert k in ks[..n' + 1] <==> k == head || k in ks'[..n'];
    }
  }

  /** `clear_non_pinned`: scan, then remove every unpinned item found. The
      count of removed items is only logged, so the result is `()`. */
  function ClearNonPinned(db: Db, f: Faults): (w: Written)
    ensures forall k :: k in w.db ==> k in db && w.db[k] == db[k]
    ensures w.result.Err? ==> w.result.error == Storage
  {
    RemoveUnpinnedEffect(db, f, GetAllItems(db, f).value);
    match GetAllItems(db, f)
    case Err(e) => Written(db, Err(e))
    case Ok(items) => RemoveUnpinned(db, f, items)
  }

  /** A decodable unpinned record the scan can read. */
  ghost predicate Evictable(db: Db, f: Faults, k: Key) {
    k in db && k !in f.unreadable && db[k].Stored? && !db[k].item.pinned
  }

  /** In a well-keyed store, the keys the eviction loop visits are exactly the
      evictable ones. */
  lemma UnpinnedKeysOfScan(db: Db, f: Faults)
    requires WellKeyed(db)
    ensures forall k :: k in UnpinnedKeys(GetAllItems(db, f).value) <==> Evictable(db, f, k)
  {
    var items := GetAllItems(db, f).value;
    forall k | k in UnpinnedKeys(items) ensures Evictable(db, f, k) {
      ScannedUnpinnedIsEvictable(db, f, items, k);
    }
    forall k | Evictable(db, f, k) ensures k in UnpinnedKeys(items) {
      assert Yields(db, f, k, db[k].item);
      assert db[k].item in items;
    }
  }

  lemma ScannedUnpinnedIsEvictable(db: Db, f: Faults, items: seq<ClipboardItem>, k: Key)
    requires WellKeyed(db)
    requires items == GetAllItems(db, f).value
    requires k in UnpinnedKeys(items)
    ensures Evictable(db, f, k)
  {
    var it :| it in items && !it.pinned && IdToKey(it.id) == k;
    var k' :| Yields(db, f, k', it);
    assert k' == k;
  }

  /** The eviction loop over items whose unpinned keys are exactly the
      evictable ones. */
  lemma EvictionLoopEffect(db: Db, f: Faults, items: seq<ClipboardItem>)
    requires forall k :: k in UnpinnedKeys(items) <==> Evictable(db, f, k)
    ensures var w := RemoveUnpinned(db, f, items);
            && (forall k :: k in db && !Evictable(db, f, k) ==> k in w.db && w.db[k] == db[k])
            && (w.result.Ok? ==> forall k :: Evictable(db, f, k) ==> k !in w.db)
            && (w.result.Ok? <==> forall k :: Evictable(db, f, k) ==> k !in f.unwritable)
  {
    var ks := UnpinnedKeys(items);
    var n := WritablePrefix(ks, f);
    var w := RemoveUnpinned(db, f, items);
    RemoveUnpinnedEffect(db, f, items);
    forall k | k in db && !Evictable(db, f, k) ensures k in w.db {
      assert k !in ks;
    }
    if w.result.Ok? {
      assert ks[..n] == ks;
    } else {
      assert ks[n] in ks;
    }
  }

  /** What bulk eviction does to a well-keyed store: pinned records, undecodable
      records and records the scan could not read all stay; if it succeeds,
      every evictable record is gone; it fails exactly when some evictable
      record cannot be removed. */
  lemma ClearNonPinnedEffect(db: Db, f: Faults)
    requires WellKeyed(db)
    ensures var w := ClearNonPinned(db, f);
            && (forall k :: k in db && !Evictable(db, f, k) ==> k in w.db && w.db[k] == db[k])
            && (w.result.Ok? ==> forall k :: Evictable(db, f, k) ==> k !in w.db)
            && (w.result.Ok? <==> forall k :: Evictable(db, f, k) ==> k !in f.unwritable)
  {
    var items := GetAllItems(db, f).value;
    assert ClearNonPinned(db, f) == RemoveUnpinned(db, f, items);
    UnpinnedKeysOfScan(db, f);
    EvictionLoopEffect(db, f, items);
  }

  /** With no engine failure, bulk eviction leaves exactly the pinned and the
      undecodable records. */
  lemma ClearNonPinnedKeepsPinned(db: Db)
    requires WellKeyed(db)
    ensures var w := ClearNonPinned(db, NoFaults);
            && w.result.Ok?
            && forall k :: k in w.db <==> k in db && (db[k].Corrupt? || db[k].item.pinned)
  {
    ClearNonPinnedEffect(db, NoFaults);
    var w := ClearNonPinned(db, NoFaults);
    assert forall k :: k in db && (db[k].Corrupt? || db[k].item.pinned) <==> k in db && !Evictable(db, NoFaults, k);
  }

  // The laws relating the operations

  /** After `add_item(it)` the lookup of `it.id` finds `it`. */
  lemma GetAfterAdd(db: Db, f: Faults, item: ClipboardItem, id: Uuid)
    requires IdToKey(item.id) !in f.unwritable && IdToKey(item.id) !in f.unreadable
    ensures GetItem(AddItem(db, f, item).db, f, item.id) == Ok(Some(item))
    ensures id != item.id ==> GetItem(AddItem(db, f, item).db, f, id) == GetItem(db, f, id)
  {
    IdToKeyInjective(id, item.id);
  }

  /** After `remove_item(id)` the lookup of `id` finds nothing, and every other
      lookup is unchanged. */
  lemma GetAfterRemove(db: Db, f: Faults, id: Uuid, other: Uuid)
    requires IdToKey(id) !in f.unwritable && IdToKey(id) !in f.unreadable
    ensures GetItem(RemoveItem(db, f, id).db, f, id) == Ok(None)
    ensures other != id ==> GetItem(RemoveItem(db, f, id).db, f, other) == GetItem(db, f, other)
  {
    IdToKeyInjective(id, other);
  }

  /** A point lookup and the full scan agree on every readable decodable record. */
  lemma GetItemInScan(db: Db, f: Faults, id: Uuid)
    ensures GetItem(db, f, id).Ok? && GetItem(db, f, id).value.Some? ==>
              GetItem(db, f, id).value.value in GetAllItems(db, f).value
  {
    var k := IdToKey(id);
    if GetItem(db, f, id).Ok? && GetItem(db, f, id).value.Some? {
      assert Yields(db, f, k, db[k].item);
    }
  }

  lemma UpsertKeepsWellKeyed(db: Db, f: Faults, item: ClipboardItem)
    requires WellKeyed(db)
    ensures WellKeyed(Upsert(db, f, item).db)
  {
  }

  lemma RemoveKeepsWellKeyed(db: Db, f: Faults, id: Uuid)
    requires WellKeyed(db)
    ensures WellKeyed(RemoveItem(db, f, id).db)
  {
  }

  lemma ClearKeepsWellKeyed(db: Db, f: Faults)
    requires WellKeyed(db)
    ensures WellKeyed(ClearNonPinned(db, f).db)
  {
  }

  // The trait, implemented

  datatype Response = Response(db: Db, result: Result<Reply, ClipboardError>)

  /** A `()`-returning operation's outcome as a trait reply. */
  function Unit(w: Written): (r: Response)
    ensures r.db == w.db
    ensures r.result.Ok? <==> w.result.Ok?
    ensures r.result.Ok? ==> r.result.value == Done
    ensures r.result.Err? ==> r.result.error == w.result.error
  {
    Response(w.db, match w.result case Ok(_) => Ok(Done) case Err(e) => Err(e))
  }

  /** `impl Storage for SledStorage`: each request answered with the reply its
      trait method promises, and only the mutating requests change the store. */
  function Handle(db: Db, f: Faults, req: Request): (r: Response)
    ensures r.result.Ok? ==> Answers(req, r.result.value)
    ensures !Mutates(req) ==> r.db == db
    ensures req.GetAllItems? ==> r.result.Ok?
  {
    match req
    case Init => Unit(Init(db))
    case GetAllItems =>
      Response(db, match GetAllItems(db, f) case Ok(items) => Ok(Items(items)) case Err(e) => Err(e))
    case GetItem(id) =>
      Response(db, match GetItem(db, f, id) case Ok(found) => Ok(Found(found)) case Err(e) => Err(e))
    case AddItem(item) => Unit(AddItem(db, f, item))
    case UpdateItem(item) => Unit(UpdateItem(db, f, item))
    case RemoveItem(id) => Unit(RemoveItem(db, f, id))
    case ClearNonPinned => Unit(ClearNonPinned(db, f))
    case Flush => Unit(Flush(db, f))
  }

  /** Each request runs the `SledStorage` operation of the same name: the
      store it leaves, and its success or error, are that operation's. */
  lemma HandleRunsOperation(db: Db, f: Faults, req: Request)
    ensures var r := Handle(db, f, req);
            && (req.Init? ==> r == Unit(Init(db)))
            && (req.GetAllItems? ==> r == Response(db, Ok(Items(GetAllItems(db, f).value))))
            && (req.GetItem? ==>
                  && r.db == db
                  && (r.result.Ok? <==> GetItem(db, f, req.id).Ok?)
                  && (r.result.Ok? ==> r.result.value == Found(GetItem(db, f, req.id).value))
                  && (r.result.Err? ==> r.result.error == GetItem(db, f, req.id).error))
            && (req.AddItem? ==> r == Unit(AddItem(db, f, req.item)))
            && (req.UpdateItem? ==> r == Unit(UpdateItem(db, f, req.item)))
            && (req.RemoveItem? ==> r == Unit(RemoveItem(db, f, req.id)))
            && (req.ClearNonPinned? ==> r == Unit(ClearNonPinned(db, f)))
            && (req.Flush? ==> r == Unit(Flush(db, f)))
  {
    match req
    case Init =>
    case GetAllItems =>
    case GetItem(id) =>
    case AddItem(item) =>
    case UpdateItem(item) =>
    case RemoveItem(id) =>
    case ClearNonPinned =>
    case Flush =>
  }
}
