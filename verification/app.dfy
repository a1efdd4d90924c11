/** The coordinator (`ClipboardManagerApp`): the cached item list, the search
    query and the store, changed one message at a time. Every task a message
    starts is run to completion at once; its completion message is returned
    as `next`, and `Settle` keeps handling those until none is left. */
module App {
  import opened Wrappers
  import opened Errors
  import opened Text
  import opened Uuids
  import opened Clipboard
  import opened Ordering
  import opened StorageTrait
  import SledStorage
  import Storage

  /** The messages `update` handles. `SetTheme` is not modelled. */
  datatype Message =
    | ItemsLoaded(items: seq<ClipboardItem>)
    | NewClipboardItem(item: ClipboardItem)
    | SelectItem(id: Uuid)
    | PinItem(id: Uuid)
    | RemoveItem(id: Uuid)
    | ClearItems
    | SearchChanged(query: Str)
    | ReloadItems
    | Nop

  /** The coordinator's state, with the system clipboard it writes to. */
  datatype App = App(
    items: seq<ClipboardItem>,
    query: Str,
    db: SledStorage.Db,
    clipboard: Option<ClipboardContent>)

  /** The failures of the outside world during one message. */
  datatype Env = Env(faults: SledStorage.Faults, clipboardFails: bool)

  /** A call the coordinator makes on its collaborators. */
  datatype Call = StorageCall(request: Request) | SetClipboard(content: ClipboardContent)

  datatype Outcome = Outcome(app: App, calls: seq<Call>, next: Option<Message>)

  /** `items.iter().find(|item| item.id == id)`. */
  function Find(items: seq<ClipboardItem>, id: Uuid): (r: Option<ClipboardItem>)
    ensures r.Some? ==> r.value in items && r.value.id == id
    ensures r.Some? ==> exists i :: 0 <= i < |items| && items[i] == r.value
                                    && forall j :: 0 <= j < i ==> items[j].id != id
    ensures r.None? <==> forall it :: it in items ==> it.id != id
  {
    if |items| == 0 then None
    else if items[0].id == id then Some(items[0])
    else
      assert forall it :: it in items <==> it == items[0] || it in items[1..];
      Find(items[1..], id)
  }

  /** `load_items`: the store's scan, or nothing when the scan fails. */
  function LoadItems(db: SledStorage.Db, f: SledStorage.Faults): (r: seq<ClipboardItem>)
    ensures NewestFirst(r)
    ensures forall it :: it in r <==> exists k :: SledStorage.Yields(db, f, k, it)
  {
    match SledStorage.GetAllItems(db, f)
    case Ok(items) => items
    case Err(_) => []
  }

  /** The copy of `it` that `PinItem` writes back. */
  function TogglePin(it: ClipboardItem): (r: ClipboardItem)
    ensures r.id == it.id && r.content == it.content && r.timestamp == it.timestamp
    ensures r.pinned == !it.pinned
  {
    it.(pinned := !it.pinned)
  }

  datatype Persisted = Persisted(db: SledStorage.Db, calls: seq<Call>)

  /** The body of a storage task: the operation, then `flush` unless the
      operation failed (the `?` returns early). */
  function Persist(db: SledStorage.Db, f: SledStorage.Faults, req: Request): (r: Persisted)
    ensures 1 <= |r.calls| <= 2 && r.calls[0] == StorageCall(req)
    ensures |r.calls| == 2 <==> SledStorage.Handle(db, f, req).result.Ok?
    ensures |r.calls| == 2 ==> r.calls[1] == StorageCall(Flush)
    ensures r.db == SledStorage.Handle(db, f, req).db
  {
    var done := SledStorage.Handle(db, f, req);
    if done.result.Err? then Persisted(done.db, [StorageCall(req)])
    else Persisted(SledStorage.Handle(done.db, f, Flush).db, [StorageCall(req), StorageCall(Flush)])
  }

  /** How far a message is from the end of its chain of completion messages. */
  function Rank(m: Message): nat {
    match m
    case ItemsLoaded(_) => 0
    case Nop => 0
    case ReloadItems => 1
    case _ => 2
  }

  /** A storage task started by `update`: it runs `req`, flushes if that
      succeeded, and completes with `ReloadItems` whatever happened. */
  function StorageTask(app: App, req: Request, env: Env): (o: Outcome)
    ensures o.app == app.(db := SledStorage.Handle(app.db, env.faults, req).db)
    ensures |o.calls| >= 1 && o.calls[0] == StorageCall(req) && o.calls[1..] <= [StorageCall(Flush)]
    ensures o.next == Some(ReloadItems)
  {
    var p := Persist(app.db, env.faults, req);
    Outcome(app.(db := p.db), p.calls, Some(ReloadItems))
  }

  /** `SelectItem` for a cached item: copy its content to the clipboard. */
  function CopyTask(app: App, it: ClipboardItem, env: Env): (o: Outcome)
    ensures o.calls == [SetClipboard(it.content)]
    ensures o.app == app.(clipboard := if env.clipboardFails then app.clipboard else Some(it.content))
    ensures o.next == Some(Nop)
  {
    var clip := if env.clipboardFails then app.clipboard else Some(it.content);
    Outcome(app.(clipboard := clip), [SetClipboard(it.content)], Some(Nop))
  }

  /** A message that asks storage to change something. */
  predicate Mutating(msg: Message) {
    msg.NewClipboardItem? || msg.PinItem? || msg.RemoveItem? || msg.ClearItems?
  }

  /** `update`: every completion message ranks below the message handled;
      only `ItemsLoaded` replaces the cache and only `SearchChanged` the
      query. */
  function Update(app: App, msg: Message, env: Env): (o: Outcome)
    ensures o.next.Some? ==> Rank(o.next.value) < Rank(msg)
    ensures o.app.items == if msg.ItemsLoaded? then msg.items else app.items
    ensures o.app.query == if msg.SearchChanged? then msg.query else app.query
  {
    match msg
    case ItemsLoaded(items) => Outcome(app.(items := items), [], None)
    case NewClipboardItem(item) => StorageTask(app, AddItem(item), env)
    case SelectItem(id) =>
      (match Find(app.items, id)
       case Some(it) => CopyTask(app, it, env)
       case None => Outcome(app, [], None))
    case PinItem(id) =>
      (match Find(app.items, id)
       case Some(it) => StorageTask(app, UpdateItem(TogglePin(it)), env)
       case None => Outcome(app, [], None))
    case RemoveItem(id) => StorageTask(app, Request.RemoveItem(id), env)
    case ClearItems => StorageTask(app, ClearNonPinned, env)
    case SearchChanged(query) => Outcome(app.(query := query), [], None)
    case ReloadItems =>
      Outcome(app, [StorageCall(GetAllItems)], Some(ItemsLoaded(LoadItems(app.db, env.faults))))
    case Nop => Outcome(app, [], None)
  }

  /** Only `SelectItem` touches the clipboard and only storage-mutating
      messages the store. */
  lemma UpdateTouches(app: App, msg: Message, env: Env)
    ensures !msg.SelectItem? ==> Update(app, msg, env).app.clipboard == app.clipboard
    ensures !Mutating(msg) ==> Update(app, msg, env).app.db == app.db
  {
  }

  /** A storage-mutating message that acts is always followed by a reload,
      and a reload reads the whole store into the next message. */
  lemma UpdateFollowUp(app: App, msg: Message, env: Env)
    ensures Update(app, msg, env).next == Some(ReloadItems) <==>
              Mutating(msg) && (msg.PinItem? ==> Find(app.items, msg.id).Some?)
    ensures msg.ReloadItems? ==>
              && Update(app, msg, env).calls == [StorageCall(GetAllItems)]
              && Update(app, msg, env).next == Some(ItemsLoaded(LoadItems(app.db, env.faults)))
  {
  }

  /** A message handled together with every completion message it leads to. */
  function Settle(app: App, msg: Message, env: Env): App
    decreases Rank(msg)
  {
    var o := Update(app, msg, env);
    match o.next
    case None => o.app
    case Some(m) => Settle(o.app, m, env)
  }

  /** `Message::None` does nothing. */
  lemma UpdateIdle(app: App, msg: Message, env: Env)
    requires msg.Nop?
    ensures Update(app, msg, env) == Outcome(app, [], None)
  {
  }

  /** Settling a message whose handling starts no task is handling it. */
  lemma SettleDone(app: App, msg: Message, env: Env)
    requires Update(app, msg, env).next.None?
    ensures Settle(app, msg, env) == Update(app, msg, env).app
  {
  }

  /** Settling a message is settling its completion message from the state
      its handling leaves. */
  lemma SettleNext(app: App, msg: Message, env: Env)
    requires Update(app, msg, env).next.Some?
    ensures Settle(app, msg, env) == Settle(Update(app, msg, env).app, Update(app, msg, env).next.value, env)
  {
  }

  /** After a storage-mutating message has settled, the cache is the store's
      scan again, even when the operation or the flush failed; the query and
      the clipboard are untouched. */
  lemma {:induction false} ReloadAfterMutation(app: App, msg: Message, env: Env, req: Request)
    requires Update(app, msg, env) == StorageTask(app, req, env)
    ensures var db' := SledStorage.Handle(app.db, env.faults, req).db;
            Settle(app, msg, env) == app.(db := db', items := LoadItems(db', env.faults))
  {
    var db' := SledStorage.Handle(app.db, env.faults, req).db;
    var a1 := app.(db := db');
    assert Update(app, msg, env).app == a1;
    assert Settle(app, msg, env) == Settle(a1, ReloadItems, env);
    var loaded := ItemsLoaded(LoadItems(db', env.faults));
    UpdateFollowUp(a1, ReloadItems, env);
    UpdateTouches(a1, ReloadItems, env);
    assert Update(a1, ReloadItems, env).app == a1;
    assert Settle(a1, ReloadItems, env) == Settle(a1, loaded, env);
    UpdateTouches(a1, loaded, env);
    assert Update(a1, loaded, env) == Outcome(a1.(items := loaded.items), [], None);
  }

  /** Pinning a cached item is the storage task that writes its toggled copy. */
  lemma UpdatePin(app: App, id: Uuid, env: Env, it: ClipboardItem)
    requires Find(app.items, id) == Some(it)
    ensures Update(app, PinItem(id), env) == StorageTask(app, UpdateItem(TogglePin(it)), env)
  {
  }

  /** A reported clipboard item is the storage task that adds it. */
  lemma UpdateNewItem(app: App, item: ClipboardItem, env: Env)
    ensures Update(app, NewClipboardItem(item), env) == StorageTask(app, AddItem(item), env)
  {
  }

  /** Removing an item is the storage task that removes its id. */
  lemma UpdateRemove(app: App, id: Uuid, env: Env)
    ensures Update(app, Message.RemoveItem(id), env) == StorageTask(app, Request.RemoveItem(id), env)
  {
    UpdateAsStorageTask(app, Message.RemoveItem(id), env);
  }

  /** "Clear History" is the storage task that evicts the unpinned items. */
  lemma UpdateClear(app: App, env: Env)
    ensures Update(app, ClearItems, env) == StorageTask(app, ClearNonPinned, env)
  {
    UpdateAsStorageTask(app, ClearItems, env);
  }

  /** The request a removal or "Clear History" message sends. */
  function StorageRequest(msg: Message): Request
    requires msg.RemoveItem? || msg.ClearItems?
  {
    if msg.RemoveItem? then Request.RemoveItem(msg.id) else ClearNonPinned
  }

  /** A removal or "Clear History" message is the storage task that sends its request. */
  lemma UpdateAsStorageTask(app: App, msg: Message, env: Env)
    requires msg.RemoveItem? || msg.ClearItems?
    ensures Update(app, msg, env) == StorageTask(app, StorageRequest(msg), env)
  {
  }

  /** Selecting a cached item is the task that copies its content. */
  lemma UpdateSelect(app: App, id: Uuid, env: Env, it: ClipboardItem)
    requires Find(app.items, id) == Some(it)
    ensures Update(app, SelectItem(id), env) == CopyTask(app, it, env)
  {
  }

  /** Selecting a cached item puts its content on the system clipboard, unless
      that write fails, and changes nothing else. */
  lemma SelectSettles(app: App, id: Uuid, env: Env, it: ClipboardItem)
    requires Find(app.items, id) == Some(it)
    ensures Settle(app, SelectItem(id), env) ==
              app.(clipboard := if env.clipboardFails then app.clipboard else Some(it.content))
  {
    UpdateSelect(app, id, env, it);
    var o := CopyTask(app, it, env);
    SettleNext(app, SelectItem(id), env);
    UpdateIdle(o.app, Nop, env);
    SettleDone(o.app, Nop, env);
  }

  /** Once a removal of a readable, writable key has settled, the store no
      longer holds the id, every other lookup is unchanged, and no cached item
      has the id. */
  lemma {:induction false} RemoveSettles(app: App, id: Uuid, env: Env)
    requires SledStorage.WellKeyed(app.db)
    requires SledStorage.IdToKey(id) !in env.faults.unwritable
    requires SledStorage.IdToKey(id) !in env.faults.unreadable
    ensures var a := Settle(app, Message.RemoveItem(id), env);
            && SledStorage.GetItem(a.db, env.faults, id) == Ok(None)
            && (forall other :: other != id ==>
                  SledStorage.GetItem(a.db, env.faults, other) == SledStorage.GetItem(app.db, env.faults, other))
            && (forall it :: it in a.items ==> it.id != id)
            && CacheMatchesStore(a, env.faults)
  {
    var f := env.faults;
    UpdateRemove(app, id, env);
    ReloadAfterMutation(app, Message.RemoveItem(id), env, Request.RemoveItem(id));
    var db' := SledStorage.RemoveItem(app.db, f, id).db;
    var a := Settle(app, Message.RemoveItem(id), env);
    SledStorage.HandleRunsOperation(app.db, f, Request.RemoveItem(id));
    assert a.db == db';
    SledStorage.RemoveKeepsWellKeyed(app.db, f, id);
    forall other | true
      ensures other != id ==> SledStorage.GetItem(db', f, other) == SledStorage.GetItem(app.db, f, other)
      ensures other == id ==> SledStorage.GetItem(db', f, other) == Ok(None)
    {
      SledStorage.GetAfterRemove(app.db, f, id, other);
    }
    forall it | it in a.items ensures it.id != id {
      var k :| SledStorage.Yields(db', f, k, it);
      assert SledStorage.IdToKey(it.id) == k;
    }
  }

  /** Once "Clear History" has settled on a well-keyed store: every pinned,
      undecodable or unreadable record is untouched; if every evictable key
      can be written, every evictable record is gone and the cache holds
      only pinned items. */
  lemma {:induction false} ClearSettles(app: App, env: Env)
    requires SledStorage.WellKeyed(app.db)
    ensures var a := Settle(app, ClearItems, env);
            && (forall k :: k in app.db && !SledStorage.Evictable(app.db, env.faults, k) ==>
                  k in a.db && a.db[k] == app.db[k])
            && ((forall k :: SledStorage.Evictable(app.db, env.faults, k) ==> k !in env.faults.unwritable) ==>
                  && (forall k :: SledStorage.Evictable(app.db, env.faults, k) ==> k !in a.db)
                  && (forall it :: it in a.items ==> it.pinned))
            && CacheMatchesStore(a, env.faults)
  {
    var f := env.faults;
    UpdateClear(app, env);
    ReloadAfterMutation(app, ClearItems, env, ClearNonPinned);
    var w := SledStorage.ClearNonPinned(app.db, f);
    var a := Settle(app, ClearItems, env);
    SledStorage.HandleRunsOperation(app.db, f, ClearNonPinned);
    assert a.db == w.db;
    SledStorage.ClearNonPinnedEffect(app.db, f);
    if forall k :: SledStorage.Evictable(app.db, f, k) ==> k !in f.unwritable {
      OnlyPinnedRemain(app.db, w.db, f);
    }
  }

  /** A store obtained by deleting records, every evictable one among them,
      scans to pinned items only. */
  lemma OnlyPinnedRemain(db: SledStorage.Db, db': SledStorage.Db, f: SledStorage.Faults)
    requires forall k :: k in db' ==> k in db && db'[k] == db[k]
    requires forall k :: SledStorage.Evictable(db, f, k) ==> k !in db'
    ensures forall it :: it in LoadItems(db', f) ==> it.pinned
  {
    forall it | it in LoadItems(db', f) ensures it.pinned {
      var k :| SledStorage.Yields(db', f, k, it);
      assert SledStorage.Yields(db, f, k, it);
    }
  }

  /** `ClipboardManagerApp::new`: startup panics (`None`) when the store
      cannot be created or the clipboard manager cannot be; otherwise the
      app starts with no query, on the opened store, and its first task
      fills the cache from the store's scan. */
  function Launch(opening: Result<SledStorage.Db, ClipboardError>, managerOk: bool,
                  clipboard: Option<ClipboardContent>, env: Env): (r: Option<App>)
    ensures r.None? <==> opening.Err? || !managerOk
    ensures r.Some? ==> && r.value.db == opening.value && |r.value.query| == 0
                        && r.value.clipboard == clipboard
                        && CacheMatchesStore(r.value, env.faults)
  {
    match Storage.CreateStorage(opening)
    case Err(_) => None
    case Ok(db) =>
      if !managerOk then None
      else
        var app := App([], [], db, clipboard);
        var loaded := ItemsLoaded(LoadItems(db, env.faults));
        UpdateTouches(app, loaded, env);
        Some(Settle(app, loaded, env))
  }

  /** `SearchChanged` sets the query and nothing else. */
  lemma SearchChangesOnlyQuery(app: App, q: Str, env: Env)
    ensures Settle(app, SearchChanged(q), env) == app.(query := q)
  {
  }

  /** Pinning an item that is not cached, or selecting one, makes no storage call. */
  lemma UnknownIdTouchesNothing(app: App, id: Uuid, env: Env)
    requires forall it :: it in app.items ==> it.id != id
    ensures Settle(app, PinItem(id), env) == app
    ensures Settle(app, SelectItem(id), env) == app
    ensures Update(app, PinItem(id), env).calls == []
    ensures Update(app, SelectItem(id), env).calls == []
  {
  }

  /** The cache holds exactly what the store's scan yields. */
  ghost predicate CacheMatchesStore(app: App, f: SledStorage.Faults) {
    app.items == LoadItems(app.db, f)
  }

  /** In a well-keyed store whose scan the cache reflects, the cached item with
      an id is the record stored under that id's key. */
  lemma FindIsStored(app: App, f: SledStorage.Faults, id: Uuid)
    requires SledStorage.WellKeyed(app.db) && CacheMatchesStore(app, f)
    requires Find(app.items, id).Some?
    ensures var k := SledStorage.IdToKey(id);
            k in app.db && k !in f.unreadable && app.db[k] == SledStorage.Stored(Find(app.items, id).value)
  {
    var it := Find(app.items, id).value;
    var k :| SledStorage.Yields(app.db, f, k, it);
  }

  lemma UpdateRequestStores(db: SledStorage.Db, f: SledStorage.Faults, item: ClipboardItem)
    requires SledStorage.IdToKey(item.id) !in f.unwritable
    ensures SledStorage.Handle(db, f, UpdateItem(item)).db == db[SledStorage.IdToKey(item.id) := SledStorage.Stored(item)]
  {
  }

  /** Pinning a cached item, with no storage failure on its key, stores the
      toggled copy under its key, and the reloaded cache finds that copy. */
  lemma PinOnce(app: App, env: Env, id: Uuid, it: ClipboardItem)
    requires SledStorage.WellKeyed(app.db) && CacheMatchesStore(app, env.faults)
    requires Find(app.items, id) == Some(it)
    requires SledStorage.IdToKey(id) !in env.faults.unreadable
    requires SledStorage.IdToKey(id) !in env.faults.unwritable
    ensures var app1 := Settle(app, PinItem(id), env);
            && app1.db == app.db[SledStorage.IdToKey(id) := SledStorage.Stored(TogglePin(it))]
            && SledStorage.WellKeyed(app1.db) && CacheMatchesStore(app1, env.faults)
            && Find(app1.items, id) == Some(TogglePin(it))
  {
    var f := env.faults;
    var k := SledStorage.IdToKey(id);
    var t := TogglePin(it);
    UpdatePin(app, id, env, it);
    ReloadAfterMutation(app, PinItem(id), env, UpdateItem(t));
    var app1 := Settle(app, PinItem(id), env);
    var db1 := SledStorage.Handle(app.db, f, UpdateItem(t)).db;
    assert app1.db == db1;
    UpdateRequestStores(app.db, f, t);
    assert db1 == app.db[k := SledStorage.Stored(t)];
    SledStorage.UpsertKeepsWellKeyed(app.db, f, t);
    assert SledStorage.Yields(db1, f, k, t);
    assert t in app1.items;
    assert Find(app1.items, id).Some?;
    FindIsStored(app1, f, id);
  }

  /** Pinning a cached item twice, with no storage failure on its key, gives
      back the store it started from. */
  lemma PinTwiceRestores(app: App, env: Env, id: Uuid)
    requires SledStorage.WellKeyed(app.db) && CacheMatchesStore(app, env.faults)
    requires Find(app.items, id).Some?
    requires SledStorage.IdToKey(id) !in env.faults.unreadable
    requires SledStorage.IdToKey(id) !in env.faults.unwritable
    ensures Settle(Settle(app, PinItem(id), env), PinItem(id), env).db == app.db
  {
    var k := SledStorage.IdToKey(id);
    var it := Find(app.items, id).value;
    FindIsStored(app, env.faults, id);
    var db0 := app.db;
    assert k in db0 && db0[k] == SledStorage.Stored(it);
    PinOnce(app, env, id, it);
    var app1 := Settle(app, PinItem(id), env);
    PinOnce(app1, env, id, TogglePin(it));
    assert TogglePin(TogglePin(it)) == it;
    RestoreKey(db0, k, SledStorage.Stored(TogglePin(it)));
  }

  lemma RestoreKey(db: SledStorage.Db, k: SledStorage.Key, v: SledStorage.Record)
    requires k in db
    ensures db[k := v][k := db[k]] == db
  {
  }

  /** A clipboard item the watcher reports is stored and, once settled, is in
      the cache, unless its key cannot be written or read. */
  lemma NewItemIsCached(app: App, item: ClipboardItem, env: Env)
    requires SledStorage.IdToKey(item.id) !in env.faults.unwritable
    requires SledStorage.IdToKey(item.id) !in env.faults.unreadable
    ensures item in Settle(app, NewClipboardItem(item), env).items
  {
    UpdateNewItem(app, item, env);
    ReloadAfterMutation(app, NewClipboardItem(item), env, AddItem(item));
    var db' := SledStorage.Handle(app.db, env.faults, AddItem(item)).db;
    assert SledStorage.Yields(db', env.faults, SledStorage.IdToKey(item.id), item);
  }

  // The filter in `view`

  predicate IsSubsequence(a: seq<ClipboardItem>, b: seq<ClipboardItem>)
    decreases |b|
  {
    |a| == 0 || (|b| > 0 && if a[0] == b[0] then IsSubsequence(a[1..], b[1..]) else IsSubsequence(a, b[1..]))
  }

  function FilterMatching(items: seq<ClipboardItem>, query: Str): (r: seq<ClipboardItem>)
    ensures forall it :: it in r ==> MatchesSearch(it, query)
    ensures forall it :: multiset(r)[it] == if MatchesSearch(it, query) then multiset(items)[it] else 0
    ensures IsSubsequence(r, items)
  {
    if |items| == 0 then []
    else
      var rest := FilterMatching(items[1..], query);
      assert items == [items[0]] + items[1..];
      if MatchesSearch(items[0], query) then [items[0]] + rest else rest
  }

  lemma {:induction false} SubsequenceOfSelf(items: seq<ClipboardItem>)
    ensures IsSubsequence(items, items)
  {
    if |items| > 0 { SubsequenceOfSelf(items[1..]); }
  }

  /** The items `view` shows: all cached items when the query is empty,
      otherwise exactly the cached items matching it, in cache order. */
  function View(app: App): (r: seq<ClipboardItem>)
    ensures |app.query| == 0 ==> r == app.items
    ensures forall it :: it in r ==> MatchesSearch(it, app.query)
    ensures forall it :: multiset(r)[it] ==
              if MatchesSearch(it, app.query) then multiset(app.items)[it] else 0
    ensures IsSubsequence(r, app.items)
  {
    if |app.query| == 0 then
      SubsequenceOfSelf(app.items);
      app.items
    else FilterMatching(app.items, app.query)
  }
}
