# Clipboard history engine, modelled in Dafny

This project models the in-memory behaviour of a desktop clipboard-history
manager. It has four parts:

- **The storage engine.** `SledStorage` implements the `Storage` trait. The store is a finite map from 16-byte keys to records. The key is the item's uuid, laid out as in section 4.1.2 of RFC 4122. A record is either a decodable `ClipboardItem` or a blob that does not decode. Engine failures are an input: the keys whose reads fail, the keys whose writes fail, and whether `flush` fails. The full scan visits keys in ascending byte order, as the engine iterates them. It then applies a stable sort, newest first.
- **The clipboard watcher.** The loop body that detects a change is a pure step from the last content seen and one reading to the new last content and an optional emitted item. A fold over a sequence of readings states the dedup invariant. The watcher object is a small state machine: the `running` flag, the channel's receiving end (held, handed out, or dropped), and the items the channel accepted.
- **The content model.** This covers `ClipboardItem::new`, `matches_search`, the `Display` preview, and how `get_current_content` chooses between the text and image readings.
- **The coordinator.** `ClipboardManagerApp` is a sequential state machine over the cached items, the search query, the store and the system clipboard. Every task a message starts runs to completion at once, and its completion message is handled next (`Settle`). The model also covers the search filter of `view`, and `sanitize_text` from the utilities.

Strings are byte sequences (`Text.Str`), so lengths are byte counts. A Rust `String` is always valid UTF-8; the model assumes that of every string and does not enforce it. `Text.Str` admits any bytes, and `Text.IsCharBoundary` agrees with Rust's `is_char_boundary` only on valid UTF-8. Slicing a string is partial, as `&s[..n]` is in Rust. Uuids, timestamps and clipboard reads are parameters.

Modules, in dependency order:

| file | module | models |
|---|---|---|
| `wrappers.dfy` | `Wrappers` | `Option` and `Result` |
| `error.dfy` | `Errors` | the `ClipboardError` kinds |
| `text.dfy` | `Text` | byte strings: char boundaries and slicing, ASCII lowercase, substring search, trim, decimal rendering |
| `uuid.dfy` | `Uuids` | the uuid fields and their 16-byte big-endian layout |
| `clipboard.dfy` | `Clipboard` | contents, items, search, preview, content selection |
| `ordering.dfy` | `Ordering` | the engine's key order and the stable newest-first sort |
| `storage_trait.dfy` | `StorageTrait` | the trait's requests and the replies they promise |
| `sled_storage.dfy` | `SledStorage` | the store and every trait operation |
| `storage.dfy` | `Storage` | `create_storage` |
| `watcher.dfy` | `Watcher` | change detection and the watcher state machine |
| `app.dfy` | `App` | the coordinator |
| `utils.dfy` | `Utils` | `sanitize_text` |

## Model

| member | source | states |
|---|---|---|
| Uuids.FromBytesAsBytes | src/storage/sled_storage.rs:31-33 | reading the fields back from the 16 bytes gives the uuid back |
| Uuids.AsBytesFromBytes | src/storage/sled_storage.rs:31-33 | every 16-byte string is the layout of the uuid read from it |
| Uuids.AsBytesInjective | src/storage/sled_storage.rs:31-33 | distinct uuids have distinct byte layouts |
| SledStorage.IdToKey | src/storage/sled_storage.rs:31-33 | the uuid can be read back from its key |
| SledStorage.IdToKeyInjective | src/storage/sled_storage.rs:31-33 | two ids share a key if and only if they are equal |
| SledStorage.IdToKeySurjective | src/storage/sled_storage.rs:31-33 | every key is the key of some uuid |
| Ordering.KeysAscending | src/storage/sled_storage.rs:55 | the scan visits each key of the store exactly once, in strictly ascending byte order |
| Ordering.SortNewestFirst | src/storage/sled_storage.rs:70 | `sort_by` descending timestamp: the result is non-increasing in timestamp, is a permutation of the input, and keeps the relative order of items with equal timestamps |
| Ordering.InsertNewestFirst | src/storage/sled_storage.rs:70 | one insertion step keeps the list newest first |
| Ordering.InsertStampedAt | src/storage/sled_storage.rs:70 | an inserted item passes over only strictly newer items, so it lands first among the items with its own timestamp |
| SledStorage.Collect | src/storage/sled_storage.rs:55-67 | the scan loop keeps at most one item per visited key, and every item it keeps is a record of the store (the exact membership is `CollectMembers`) |
| SledStorage.CollectMembers | src/storage/sled_storage.rs:55-67 | the loop keeps an item exactly when some visited key holds it as a readable, decodable record; read errors and undecodable values are skipped |
| SledStorage.CollectCount | src/storage/sled_storage.rs:55-67 | over distinct keys, the loop keeps one item per readable decodable record |
| SledStorage.GetAllItems | src/storage/sled_storage.rs:52-73 | never fails; its items are exactly the decodable records the scan can read, newest first |
| SledStorage.GetAllItemsCount | src/storage/sled_storage.rs:52-73 | it returns exactly as many items as there are readable decodable records |
| SledStorage.GetAllItemsStable | src/storage/sled_storage.rs:69-70 | items with equal timestamps keep their relative order from the unsorted scan |
| SledStorage.CollectKeyAscending | src/storage/sled_storage.rs:55-67 | in a well-keyed store, the scan loop over keys in ascending order yields its items in strictly ascending order of their ids' keys |
| Ordering.StampedAtMembers | src/storage/sled_storage.rs:69-70 | the items a timestamp selects are exactly the list's items with that timestamp |
| SledStorage.StampedAtKeyAscending | src/storage/sled_storage.rs:69-70 | selecting the items with one timestamp keeps their key order |
| SledStorage.GetAllItemsTiesByKey | src/storage/sled_storage.rs:52-73 | in a well-keyed store, items with equal timestamps come out in strictly ascending key order, the engine's iteration order, because the sort is stable |
| SledStorage.GetItem | src/storage/sled_storage.rs:75-86 | a failed read is an error; an absent key is `Ok(None)`; a decodable record is `Ok(Some(item))`; an undecodable one is a serialization error |
| SledStorage.Upsert | src/storage/sled_storage.rs:88-110 | the shared insert fails with a storage error and changes nothing exactly when the item's key cannot be written; otherwise it succeeds, adds or overwrites only that key with the item, and keeps every other record |
| SledStorage.AddItem | src/storage/sled_storage.rs:88-98 | a write to an unwritable key fails with a storage error and leaves the store unchanged; otherwise the item is stored under its own key; every other key keeps its record |
| SledStorage.UpdateItem | src/storage/sled_storage.rs:100-110 | the same insert as `add_item`: a write to an unwritable key fails with a storage error and changes nothing; otherwise an unknown id is simply added, and there is no not-found error |
| SledStorage.UpdateIsAdd | src/storage/sled_storage.rs:100-110 | `update_item` and `add_item` have exactly the same effect and result |
| SledStorage.RemoveItem | src/storage/sled_storage.rs:112-121 | deletes only the id's key and succeeds even when the key is absent; a failed write changes nothing |
| SledStorage.GetAfterAdd | src/storage/sled_storage.rs:75-98 | after `add_item(it)`, `get_item(it.id)` is `Ok(Some(it))` and every other lookup is unchanged |
| SledStorage.GetAfterRemove | src/storage/sled_storage.rs:75-86 | after `remove_item(id)`, `get_item(id)` is `Ok(None)` and every other lookup is unchanged |
| SledStorage.GetItemInScan | src/storage/sled_storage.rs:52-86 | an item a point lookup finds is also in the full scan |
| SledStorage.RemoveUnpinned | src/storage/sled_storage.rs:129-134 | the removal loop only deletes keys, never alters a record, and its only error is a storage error (which keys go is `RemoveUnpinnedEffect`) |
| SledStorage.RemoveUnpinnedEffect | src/storage/sled_storage.rs:129-134 | the removal loop removes the unpinned items' keys in scan order and stops at the first failing removal; earlier removals stay, and the loop fails exactly when some removal fails |
| SledStorage.ClearNonPinned | src/storage/sled_storage.rs:123-138 | only removes records and never alters one; its only error is a storage error; the result is `()` and the removal count is not returned |
| SledStorage.ClearNonPinnedEffect | src/storage/sled_storage.rs:123-138 | in a well-keyed store, pinned, undecodable and unreadable records always stay; on success every readable unpinned record is gone; it fails exactly when some such record cannot be removed |
| SledStorage.ClearNonPinnedKeepsPinned | src/storage/sled_storage.rs:123-138 | in a well-keyed store with no engine failure, exactly the pinned and the undecodable records remain |
| SledStorage.UpsertKeepsWellKeyed | src/storage/sled_storage.rs:88-110 | after an insert, every record still sits under its own id's key |
| SledStorage.RemoveKeepsWellKeyed | src/storage/sled_storage.rs:112-121 | after a removal, every record still sits under its own id's key |
| SledStorage.ClearKeepsWellKeyed | src/storage/sled_storage.rs:123-138 | after bulk eviction, every record still sits under its own id's key |
| SledStorage.Flush | src/storage/sled_storage.rs:140-147 | the barrier leaves the abstract store unchanged and fails exactly when the engine's flush fails |
| SledStorage.Init | src/storage/sled_storage.rs:47-50 | `init` succeeds and changes nothing |
| SledStorage.Handle | src/storage/mod.rs:11-35 | each of the eight trait operations answers with the reply its signature promises (`()`, the item list, or found/absent); only the mutating ones change the store; the scan never fails |
| SledStorage.HandleRunsOperation | src/storage/sled_storage.rs:46-148 | each request runs the `SledStorage` operation of the same name: for `()` requests the reply and the store left behind are that operation's, the scan's items are `get_all_items`' items, and a lookup's reply or error is `get_item`'s |
| Storage.CreateStorage | src/storage/mod.rs:38-42 | an error from opening or from `init` is returned and no store is produced; otherwise the opened store is returned unchanged |
| Watcher.ContentsEqual | src/clipboard/watcher.rs:112-127 | comparing the variant and then every field (text, or the image's width, height, bytes per pixel and bytes) holds exactly when the two contents are equal |
| Watcher.ContentsEqualIsEquality | src/clipboard/watcher.rs:112-127 | `contents_equal` holds exactly when the contents are structurally equal; so it is reflexive and symmetric, and a text never equals an image |
| Watcher.Sample | src/clipboard/watcher.rs:58-60 | a tick yields a reading exactly when the manager could be built; that reading is never an error and never empty text |
| Watcher.SampledRunHasNoBlankText | src/clipboard/watcher.rs:54-97 | over polls whose readings are ones `Sample` can produce, the loop never emits an empty text |
| Watcher.Step | src/clipboard/watcher.rs:58-96 | an item is emitted exactly when a content is read and differs from the last one (any content counts when there is none); the emitted item has that content and is unpinned, and the content becomes the last one; an empty clipboard, a read error or a manager failure emits nothing and keeps the last content |
| Watcher.Watch | src/clipboard/watcher.rs:54-97 | over any sequence of polls, consecutive emitted contents differ; the first differs from the starting content; the last content seen is that of the last item emitted |
| Watcher.ExtendRun | src/clipboard/watcher.rs:54-97 | one more tick keeps those properties of a run |
| Watcher.WatchSnoc | src/clipboard/watcher.rs:54-97 | one more poll extends the run by exactly what one step from the last content seen produces |
| Watcher.WatchIgnoresBlankPolls | src/clipboard/watcher.rs:85-95 | inserting a poll that reports no content anywhere in a run changes nothing |
| Watcher.RepeatedReadEmitsOnce | src/clipboard/watcher.rs:60-90 | reads "x", "x", "y" emit exactly the contents "x" and "y" |
| Watcher.TextThenBlank | src/clipboard/watcher.rs:60-90 | a text read followed by an empty clipboard emits one item and keeps the text as the last content |
| Watcher.EmptyReadDoesNotReset | src/clipboard/watcher.rs:60-90 | reads "x", empty, "x" emit one item |
| Watcher.New | src/clipboard/watcher.rs:23-31 | not running, no last content, receiver present, nothing delivered |
| Watcher.TakeReceiver | src/clipboard/watcher.rs:34-36 | `Option::take`: a held receiver is handed out and becomes taken; a receiver already taken or dropped stays as it is and nothing is handed out; nothing else changes |
| Watcher.TakeReceiverOnce | src/clipboard/watcher.rs:23-36 | the first `take_receiver` on a new watcher gets the receiver, the second does not |
| Watcher.Start | src/clipboard/watcher.rs:39-45 | always `Ok`; spawns the loop exactly when not yet running; afterwards the watcher is running and nothing else changes |
| Watcher.StartIdempotent | src/clipboard/watcher.rs:39-45 | a second `start` changes nothing and spawns nothing |
| Watcher.Stop | src/clipboard/watcher.rs:106-109 | clears the flag and nothing else |
| Watcher.StoppedLoopIsIdle | src/clipboard/watcher.rs:54-55 | ticks that begin after `stop` cleared the flag read nothing and deliver nothing. The flag is checked before the 500 ms wait, so a `stop` usually lands while a tick is waiting; that tick still reads and may emit once more, and the model counts it as a tick taken before the stop |
| Watcher.DropReceiver | src/clipboard/watcher.rs:80-82 | dropping a handed-out receiver makes it dropped; otherwise nothing changes |
| Watcher.Tick | src/clipboard/watcher.rs:54-96 | a stopped watcher's loop does nothing; a running one takes one step, and the channel accepts the emitted item unless the receiver was dropped; the flag and the receiver are untouched |
| Watcher.SendFailureKeepsLast | src/clipboard/watcher.rs:72-82 | a failed send does not undo the update of the last content, so that content is not emitted again |
| Watcher.ApplyKeepsDeduplicated | src/clipboard/watcher.rs:39-109 | start, stop, receiver hand-off, receiver drop and ticks all keep the delivered items free of back-to-back repeats |
| Watcher.RunDeduplicates | src/clipboard/watcher.rs:39-109 | under any interleaving of those events, the channel never accepts the same content twice in a row |
| Watcher.NewDeduplicated | src/clipboard/watcher.rs:23-31 | a new watcher satisfies that invariant |
| Clipboard.NewItem | src/clipboard/mod.rs:39-46 | keeps the content verbatim, is unpinned, and takes the given id and time |
| Clipboard.MatchesSearch | src/clipboard/mod.rs:49-59 | an empty query matches every item, and only a text can match a non-empty query (the substring condition is `MatchesSearchSpec`) |
| Clipboard.MatchesSearchSpec | src/clipboard/mod.rs:49-59 | an empty query matches every item; for a non-empty query, an image never matches and a text matches exactly when the lowercased query occurs in the lowercased text |
| Text.ContainsIff | src/clipboard/mod.rs:55 | the substring test holds exactly when the needle occurs at some offset |
| Text.SliceTo | src/clipboard/mod.rs:67 | `&s[..n]` succeeds exactly when `n` is at most the length and on a character boundary, and then returns the first `n` bytes |
| Text.FloorCharBoundary | src/clipboard/mod.rs:67 | the largest character boundary not after `n` |
| Text.Trim | src/utils.rs:51 | the result is a slice of the input with only whitespace before and after it, and it has no whitespace at either end |
| Text.TrimUnique | src/utils.rs:51 | any slice meeting that description is the trimmed string |
| Text.Decimal | src/clipboard/mod.rs:74 | `{}` on a number: a non-empty string of decimal digits with no leading zero unless the number is 0 |
| Text.DecimalRoundTrip | src/clipboard/mod.rs:74 | the decimal digits of a number read back as that number |
| Clipboard.DisplayAsWritten | src/clipboard/mod.rs:63-77 | the preview as written: a text of at most 50 bytes is itself; a longer one is its first 47 bytes plus "...", exactly 50 bytes, when byte 47 is a character boundary, and otherwise the slice panics; an image is "Image {width}x{height}" |
| Clipboard.DisplayPanicsInsideCharacter | src/clipboard/mod.rs:66-67 | a 58-byte text whose byte 47 is inside "é" makes the preview panic |
| Clipboard.Display | src/clipboard/mod.rs:63-77 | the preview cut at the last character boundary at or before byte 47: never panics, never longer than 50 bytes |
| Clipboard.DisplayAgreesWhenNoPanic | src/clipboard/mod.rs:63-77 | wherever the preview as written does not panic, the corrected one is the same |
| Clipboard.ImageLabel | src/clipboard/mod.rs:73-75 | the image preview starts with "Image " and continues with decimal digits and the `x` separator only (its inverse is `ImageLabelRoundTrip`) |
| Clipboard.ImageLabelRoundTrip | src/clipboard/mod.rs:73-75 | the image preview can be parsed back into exactly the width and height |
| Clipboard.CurrentContent | src/clipboard/mod.rs:93-115 | never an error and never empty text; a successful non-empty text read wins; otherwise the result is the image exactly when the image read succeeds, else `None` |
| App.Find | src/app.rs:121 | `iter().find`: the result is the first cached item with the id (no earlier item has it), and there is none exactly when no cached item has the id |
| App.LoadItems | src/app.rs:279-287 | the store's scan: exactly the readable decodable records, newest first |
| App.TogglePin | src/app.rs:144-145 | the copy written back is identical except that `pinned` is negated |
| App.Persist | src/app.rs:106-110 | a storage task runs its operation, then `flush` only if the operation succeeded |
| App.StorageTask | src/app.rs:103-119 | the store receives the operation and at most a `flush` after it; whatever happened, completion is `ReloadItems` |
| App.CopyTask | src/app.rs:120-137 | selecting a cached item makes one clipboard write of its content; the clipboard holds that content unless the write fails; the task completes with `Message::None` (`Nop`) |
| App.Update | src/app.rs:97-230 | every completion message ranks below its message, so settling ends; only `ItemsLoaded` replaces the cache, and it replaces it wholesale; only `SearchChanged` sets the query |
| App.UpdateTouches | src/app.rs:97-230 | only `SelectItem` touches the clipboard; only storage-mutating messages touch the store |
| App.UpdateFollowUp | src/app.rs:103-227 | a message is followed by a reload exactly when it mutates storage and acts (a pin acts only on a cached id); a reload makes one scan and hands its result to `ItemsLoaded` |
| App.UpdatePin | src/app.rs:142-165 | pinning a cached item is the storage task that writes the toggled copy |
| App.UpdateNewItem | src/app.rs:103-119 | a reported clipboard item is the storage task that adds it |
| App.UpdateAsStorageTask | src/app.rs:166-201 | a removal sends `remove_item` of its id and "Clear History" sends `clear_non_pinned`, each as a storage task |
| App.UpdateRemove | src/app.rs:166-183 | removing an item is the storage task whose request is `remove_item` of that id |
| App.UpdateClear | src/app.rs:184-201 | "Clear History" is the storage task whose request is `clear_non_pinned` |
| App.UpdateSelect | src/app.rs:120-137 | selecting a cached item is the copy task for the first cached item with that id |
| App.UpdateIdle | src/app.rs:228 | `Message::None` leaves the app unchanged, makes no call and starts nothing |
| App.SettleDone | src/app.rs:97-230 | a message that starts no task settles to the state its handling leaves |
| App.SettleNext | src/app.rs:97-230 | a message that starts a task settles as its completion message does, from the state its handling leaves |
| App.ReloadAfterMutation | src/app.rs:103-201 | after a storage-mutating message settles, the cache is the store's scan again, even when the operation or the flush failed |
| App.SelectSettles | src/app.rs:120-137 | once selecting a cached item has settled, the system clipboard holds its content (or is unchanged if the write failed) and nothing else has changed |
| App.RemoveSettles | src/app.rs:166-183 | once removing an id has settled on a well-keyed store whose key for the id is readable and writable, looking the id up gives `Ok(None)`, every other lookup is unchanged, no cached item has the id, and the cache is the store's scan |
| App.ClearSettles | src/app.rs:184-201 | once "Clear History" has settled on a well-keyed store, every pinned, undecodable or unreadable record is untouched; when every evictable key can be written, every evictable record is gone and the cache holds only pinned items; the cache is the store's scan |
| App.OnlyPinnedRemain | src/app.rs:184-201 | helper for `ClearSettles`: a store obtained by deleting every evictable record (and possibly others) scans to pinned items only |
| App.Launch | src/app.rs:35-94 | startup panics when the store or the clipboard manager cannot be created; otherwise the app starts with no query on the opened store, and its first load fills the cache from the scan |
| App.SearchChangesOnlyQuery | src/app.rs:220-223 | `SearchChanged(q)` sets the query and nothing else |
| App.UnknownIdTouchesNothing | src/app.rs:120-165 | pinning or selecting an id that is not cached makes no call and changes nothing |
| App.FindIsStored | src/app.rs:121-145 | in a well-keyed store mirrored by the cache, a cached item is the record under its id's key |
| App.UpdateRequestStores | src/app.rs:151 | a successful `update_item` request stores the item under its key |
| App.PinOnce | src/app.rs:142-165 | pinning a cached item stores its toggled copy under its key, and the reloaded cache finds that copy |
| App.PinTwiceRestores | src/app.rs:142-165 | pinning a cached item twice gives back the original store |
| App.RestoreKey | src/app.rs:142-165 | helper for `PinTwiceRestores`, not a model of these lines: writing a key's old record back restores the map |
| App.NewItemIsCached | src/app.rs:103-119 | a reported item is in the cache after the message settles, unless its key cannot be written or read |
| App.FilterMatching | src/app.rs:239-243 | keeps exactly the items that satisfy `matches_search`, each as often as in the input, in input order |
| App.SubsequenceOfSelf | src/app.rs:236-237 | helper for `View`'s empty-query branch, not a model of these lines: the whole list is in order within itself |
| App.View | src/app.rs:234-244 | an empty query shows every cached item in order; otherwise exactly the cached items matching the query, in cache order |
| Utils.SanitizeText | src/utils.rs:50-59 | the text is trimmed first; if it then fits it is returned as is; otherwise it is its first `max_length - 3` bytes plus "...", exactly `max_length` bytes, when that cut is a character boundary; otherwise the slice panics; when `max_length` is below 3 and the text does not fit, the code panics too (at the subtraction with overflow checks, otherwise at the out-of-range slice) |
| Utils.SanitizePanicsInsideCharacter | src/utils.rs:58 | with limit 50, a padded text whose byte 47 after trimming is inside "é" makes the slice panic |
| Utils.SanitizeTextOnBoundary | src/utils.rs:50-59 | the cut moved back to the last character boundary: never panics, never longer than `max_length` |
| Utils.SanitizeAgreesWhenNoPanic | src/utils.rs:50-59 | wherever the code as written does not panic, the corrected cut is the same |

## Left out

- A store opened from disk is assumed well-keyed: every decodable record sits under its own id's key. Only `add_item` and `update_item` write records, and `SledStorage.UpsertKeepsWellKeyed`, `RemoveKeepsWellKeyed` and `ClearKeepsWellKeyed` show that every operation preserves the property, but `Storage.CreateStorage` and `App.Launch` do not establish it. Without it, `clear_non_pinned` removes by `item.id` rather than by the key the record was read from, so it can delete a pinned record whose key equals an unpinned item's id; `ClearNonPinnedEffect`, `ClearNonPinnedKeepsPinned` and the other well-keyed lemmas do not cover that case.
- The sled engine itself is not modelled: opening, cache size, periodic writes and crash durability. It is a foreign library. `flush` is a barrier that leaves the abstract store unchanged and may fail.
- JSON encoding and decoding are not modelled. A stored value is either a decoded item or an opaque blob that does not decode. Encoding an item is assumed never to fail, because serde_json serialises these plain structs.
- Engine read and write failures are inputs (`Faults`), not simulated I/O.
- Timing, spawning, locking and the channel are not modelled:
  - the 500 ms interval and the 100-slot channel bound, including backpressure when it is full;
  - tokio tasks and `Mutex`;
  - iced `Task` and `Subscription`.
- Steps run one at a time. A `stop` that arrives while a tick is waiting on the 500 ms interval is the normal case, because the flag is checked before the wait; that tick still reads and may emit once more. The model represents it as a tick taken before the `stop`. The model does not cover a `stop` that races an in-flight tick in any other way, or a second loop spawned by a quick stop-then-start while the first loop is still inside a tick.
- `Watcher.Watch` and the watcher state machine range over every reading, including errors and empty text, which `Sample` never produces. `Watcher.SampledRunHasNoBlankText` states what restricting polls to sampled readings adds.
- The arboard clipboard library is not modelled. Its reads are inputs (`CurrentContent`, `Sample`), and a failed write is a flag (`Env.clipboardFails`).
- Uuid generation and the clock are not modelled; the id and the timestamp are parameters.
- `to_lowercase` and `trim` are ASCII approximations. `Text.Lower` folds only A-Z. `Text.IsWhitespace` accepts only space and 0x09-0x0D. Unicode case mapping and Unicode whitespace are not modelled.
- Text.Trim: stated only for ASCII whitespace, because the full Unicode whitespace table is not modelled.
- Clipboard.MatchesSearchSpec: stated for ASCII lowercase only, for the same reason.
- The `SetTheme` message, configuration loading and saving, and the theme are not modelled. They are file I/O and UI.
- All UI code is left out. The `Message` enum of the UI module differs from the arms `update` matches; the model follows the arms of `update`.
- `resize_image` (floating point), `ensure_dir_exists`, `ensure_resources_available` and `get_system_info` (filesystem and environment) are not modelled.
- `main`, the library root and the build script are startup plumbing and are not modelled.
- Error message strings and log lines are not modelled; errors are their `ClipboardError` kind only.
- The trait's `Send + Sync` bound is not modelled.
- The trait is modelled as a request/reply datatype (`StorageTrait`) that `SledStorage.Handle` answers, not as an abstract interface. `SledStorage.HandleRunsOperation` ties every request to the operation of the same name; there is no second implementation of the trait.
- `clear_non_pinned` counts its removals but only logs the count, so the model returns `()` and keeps no count.
- A storage task in `update` runs `flush` only when its operation succeeded, because `?` returns early. It still completes with `ReloadItems` either way. The model follows the code.
- Utils.SanitizeTextOnBoundary: keeps the precondition `max_length >= 3` whenever the trimmed text does not fit. The code as written panics there (`Utils.SanitizeText` returns `SubtractOverflow`: the subtraction panics with overflow checks, and without them the wrapped-around slice end is out of range), and no intended result is evident.
- `SledStorage.GetAllItems` never returns `Err` in the code. Per-record read errors are logged and skipped, so there is no error path to model.

## Findings

| source | as written | input that shows it | evidently intended | confidence | as-written member | corrected member |
|---|---|---|---|---|---|---|
| src/clipboard/mod.rs:66-67 | a text longer than 50 bytes is previewed as `&text[..47]` plus "...", which slices at byte 47 whatever the characters | 46 ASCII bytes, then "é" (0xC3 0xA9), then 10 ASCII bytes: byte 47 is the second byte of "é", so the slice panics | cut at the last character boundary at or before byte 47, so the preview never panics and stays within 50 bytes | not executed; the counterexample is proved about the model | Clipboard.DisplayAsWritten, Clipboard.DisplayPanicsInsideCharacter | Clipboard.Display, Clipboard.DisplayAgreesWhenNoPanic |
| src/utils.rs:58 | a trimmed text longer than `max_length` is cut as `&trimmed[..max_length - 3]`, a byte slice | a space, 46 ASCII bytes, "é", 10 ASCII bytes, with `max_length` 50: after trimming, byte 47 is inside "é", so the slice panics | cut at the last character boundary at or before `max_length - 3` | not executed; the counterexample is proved about the model | Utils.SanitizeText, Utils.SanitizePanicsInsideCharacter | Utils.SanitizeTextOnBoundary, Utils.SanitizeAgreesWhenNoPanic |
