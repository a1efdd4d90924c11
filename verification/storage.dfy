/** `create_storage`: open the engine, then `init` it. Opening reads whatever
    the data directory holds, so its outcome is an input. */
module Storage {
  import opened Wrappers
  import opened Errors
  import SledStorage

  /** An error from opening or from `init` is returned and no store is produced;
      otherwise the store is the opened one, unchanged. */
  function CreateStorage(opening: Result<SledStorage.Db, ClipboardError>): (r: Result<SledStorage.Db, ClipboardError>)
    ensures r.Err? <==> opening.Err?
    ensures r.Err? ==> r.error == opening.error
    ensures r.Ok? ==> r.value == opening.value
  {
    match opening
    case Err(e) => Err(e)
    case Ok(db) =>
      var w := SledStorage.Init(db);
      match w.result
      case Err(e) => Err(e)
      case Ok(_) => Ok(w.db)
  }
}
