/** The `Storage` trait as a closed set of requests: exactly the eight methods
    the trait declares, with the reply shape each method's signature promises. */
module StorageTrait {
  import opened Wrappers
  import opened Uuids
  import opened Clipboard

  datatype Request =
    | Init
    | GetAllItems
    | GetItem(id: Uuid)
    | AddItem(item: ClipboardItem)
    | UpdateItem(item: ClipboardItem)
    | RemoveItem(id: Uuid)
    | ClearNonPinned
    | Flush

  /** The success value of a request: `()`, `Vec<ClipboardItem>` or
      `Option<ClipboardItem>`. */
  datatype Reply =
    | Done
    | Items(items: seq<ClipboardItem>)
    | Found(item: Option<ClipboardItem>)

  /** The reply type each trait method returns on success. */
  predicate Answers(req: Request, reply: Reply) {
    match req
    case GetAllItems => reply.Items?
    case GetItem(_) => reply.Found?
    case _ => reply.Done?
  }

  /** The requests that may change what is stored. */
  predicate Mutates(req: Request) {
    req.AddItem? || req.UpdateItem? || req.RemoveItem? || req.ClearNonPinned?
  }
}
