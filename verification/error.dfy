/** The error kinds of the clipboard manager (`ClipboardError`). The message
    strings the Rust code attaches to each kind carry no behaviour and are dropped. */
module Errors {

  datatype ClipboardError =
    | Io
    | Serialization
    | Clipboard
    | Storage
    | Ui
    | Config
    | Unexpected
}
