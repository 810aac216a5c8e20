/** The values the command history stores: bitmaps and commands.
 *
 *  The command classes themselves (ClearCommand, BitmapCommand and the
 *  tool-produced edit commands) are not part of this model; the history only
 *  stores them, hands them out for replay and calls freeResources() on them,
 *  so each is modelled as an opaque tagged value.
 */
module Commands {

  /** A pixel buffer, identified only by an opaque id (its pixels are native memory). */
  datatype Bitmap = Bitmap(id: nat)

  /** A command as the history sees it. */
  datatype Command =
    | Clear                          // ClearCommand: the empty canvas
    | BitmapCommand(bitmap: Bitmap)  // BitmapCommand wrapping a copy of the original image
    | Other(id: nat)                 // any edit command produced by a drawing tool

  /** Java's nullable reference: None stands for null. */
  datatype Option<+T> = None | Some(value: T)

  /** A command that may sit in slot 0 of the history: the base of every replay. */
  predicate IsBase(c: Command) {
    c.Clear? || c.BitmapCommand?
  }
}
