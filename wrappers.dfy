/** Optional values and the error paths of the tile pipeline. */
module Wrappers {

  /** A value that may be absent (a TypeScript optional field or `undefined`). */
  datatype Option<+T> = None | Some(value: T)

  /** Every `throw`, and every reachable crash on `undefined`, the pipeline can raise; crashes only a malformed matrix could cause are preconditions instead. */
  datatype Error =
    | MissingPalette          // a tile reaches an encoder without a palette
    | ColorNotInPalette       // a CROM pixel's 16-bit colour is absent from its palette
    | PaletteTooLarge         // padTo16Values was handed more than 16 colours
    | NoPaletteGroup          // findPalette found no group holding the tile
    | PaddingTooSmall         // padTo was asked to pad data that is already too long
    | MissingBinaryData       // an emitted tile has no encoded payload
    | NeverTerminates         // the older CROM allocator's loop can make no more progress
    | FrameCountMismatch      // an auto animation's frame count differs from autoAnimation
    | WrongImageSize          // an eyecatcher image does not have its fixed size
    | NotEyecatcherPalette    // an eyecatcher image uses a colour outside the system palette
    | CornerNotBlank          // a discarded eyecatcher corner tile is not blank
    | TileAtFFNotBlank        // the pro-gear-spec tile placed at 0xff is not blank

  /** The result of an operation that can throw. */
  datatype Result<+T> = Ok(value: T) | Err(error: Error)

  /** The result of an operation that only changes state and can throw. */
  datatype Outcome = Pass | Fail(error: Error)
}
