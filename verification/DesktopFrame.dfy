/** The frame record that travels with a picture through capture, coding and rendering. */
module DesktopFrames {
  import opened Prelude

  datatype CursorPos = CursorPos(visible: bool, x: int, y: int)

  datatype CursorShapeFormat = RGBA | RGBA_XOR

  datatype CursorShape = CursorShape(
    width: int, height: int, hotspotX: int, hotspotY: int, format: CursorShapeFormat, image: Bytes)

  /** `T` is the picture: encoded bytes, a texture, or only a time stamp. */
  datatype DesktopFrame<T> = DesktopFrame(
    desktop: T,
    cursorPos: Option<CursorPos>,
    cursorShape: Option<CursorShape>,
    timeCaptured: int,
    timeEncoded: int,
    timeReceived: int,
    timeDecoded: int,
    timePresented: int,
    isIDR: bool)
  {
    /** The same metadata around another picture. */
    function GetOtherType<U>(picture: U): DesktopFrame<U> {
      DesktopFrame(picture, cursorPos, cursorShape, timeCaptured, timeEncoded, timeReceived,
                   timeDecoded, timePresented, isIDR)
    }
  }

  /** The cursor data, all times and the key frame mark agree; the pictures may differ. */
  predicate SameMetadata<T, U>(f: DesktopFrame<T>, g: DesktopFrame<U>) {
    && f.cursorPos == g.cursorPos && f.cursorShape == g.cursorShape
    && f.timeCaptured == g.timeCaptured && f.timeEncoded == g.timeEncoded
    && f.timeReceived == g.timeReceived && f.timeDecoded == g.timeDecoded
    && f.timePresented == g.timePresented && f.isIDR == g.isIDR
  }

  type Packet = DesktopFrame<Bytes>
}
