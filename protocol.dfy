/**
 * The message vocabulary shared by the controller page, the session server
 * and the controlled app, plus the small value types they exchange.
 */
module Protocol {

  datatype Option<T> = None | Some(value: T)

  /** Coordinates and deltas; the browser's floating-point pixels are modelled as integers. */
  datatype Point = Point(x: int, y: int)

  /** `data.deltaX || 0`: a missing delta counts as 0. */
  function DeltaOrZero(d: Option<int>): int
  {
    match d
    case Some(v) => v
    case None => 0
  }

  /** An opaque transport connection id (socket.id). */
  type SocketId = string

  /**
   * The focus descriptor reported by the app: the element's address
   * (None for null) and its text value (None when the key is absent).
   */
  datatype FocusInfo = FocusInfo(selector: Option<string>, value: Option<string>)

  /** Messages the controller page sends to the server. */
  datatype ControllerEvent =
    | ControllerConnect(code: string)
    | CursorMove(roomId: string, deltaX: int, deltaY: int)
    | SetCursorVisibility(roomId: string, isVisible: bool)
    | Tap(roomId: string)
    | KeyInput(roomId: string, key: string)

  /** Messages the controlled app sends to the server. */
  datatype AppEvent =
    | RegisterAppRoom
    | RejoinAppRoom(code: string)
    | ReportFocusChange(roomId: string, focusInfo: FocusInfo)
    | ReportCursorPosition(roomId: string, pos: Point)

  /** Messages the server sends, either back to the sender or on to a room. */
  datatype ServerEvent =
    | YourRoomId(code: string)
    | RejoinFailed(code: string)
    | InitialState(cursor: Point, cursorVisible: Option<bool>,
                   focusedSelector: Option<string>, focusedValue: Option<string>)
    | ControllerConnected(roomCode: string)
    | ControllerError(message: string)
    | RelayCursorMove(deltaX: int, deltaY: int)
    | RelayCursorVisibility(isVisible: bool)
    | RelayTap(tapRoomId: string)
    | RelayKeyInput(keyRoomId: string, key: string)
    | FocusChange(focusInfo: FocusInfo)
}
