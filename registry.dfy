/**
 * The server's session registry: the map from 4-letter room codes to room
 * records, and one method per socket event (register, rejoin, controller
 * attach, the relays, the snapshot reports, disconnect). What a handler
 * emits is appended to an output log, addressed either back to the sender
 * or to the other members of a room.
 */
module SessionRegistry {
  import opened Protocol
  import opened Text

  const ALPHABET: string := "ABCDEFGHIJKLMNOPQRSTUVWXYZ"
  const CODE_LENGTH: nat := 4
  const ROOM_NOT_FOUND: string := "Room not found"

  /** Exactly four characters, each in 'A'..'Z'. */
  predicate IsRoomCode(s: string)
  {
    |s| == CODE_LENGTH && forall i :: 0 <= i < |s| ==> IsUpperLetter(s[i])
  }

  /** A value Math.random() can return. */
  predicate IsRandom(r: real) { 0.0 <= r < 1.0 }

  /** Math.floor(Math.random() * chars.length): an index into the alphabet for every value Math.random() can return. */
  function LetterIndex(r: real): (k: int)
    ensures IsRandom(r) ==> 0 <= k < |ALPHABET|
  {
    (r * (|ALPHABET| as real)).Floor
  }

  /** One call of generateRoomCode consumes four random draws. */
  predicate IsAttempt(draws: seq<real>)
  {
    |draws| == CODE_LENGTH && forall i :: 0 <= i < |draws| ==> IsRandom(draws[i])
  }

  /** The code that generateRoomCode builds from a sequence of draws, one letter per draw. */
  function CodeFromDraws(draws: seq<real>): string
  {
    if draws == [] then ""
    else CodeFromDraws(draws[..|draws| - 1]) + CharAt(ALPHABET, LetterIndex(draws[|draws| - 1]))
  }

  /** Every draw contributes exactly one upper-case letter, the one it indexes. */
  lemma {:induction false} CodeFromDrawsLetters(draws: seq<real>)
    requires forall i :: 0 <= i < |draws| ==> IsRandom(draws[i])
    ensures |CodeFromDraws(draws)| == |draws|
    ensures forall i :: 0 <= i < |draws| ==> CodeFromDraws(draws)[i] == ALPHABET[LetterIndex(draws[i])]
    ensures forall i :: 0 <= i < |draws| ==> IsUpperLetter(CodeFromDraws(draws)[i])
  {
    if draws != [] {
      var front := draws[..|draws| - 1];
      CodeFromDrawsLetters(front);
      var last := CharAt(ALPHABET, LetterIndex(draws[|draws| - 1]));
      assert CodeFromDraws(draws) == CodeFromDraws(front) + last;
      forall i | 0 <= i < |draws|
        ensures CodeFromDraws(draws)[i] == ALPHABET[LetterIndex(draws[i])]
      {
        if i < |draws| - 1 {
          assert front[i] == draws[i];
        }
      }
    }
  }

  /** generateRoomCode: four random letters; the draws are the values Math.random() returned. */
  method GenerateRoomCode(draws: seq<real>) returns (code: string)
    requires IsAttempt(draws)
    ensures code == CodeFromDraws(draws)
    ensures IsRoomCode(code)
  {
    code := "";
    for i := 0 to CODE_LENGTH
      invariant code == CodeFromDraws(draws[..i])
    {
      assert draws[..i + 1][..i] == draws[..i];
      code := code + CharAt(ALPHABET, LetterIndex(draws[i]));
    }
    assert draws[..CODE_LENGTH] == draws;
    CodeFromDrawsLetters(draws);
  }

  /** The record the server keeps per room. */
  datatype Room = Room(
    appSocket: SocketId,
    controllerSockets: set<SocketId>,
    cursor: Point,
    cursorVisible: bool,
    focusedSelector: Option<string>,
    focusedValue: Option<string>)

  /** A freshly registered room: no controllers, cursor at the origin, hidden, nothing focused. */
  function NewRoom(app: SocketId): Room
  {
    Room(app, {}, Point(0, 0), false, None, None)
  }

  /** socket.emit goes back to the sender; socket.to(room).emit goes to the room's other members. */
  datatype Audience = ToSender(socket: SocketId) | ToRoomPeers(room: string, except: SocketId)

  datatype Emission = Emission(to: Audience, event: ServerEvent)

  predicate NoDuplicates(s: seq<string>)
  {
    forall i, j :: 0 <= i < j < |s| ==> s[i] != s[j]
  }

  /** Whether a socket is the room's app or one of its controllers. */
  predicate Involves(room: Room, s: SocketId)
  {
    room.appSocket == s || s in room.controllerSockets
  }

  /**
   * The position, in iteration order from `from` on, of the first room that
   * involves socket s: the room the disconnect loop stops at.
   */
  function FirstInvolving(order: seq<string>, rooms: map<string, Room>, s: SocketId, from: nat): (r: Option<nat>)
    requires from <= |order|
    requires forall k :: 0 <= k < |order| ==> order[k] in rooms
    ensures r.Some? ==> from <= r.value < |order| && Involves(rooms[order[r.value]], s)
    ensures r.Some? ==> forall k :: from <= k < r.value ==> !Involves(rooms[order[k]], s)
    ensures r.None? ==> forall k :: from <= k < |order| ==> !Involves(rooms[order[k]], s)
    decreases |order| - from
  {
    if from == |order| then None
    else if Involves(rooms[order[from]], s) then Some(from)
    else FirstInvolving(order, rooms, s, from + 1)
  }

  /** Removing one entry of a duplicate-free sequence removes exactly that element. */
  lemma RemoveAt(s: seq<string>, i: nat)
    requires NoDuplicates(s) && i < |s|
    ensures NoDuplicates(s[..i] + s[i + 1..])
    ensures forall c :: c in s[..i] + s[i + 1..] <==> c in s && c != s[i]
  {
    var t := s[..i] + s[i + 1..];
    assert forall k :: 0 <= k < |t| ==> t[k] == if k < i then s[k] else s[k + 1];
    forall c | c in s && c != s[i] ensures c in t {
      var k :| 0 <= k < |s| && s[k] == c;
      if k < i { assert t[k] == c; } else { assert t[k - 1] == c; }
    }
  }

  class Registry {
    /** The rooms Map. */
    var rooms: map<string, Room>
    /** The Map's iteration order: its keys in insertion order. */
    var order: seq<string>
    /** Everything the handlers have emitted. */
    var out: seq<Emission>

    ghost predicate Valid()
      reads this
    {
      && (forall c :: c in rooms ==> IsRoomCode(c))
      && (forall c :: c in rooms <==> c in order)
      && NoDuplicates(order)
    }

    constructor ()
      ensures Valid() && rooms == map[] && order == [] && out == []
    {
      rooms, order, out := map[], [], [];
    }

    /**
     * The do-while loop of register_app_room. Each element of attempts is
     * the four draws of one round; the loop stops at the first round whose
     * code is not already a room.
     */
    method DrawFreshCode(attempts: seq<seq<real>>) returns (code: string)
      requires forall k :: 0 <= k < |attempts| ==> IsAttempt(attempts[k])
      requires exists k :: 0 <= k < |attempts| && CodeFromDraws(attempts[k]) !in rooms
      ensures IsRoomCode(code) && code !in rooms
      ensures exists k :: 0 <= k < |attempts| && code == CodeFromDraws(attempts[k])
                && forall j :: 0 <= j < k ==> CodeFromDraws(attempts[j]) in rooms
    {
      var k := 0;
      code := GenerateRoomCode(attempts[0]);
      while code in rooms
        invariant 0 <= k < |attempts|
        invariant code == CodeFromDraws(attempts[k]) && IsRoomCode(code)
        invariant forall j :: 0 <= j < k ==> CodeFromDraws(attempts[j]) in rooms
        invariant exists m :: k <= m < |attempts| && CodeFromDraws(attempts[m]) !in rooms
        decreases |attempts| - k
      {
        k := k + 1;
        code := GenerateRoomCode(attempts[k]);
      }
    }

    /** register_app_room: a new room under a code no current room has. */
    method RegisterAppRoom(sender: SocketId, attempts: seq<seq<real>>) returns (code: string)
      requires Valid()
      requires forall k :: 0 <= k < |attempts| ==> IsAttempt(attempts[k])
      requires exists k :: 0 <= k < |attempts| && CodeFromDraws(attempts[k]) !in rooms
      modifies this`rooms, this`order, this`out
      ensures Valid()
      ensures IsRoomCode(code) && code !in old(rooms)
      ensures exists k :: 0 <= k < |attempts| && code == CodeFromDraws(attempts[k])
                && forall j :: 0 <= j < k ==> CodeFromDraws(attempts[j]) in old(rooms)
      ensures rooms == old(rooms)[code := NewRoom(sender)]
      ensures order == old(order) + [code]
      ensures out == old(out) + [Emission(ToSender(sender), YourRoomId(code))]
    {
      code := DrawFreshCode(attempts);
      rooms := rooms[code := NewRoom(sender)];
      order := order + [code];
      out := out + [Emission(ToSender(sender), YourRoomId(code))];
    }

    /** rejoin_app_room: take over an existing room as its app and receive its snapshot. */
    method RejoinAppRoom(sender: SocketId, code: string)
      requires Valid()
      modifies this`rooms, this`out
      ensures Valid()
      ensures code in old(rooms) ==>
        && rooms == old(rooms)[code := old(rooms)[code].(appSocket := sender)]
        && out == old(out) + [Emission(ToSender(sender), YourRoomId(code)),
                              Emission(ToSender(sender), InitialState(old(rooms)[code].cursor, None,
                                old(rooms)[code].focusedSelector, old(rooms)[code].focusedValue))]
      ensures code !in old(rooms) ==>
        rooms == old(rooms) && out == old(out) + [Emission(ToSender(sender), RejoinFailed(code))]
    {
      if code in rooms {
        var room := rooms[code];
        rooms := rooms[code := room.(appSocket := sender)];
        out := out + [Emission(ToSender(sender), YourRoomId(code)),
                      Emission(ToSender(sender), InitialState(room.cursor, None, room.focusedSelector, room.focusedValue))];
      } else {
        out := out + [Emission(ToSender(sender), RejoinFailed(code))];
      }
    }

    /** controller_connect: attach a controller and send it the room's snapshot, visibility included. */
    method ControllerConnect(sender: SocketId, code: string)
      requires Valid()
      modifies this`rooms, this`out
      ensures Valid()
      ensures code in old(rooms) ==>
        && rooms == old(rooms)[code := old(rooms)[code].(
                       controllerSockets := old(rooms)[code].controllerSockets + {sender})]
        && out == old(out) + [Emission(ToSender(sender), ControllerConnected(code)),
                              Emission(ToSender(sender), InitialState(old(rooms)[code].cursor,
                                Some(old(rooms)[code].cursorVisible),
                                old(rooms)[code].focusedSelector, old(rooms)[code].focusedValue))]
      ensures code !in old(rooms) ==>
        rooms == old(rooms) && out == old(out) + [Emission(ToSender(sender), ControllerError(ROOM_NOT_FOUND))]
    {
      if code in rooms {
        var room := rooms[code];
        rooms := rooms[code := room.(controllerSockets := room.controllerSockets + {sender})];
        out := out + [Emission(ToSender(sender), ControllerConnected(code)),
                      Emission(ToSender(sender), InitialState(room.cursor, Some(room.cursorVisible),
                        room.focusedSelector, room.focusedValue))];
      } else {
        out := out + [Emission(ToSender(sender), ControllerError(ROOM_NOT_FOUND))];
      }
    }

    /** cursor_move: relayed to the room with missing deltas as 0; no room state changes. */
    method CursorMove(sender: SocketId, roomId: string, deltaX: Option<int>, deltaY: Option<int>)
      requires Valid()
      modifies this`out
      ensures Valid()
      ensures out == old(out) + if roomId in rooms then
        [Emission(ToRoomPeers(roomId, sender), RelayCursorMove(DeltaOrZero(deltaX), DeltaOrZero(deltaY)))]
        else []
    {
      if roomId in rooms {
        out := out + [Emission(ToRoomPeers(roomId, sender), RelayCursorMove(DeltaOrZero(deltaX), DeltaOrZero(deltaY)))];
      }
    }

    /** set_cursor_visibility: stored in the room (last write wins) and relayed. */
    method SetCursorVisibility(sender: SocketId, roomId: string, isVisible: bool)
      requires Valid()
      modifies this`rooms, this`out
      ensures Valid()
      ensures roomId in old(rooms) ==>
        && rooms == old(rooms)[roomId := old(rooms)[roomId].(cursorVisible := isVisible)]
        && out == old(out) + [Emission(ToRoomPeers(roomId, sender), RelayCursorVisibility(isVisible))]
      ensures roomId !in old(rooms) ==> rooms == old(rooms) && out == old(out)
    {
      if roomId in rooms {
        rooms := rooms[roomId := rooms[roomId].(cursorVisible := isVisible)];
        out := out + [Emission(ToRoomPeers(roomId, sender), RelayCursorVisibility(isVisible))];
      }
    }

    /** tap: relayed as-is to the room; no room state changes. */
    method Tap(sender: SocketId, roomId: string)
      requires Valid()
      modifies this`out
      ensures Valid()
      ensures out == old(out) + if roomId in rooms then [Emission(ToRoomPeers(roomId, sender), RelayTap(roomId))] else []
    {
      if roomId in rooms {
        out := out + [Emission(ToRoomPeers(roomId, sender), RelayTap(roomId))];
      }
    }

    /** key_input: relayed as-is to the room; no room state changes. */
    method KeyInput(sender: SocketId, roomId: string, key: string)
      requires Valid()
      modifies this`out
      ensures Valid()
      ensures out == old(out) + if roomId in rooms then [Emission(ToRoomPeers(roomId, sender), RelayKeyInput(roomId, key))] else []
    {
      if roomId in rooms {
        out := out + [Emission(ToRoomPeers(roomId, sender), RelayKeyInput(roomId, key))];
      }
    }

    /** report_focus_change: the focus descriptor is stored (last write wins) and relayed as focus_change. */
    method ReportFocusChange(sender: SocketId, roomId: string, focusInfo: FocusInfo)
      requires Valid()
      modifies this`rooms, this`out
      ensures Valid()
      ensures roomId in old(rooms) ==>
        && rooms == old(rooms)[roomId := old(rooms)[roomId].(
                       focusedSelector := focusInfo.selector, focusedValue := focusInfo.value)]
        && out == old(out) + [Emission(ToRoomPeers(roomId, sender), FocusChange(focusInfo))]
      ensures roomId !in old(rooms) ==> rooms == old(rooms) && out == old(out)
    {
      if roomId in rooms {
        rooms := rooms[roomId := rooms[roomId].(focusedSelector := focusInfo.selector, focusedValue := focusInfo.value)];
        out := out + [Emission(ToRoomPeers(roomId, sender), FocusChange(focusInfo))];
      }
    }

    /** report_cursor_position: stored only, never relayed. */
    method ReportCursorPosition(sender: SocketId, roomId: string, pos: Point)
      requires Valid()
      modifies this`rooms
      ensures Valid()
      ensures roomId in old(rooms) ==> rooms == old(rooms)[roomId := old(rooms)[roomId].(cursor := pos)]
      ensures roomId !in old(rooms) ==> rooms == old(rooms)
    {
      if roomId in rooms {
        rooms := rooms[roomId := rooms[roomId].(cursor := pos)];
      }
    }

    /**
     * disconnect: scan the rooms in iteration order and stop at the first
     * one the socket belongs to; delete it if the socket is its app,
     * otherwise drop the socket from its controllers.
     */
    method Disconnect(sender: SocketId)
      requires Valid()
      modifies this`rooms, this`order
      ensures Valid()
      ensures FirstInvolving(old(order), old(rooms), sender, 0).None? ==>
        rooms == old(rooms) && order == old(order)
      ensures FirstInvolving(old(order), old(rooms), sender, 0).Some? ==>
        var i := FirstInvolving(old(order), old(rooms), sender, 0).value;
        var code := old(order)[i];
        var room := old(rooms)[code];
        if room.appSocket == sender then
          rooms == old(rooms) - {code} && order == old(order)[..i] + old(order)[i + 1..]
        else
          rooms == old(rooms)[code := room.(controllerSockets := room.controllerSockets - {sender})]
          && order == old(order)
      ensures forall c, d :: (c in old(rooms) && d in old(rooms) && c != d
                && (c !in rooms || rooms[c] != old(rooms)[c])) ==> d in rooms && rooms[d] == old(rooms)[d]
    {
      var i := 0;
      while i < |order|
        invariant 0 <= i <= |order|
        invariant rooms == old(rooms) && order == old(order)
        invariant FirstInvolving(order, rooms, sender, i) == FirstInvolving(order, rooms, sender, 0)
      {
        var code := order[i];
        var room := rooms[code];
        if room.appSocket == sender {
          DeleteRoomAt(i);
          break;
        }
        if sender in room.controllerSockets {
          DropController(code, sender);
          break;
        }
        i := i + 1;
      }
    }

    /** `rooms.delete(code)` for the code at position i of the iteration order. */
    method DeleteRoomAt(i: nat)
      requires Valid() && i < |order|
      modifies this`rooms, this`order
      ensures Valid()
      ensures rooms == old(rooms) - {old(order)[i]} && order == old(order)[..i] + old(order)[i + 1..]
      ensures forall d :: d in old(rooms) && d != old(order)[i] ==> d in rooms && rooms[d] == old(rooms)[d]
    {
      RemoveAt(order, i);
      rooms := rooms - {order[i]};
      order := order[..i] + order[i + 1..];
    }

    /** `room.controllerSockets.delete(sender)` for the room under code. */
    method DropController(code: string, sender: SocketId)
      requires Valid() && code in rooms
      modifies this`rooms
      ensures Valid()
      ensures rooms == old(rooms)[code := old(rooms)[code].(controllerSockets := old(rooms)[code].controllerSockets - {sender})]
      ensures forall d :: d in old(rooms) && d != code ==> d in rooms && rooms[d] == old(rooms)[d]
    {
      var room := rooms[code];
      rooms := rooms[code := room.(controllerSockets := room.controllerSockets - {sender})];
    }
  }

  /** The disconnect scan finds nothing exactly when no room has the socket as app or controller. */
  lemma NoRoomInvolvesIffNotFound(order: seq<string>, rooms: map<string, Room>, s: SocketId)
    requires forall c :: c in rooms <==> c in order
    ensures FirstInvolving(order, rooms, s, 0).None? <==> forall c :: c in rooms ==> !Involves(rooms[c], s)
  {
    if FirstInvolving(order, rooms, s, 0).None? {
      forall c | c in rooms ensures !Involves(rooms[c], s) {
        var k :| 0 <= k < |order| && order[k] == c;
      }
    }
  }

  /**
   * Scenario: with the app and two controllers attached, the app's
   * disconnect deletes the room, and a later controller_connect with the
   * same code gets "Room not found".
   */
  method PrimaryLossScenario() returns (code: string, reply: Emission)
    ensures IsRoomCode(code)
    ensures reply == Emission(ToSender("phone-3"), ControllerError(ROOM_NOT_FOUND))
  {
    var registry := new Registry();
    var draws := [0.0, 0.0, 0.0, 0.0];
    var attempts := [draws];
    assert IsAttempt(attempts[0]) && CodeFromDraws(attempts[0]) !in registry.rooms;
    code := registry.RegisterAppRoom("app", attempts);
    registry.ControllerConnect("phone-1", code);
    registry.ControllerConnect("phone-2", code);
    assert FirstInvolving(registry.order, registry.rooms, "app", 0) == Some(0);
    registry.Disconnect("app");
    registry.ControllerConnect("phone-3", code);
    reply := registry.out[|registry.out| - 1];
  }

  /**
   * Scenario: while the room is alive, a rejoin from a new socket
   * receives exactly the last reported cursor position and focus.
   */
  method RejoinRestoresSnapshotScenario() returns (reply: Emission)
    ensures reply == Emission(ToSender("app-2"),
                      InitialState(Point(120, 45), None, Some("#name"), Some("Ann")))
  {
    var registry := new Registry();
    var draws := [0.5, 0.5, 0.5, 0.5];
    var attempts := [draws];
    assert IsAttempt(attempts[0]) && CodeFromDraws(attempts[0]) !in registry.rooms;
    var code := registry.RegisterAppRoom("app-1", attempts);
    registry.ReportCursorPosition("app-1", code, Point(3, 4));
    registry.ReportCursorPosition("app-1", code, Point(120, 45));
    registry.ReportFocusChange("app-1", code, FocusInfo(Some("#name"), Some("Ann")));
    registry.RejoinAppRoom("app-2", code);
    reply := registry.out[|registry.out| - 1];
  }

  /**
   * Once the app's old connection has been reported disconnected, its room
   * is gone, so the reloaded page's rejoin always fails.
   */
  method RejoinAfterDisconnectScenario() returns (reply: Emission)
    ensures reply.event.RejoinFailed?
  {
    var registry := new Registry();
    var draws := [0.25, 0.75, 0.0, 0.99];
    var attempts := [draws];
    assert IsAttempt(attempts[0]) && CodeFromDraws(attempts[0]) !in registry.rooms;
    var code := registry.RegisterAppRoom("app-1", attempts);
    assert FirstInvolving(registry.order, registry.rooms, "app-1", 0) == Some(0);
    registry.Disconnect("app-1");
    registry.RejoinAppRoom("app-2", code);
    reply := registry.out[|registry.out| - 1];
  }
}
