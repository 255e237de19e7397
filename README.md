# Remote-control pairing, modelled in Dafny

This project models the pairing subsystem of a venue-browsing web app. A phone ("controller") acts as a touch pad and keyboard for a large screen ("app"), and a small socket server pairs the two through 4-letter room codes. Three parts are modelled, each in the source's own form:

- **Session registry** (`registry.dfy`, module `SessionRegistry`): the server's `rooms` Map and its socket handlers.
  - `class Registry` keeps a `map<string, Room>` and the Map's insertion order, which decides the first match in the disconnect scan.
  - Every handler is a method that appends what it emits to an output log. Each entry is addressed either back to the sender or to the other members of a room.
  - `Math.random` is a sequence of draws passed in.
- **Gesture classifier** (`gesture.dfy`, module `GestureClassifier`): the controller page.
  - `class TouchPad` holds the page's refs (`isTouching`, `hasMoved`, the start and last touch) and the socket output.
  - Ghost state records the touch path, so that the tap/drag decision and the telescoping of the `cursor_move` deltas can be stated as invariants.
- **Mirror engine** (`mirror.dfy`, module `MirrorEngine`, over `dom.dfy`, module `DomModel`): the app's side.
  - It keeps the virtual cursor in the window and tracks the hover target and its labels.
  - It tracks manual focus and edits the focused field on forwarded keys.
  - It reports cursor positions and focus changes to the server.
  - The page is a static document: a sequence of element records, where an element's position is its identity and its document order. Only text values change.
  - `document.elementFromPoint` is a map from points to elements.
  - Which element is active after a tap's `focus()`/`click()` is an input.

`protocol.dfy` (module `Protocol`) holds the message vocabulary the three exchange. `text.dfy` (module `Text`) holds the JavaScript string operations they rely on: `charAt`, ASCII upper/lower-casing, and decimal rendering.

Behaviours of the code worth knowing:

- The server compares room codes exactly as sent, case-sensitively. The controller page upper-cases the code from its URL (src/client/pages/ControllerPage.jsx:25), and the app upper-cases the code it is assigned (src/client/hooks/useRemoteControl.js:237).
- An app's disconnect deletes its room. So a reloaded page's `rejoin_app_room` always gets `rejoin_failed` once the old connection has been reported gone (`SessionRegistry.RejoinAfterDisconnectScenario`).
- A tap on a label with a `for` is redirected to the named element whenever that element exists, whatever its kind.
- `getUniqueSelector` is not unique. Two elements with the same tag, each at the same position under their own parent, get the same selector, and resolving it finds the first of them (`DomModel.SelectorNotUnique`).
- `getUniqueSelector` writes an id after '#' unescaped. An id that is not a CSS identifier (such as "2fa") yields a selector that `querySelector` rejects, so focus on such an element is not restored after a reload (`MirrorEngine.FocusRestoreRoundTrip`, `DomModel.LeadingDigitIdUnreadable`).
- `key_input` places the caret after editing. On an INPUT type without the selection API, such as email or number, that assignment throws after the value has been set, so the edit is never reported (`MirrorEngine.EmailTypingScenario`).
- `initial_state` places the cursor at the stored position without clamping it to the current window.

## Model

| member | source | states |
|---|---|---|
| Text.CharAt | src/server/server.js:22 | `charAt` gives the one character at an index inside the string, and the empty string outside it |
| Text.ToUpperSpec | src/client/pages/ControllerPage.jsx:25-31 | upper-casing keeps the length, turns every a-z into its A-Z partner, leaves every other character alone, leaves no lower-case letter, and is idempotent |
| Text.ToLowerSpec | src/client/hooks/useRemoteControl.js:27 | lower-casing keeps the length, turns every A-Z into its a-z partner, leaves every other character alone, and is idempotent |
| Text.NatToStringRoundTrip | src/client/hooks/useRemoteControl.js:32 | the decimal text of a number is a non-empty digit string that parses back to the number |
| SessionRegistry.LetterIndex | src/server/server.js:22 | `Math.floor(Math.random() * 26)` is a valid alphabet index for every value in [0, 1) |
| SessionRegistry.CodeFromDrawsLetters | src/server/server.js:18-25 | each random draw contributes exactly one character, the upper-case letter it indexes |
| SessionRegistry.GenerateRoomCode | src/server/server.js:18-25 | the loop builds the code of its four draws, a string of exactly 4 characters in 'A'..'Z' |
| SessionRegistry.Registry.constructor | src/server/server.js:16 | the registry starts with no rooms and nothing emitted |
| SessionRegistry.Registry.DrawFreshCode | src/server/server.js:31-34 | the do-while returns a room code that is not a key of `rooms`: the first attempt whose code is free, with every earlier attempt's code taken |
| SessionRegistry.Registry.RegisterAppRoom | src/server/server.js:30-48 | register_app_room adds a room under a code that was not a key before, so no room is overwritten. The room's app is the requester, with no controllers, cursor (0,0), hidden, and no focus. It is appended to the iteration order, and `your_room_id` goes back to the sender |
| SessionRegistry.Registry.RejoinAppRoom | src/server/server.js:50-65 | on an existing code, the requester becomes the room's app and receives `your_room_id` and `initial_state` with the stored cursor and focus. On an unknown code it receives `rejoin_failed`, and `rooms` is unchanged |
| SessionRegistry.Registry.ControllerConnect | src/server/server.js:67-83 | on an existing code, the socket joins the controller set and receives `controller_connected` and a snapshot that includes `cursorVisible`. On an unknown code it receives "Room not found", and nothing changes |
| SessionRegistry.Registry.CursorMove | src/server/server.js:85-93 | `cursor_move` changes no room and is relayed only to an existing room, with missing deltas sent as 0 |
| SessionRegistry.Registry.SetCursorVisibility | src/server/server.js:95-101 | only the named room's visibility is overwritten (last write wins), then relayed. An unknown room changes nothing |
| SessionRegistry.Registry.Tap | src/server/server.js:103-108 | `tap` changes no room and is relayed only to an existing room |
| SessionRegistry.Registry.KeyInput | src/server/server.js:110-115 | `key_input` changes no room and is relayed only to an existing room |
| SessionRegistry.Registry.ReportFocusChange | src/server/server.js:117-124 | only the named room's focus selector and value are overwritten, then relayed as `focus_change`. An unknown room changes nothing |
| SessionRegistry.Registry.ReportCursorPosition | src/server/server.js:126-131 | only the named room's cursor is overwritten, and nothing is emitted |
| SessionRegistry.FirstInvolving | src/server/server.js:134-145 | the disconnect scan stops at the first room, in iteration order, that has the socket as app or controller; no earlier room has it |
| SessionRegistry.NoRoomInvolvesIffNotFound | src/server/server.js:133-146 | the scan finds nothing exactly when no room has the socket as app or controller |
| SessionRegistry.Registry.Disconnect | src/server/server.js:133-146 | the first room that involves the socket is deleted when the socket is its app, or else loses that controller. At most one room is affected and all others are untouched. With no such room, nothing changes |
| SessionRegistry.Registry.DeleteRoomAt | src/server/server.js:135-138 | deleting a room removes exactly that code from the map and from the iteration order and leaves every other room as it was |
| SessionRegistry.Registry.DropController | src/server/server.js:140-143 | dropping a controller changes only that room's controller set |
| SessionRegistry.PrimaryLossScenario | src/server/server.js:133-146 | after the app of a room with two controllers disconnects, a new controller with the same code gets "Room not found" |
| SessionRegistry.RejoinRestoresSnapshotScenario | src/server/server.js:50-65 | a rejoin receives exactly the last reported cursor position and focus |
| SessionRegistry.RejoinAfterDisconnectScenario | src/server/server.js:133-146 | once the app's connection is gone, a rejoin with its code fails |
| GestureClassifier.ForwardedKey | src/client/pages/ControllerPage.jsx:119-134 | a key is forwarded exactly when it is "Enter", "Backspace" or a single character, and it is forwarded unchanged |
| GestureClassifier.MovesFromSnoc | src/client/pages/ControllerPage.jsx:94-100 | one more emitted message adds its own delta (zero unless it is a `cursor_move`) to the running displacement |
| GestureClassifier.DragRecordedExtend | src/client/pages/ControllerPage.jsx:85-92 | after one more position, the drag flag says whether any position so far lay more than 5 pixels from the start (dx²+dy² > 25) |
| GestureClassifier.TouchPad.constructor | src/client/pages/ControllerPage.jsx:16-31 | a missing or empty room parameter shows the no-room error and opens no socket. Otherwise the room code is the parameter upper-cased |
| GestureClassifier.TouchPad.OnConnect | src/client/pages/ControllerPage.jsx:29-32 | on connect, `controller_connect` is sent with the upper-cased code |
| GestureClassifier.TouchPad.OnControllerConnected | src/client/pages/ControllerPage.jsx:34-38 | the page becomes connected and clears its error |
| GestureClassifier.TouchPad.OnControllerError | src/client/pages/ControllerPage.jsx:40-43 | the page disconnects and shows the server's message, or the default one when the message is missing or empty |
| GestureClassifier.TouchPad.OnDisconnect | src/client/pages/ControllerPage.jsx:45-48 | the page disconnects and shows the disconnected error |
| GestureClassifier.TouchPad.TouchStart | src/client/pages/ControllerPage.jsx:55-70 | while connected, sets touching, clears moved, sets start = last = the pad-local touch, and emits `set_cursor_visibility` true. Otherwise nothing changes |
| GestureClassifier.TouchPad.TouchMove | src/client/pages/ControllerPage.jsx:72-103 | when not touching or not connected, nothing changes. Otherwise emits `cursor_move` with current − last only when that delta is non-zero, and sets last := current. Moved becomes true once a position lies beyond the threshold and stays true. The deltas sent since the touch began add up to last − start |
| GestureClassifier.TouchPad.TouchEnd | src/client/pages/ControllerPage.jsx:105-117 | emits `tap` exactly when a touch was active and never went beyond the threshold, then resets touching and moved. The touch's `cursor_move` deltas sum to the final position minus the start |
| GestureClassifier.TouchPad.KeyPress | src/client/pages/ControllerPage.jsx:119-134 | while connected, Enter, Backspace and single characters are sent unchanged as `key_input`. Every other key, and every key while disconnected, is dropped |
| GestureClassifier.TouchPad.RequestCursorVisibility | src/client/pages/ControllerPage.jsx:181-206 | the Hide/Show Cursor buttons send `set_cursor_visibility` false/true whenever a socket exists |
| GestureClassifier.TapScenario | src/client/pages/ControllerPage.jsx:55-117 | a touch moved by (+2,+1) and (+1,+1) sends both moves and then a tap |
| GestureClassifier.DragBackScenario | src/client/pages/ControllerPage.jsx:85-117 | a touch that goes 10 pixels away and comes back sends both moves and no tap |
| DomModel.Selector | src/client/hooks/useRemoteControl.js:24-36 | getUniqueSelector yields null exactly for no element |
| DomModel.ParseRender | src/client/hooks/useRemoteControl.js:24-36 | every address getUniqueSelector can produce reads back from its text: `#id` when the id is a CSS identifier, `tag` and `tag:nth-child(k)` |
| DomModel.AddressProducible | src/client/hooks/useRemoteControl.js:24-36 | a well-formed element's address reads back from its text exactly when the element has no id or its id is a CSS identifier |
| DomModel.FirstMatch | src/client/hooks/useRemoteControl.js:268 | `querySelector` returns the first element in document order that matches, and None when none does |
| DomModel.QuerySelector | src/client/hooks/useRemoteControl.js:268 | whatever a selector resolves to matches the address the selector spells; an id selector needs a CSS identifier after the '#' |
| DomModel.GetElementById | src/client/hooks/useRemoteControl.js:95 | `getElementById` finds an element with exactly that non-empty id, or none exists |
| DomModel.SelectorRoundTrip | src/client/hooks/useRemoteControl.js:24-36 | resolving an element's selector finds something exactly when the element has no id or a CSS-identifier id. What it finds has the same address and is no later in document order, and it is the element itself exactly when no earlier element shares that address |
| DomModel.UniqueIdRoundTrip | src/client/hooks/useRemoteControl.js:26 | an element whose id no other element shares is found again from its selector when that id is a CSS identifier, and nothing is found otherwise |
| DomModel.LeadingDigitIdUnreadable | src/client/hooks/useRemoteControl.js:26 | "2fa" is not a CSS identifier, so the selector "#2fa" resolves to nothing on any page |
| DomModel.SelectorNotUnique | src/client/hooks/useRemoteControl.js:24-36 | two inputs, each the first child of its own div, share "input:nth-child(1)", which resolves to the first of them |
| DomModel.InteractiveForHoverCases | src/client/hooks/useRemoteControl.js:90-121 | a LABEL with `for` is interactive unless its target exists and is a text input or textarea. BUTTON, A, TEXTAREA, SELECT, the listed INPUT types and "clickable-box" elements are interactive. Every other element, including an INPUT of any other type, is not. Text fields always are |
| DomModel.HoverInputTypesLower | src/client/hooks/useRemoteControl.js:93 | the listed input types are already lower case, so lower-casing an element's type keeps them |
| DomModel.LabelsFor | src/client/hooks/useRemoteControl.js:140-142 | `label[for=id]` yields exactly the labels naming that id, in document order |
| DomModel.HoverTargetSpec | src/client/hooks/useRemoteControl.js:132-156 | the resolved hover target is always interactive. A label whose control is an interactive text field resolves to the control. The labels gathered are exactly the target's associated labels, and empty without a target |
| DomModel.TapTarget | src/client/hooks/useRemoteControl.js:325-337 | the tap target is the element under the cursor, or the element a label's `for` names when that element exists. There is none exactly when nothing is under the cursor |
| DomModel.Clamp | src/client/hooks/useRemoteControl.js:307-314 | `Math.max(0, Math.min(hi, v))` lies in [0, hi], equals v when v is in range, and is 0 below and hi above |
| DomModel.ClampTwice | src/client/hooks/useRemoteControl.js:522-535 | clamping is idempotent, and re-clamping into smaller bounds is clamping once |
| DomModel.KeyEffect | src/client/hooks/useRemoteControl.js:419-450 | the value changes exactly when the key's effect says so, and a submit happens only on Enter in an INPUT inside a form, leaving the value as it was |
| DomModel.KeyEffectCases | src/client/hooks/useRemoteControl.js:419-450 | Backspace drops the last character of a non-empty value and leaves an empty one alone. A single character is appended. Enter appends "\n" on a TEXTAREA, and on an INPUT keeps the value and submits exactly when there is a form. Other keys change nothing |
| DomModel.BackspaceUndoesAppend | src/client/hooks/useRemoteControl.js:421-447 | Backspace after typing a character restores the value |
| DomModel.FocusReport | src/client/hooks/useRemoteControl.js:361-375 | the report's selector is null exactly on the body, and it carries a value exactly for an INPUT or TEXTAREA, namely that field's value |
| MirrorEngine.SelectorsOf | src/client/hooks/useRemoteControl.js:169-171 | the current labels' selectors, one per label in order |
| MirrorEngine.KeepMatching | src/client/hooks/useRemoteControl.js:172-180 | the filter keeps exactly the old labels whose selector is among the current labels' selectors |
| MirrorEngine.AppendMissing | src/client/hooks/useRemoteControl.js:181-186 | the push step keeps the old list as a prefix and ends with exactly the old and the current labels |
| MirrorEngine.KeepAll | src/client/hooks/useRemoteControl.js:172-180 | when every label's selector is wanted, the filter keeps them all in order |
| MirrorEngine.AppendPresent | src/client/hooks/useRemoteControl.js:181-186 | pushing labels that are all present already changes nothing |
| MirrorEngine.SelectorsCover | src/client/hooks/useRemoteControl.js:169-174 | each label's own selector is among the list's selectors |
| MirrorEngine.ReconcileSame | src/client/hooks/useRemoteControl.js:168-187 | reconciling a label list with itself leaves it unchanged |
| MirrorEngine.FilterBySelector | src/client/hooks/useRemoteControl.js:172-180 | the filter loop computes the filter step and removes the class from exactly the labels it drops |
| MirrorEngine.PushMissing | src/client/hooks/useRemoteControl.js:181-186 | the push loop computes the push step and adds the class to exactly the current labels not yet listed |
| MirrorEngine.RestoredFocus | src/client/hooks/useRemoteControl.js:266-269 | a missing or empty stored selector restores nothing. Otherwise the element is what `querySelector` returns for it |
| MirrorEngine.FocusRestoreRoundTrip | src/client/hooks/useRemoteControl.js:261-286 | the selector in a focus report, restored on `initial_state`, finds an element exactly when the reported element has no id or a CSS-identifier id. That element has the same address and is no later than the reported one, and it is the reported one exactly when no earlier element shares the address |
| MirrorEngine.Mirror.constructor | src/client/hooks/useRemoteControl.js:199-202 | on mount, the cursor is at the window's centre and hidden. Nothing is hovered, focused or sent |
| MirrorEngine.Mirror.UpdateCursorPosition | src/client/hooks/useRemoteControl.js:38-49 | the position is reported exactly when the cursor element exists and a room code is assigned |
| MirrorEngine.Mirror.RemoveManualFocus | src/client/hooks/useRemoteControl.js:60-65 | no element keeps the manual-focus class |
| MirrorEngine.Mirror.ApplyManualFocus | src/client/hooks/useRemoteControl.js:67-77 | the element becomes the only manually focused one exactly when it is a text INPUT or a TEXTAREA. Otherwise no element is |
| MirrorEngine.Mirror.RemoveManualHover | src/client/hooks/useRemoteControl.js:79-88 | no hovered element, an empty label list, and no hover classes left |
| MirrorEngine.Mirror.ReconcileLabels | src/client/hooks/useRemoteControl.js:168-187 | when the target is unchanged, the filter and push loops leave the label list and its classes as they were |
| MirrorEngine.Mirror.HandleManualHover | src/client/hooks/useRemoteControl.js:123-188 | with the cursor shown, the hovered element becomes the resolved target of the element under the cursor, with exactly its associated labels. With the cursor hidden, nothing changes |
| MirrorEngine.Mirror.SetCursorVisibility | src/client/hooks/useRemoteControl.js:288-299 | an unchanged value is a no-op. Hiding leaves no hovered element and no labels. Showing hovers the resolved target |
| MirrorEngine.Mirror.CursorMove | src/client/hooks/useRemoteControl.js:301-317 | ignored while the cursor is hidden. Otherwise the new position lies in [0,w]×[0,h] and equals old + delta whenever that is in range (missing deltas count as 0). It is reported, and the hover follows |
| MirrorEngine.Mirror.Resize | src/client/hooks/useRemoteControl.js:522-535 | takes the new size, re-clamps the cursor into it (a cursor already inside stays put), reports it, and updates the hover |
| MirrorEngine.Mirror.Tap | src/client/hooks/useRemoteControl.js:319-408 | with a target, focus goes where focus()/click() left it. Manual focus goes to the target only when focus landed on it and it is a text field. The report carries the active element's selector, and its value when it is editable. Without a target, focus drops to the body and a null selector is reported. The hover is updated either way |
| MirrorEngine.Mirror.KeyInput | src/client/hooks/useRemoteControl.js:410-485 | with an INPUT or TEXTAREA focused, the key's effect is applied to its value, and Enter on an INPUT inside a form submits that form. A report with the field's selector and new value is sent only when the value changed and the field has the selection API (a TEXTAREA, or an INPUT of type text, search, url, tel or password). Otherwise nothing changes |
| MirrorEngine.Mirror.InitialState | src/client/hooks/useRemoteControl.js:261-286 | the cursor takes the stored position and is reported. Manual focus is dropped. An element found by the stored selector gets focus, manual focus if it is a text field, and the stored value if there is one and it is editable |
| MirrorEngine.LabelTapTypingScenario | src/client/hooks/useRemoteControl.js:319-485 | a tap on a label focuses the text input it names. Typing "A" reports "A", and Enter submits the input's form |
| MirrorEngine.EmailTypingScenario | src/client/hooks/useRemoteControl.js:319-485 | a tap on an email input reports it; typing "x" then changes its value but sends no further report |

## Left out

- The socket transport: rooms joined on the server, the connect wiring, and broadcast delivery. Emissions are output logs instead.
- The app's `connect`, `your_room_id`, `rejoin_failed` and `disconnect` handlers, and its use of sessionStorage. The assigned room code is a constant of the mirror ("" while none is assigned).
- React state and effects, the polling for the cursor element, the cursor's colour pulse timers, and the `visible` class on the cursor element.
- The `scroll` handler, because it depends on layout geometry and returns nothing that could be stated.
- The native value setter and the `input`/`change` events of `key_input`, and the caret position. Only the resulting value and the report are modelled.
- The `focusin`/`focusout` listeners.
- The venue, review, tag and user HTTP endpoints, file storage, and the page components.
- Coordinates are integers, so `window.innerWidth / 2` is integer division.
- Case mapping covers ASCII letters only. Strings are sequences of characters, not UTF-16 units: a key's length is counted in characters, and Backspace drops a whole character, where `substring(0, length - 1)` can leave half of a surrogate pair.
- Selectors are parsed only in the three forms getUniqueSelector produces. Most other text makes `querySelector` throw, and the app swallows that, so the model finds nothing for it. A compound selector such as `#a.b` (the selector of an element whose id is "a.b") would match an element with id "a" and class "b"; the model finds nothing for it either.
- DomModel.QuerySelector: CSS escapes are not parsed, so an id selector containing a backslash finds nothing in the model.
- DomModel.LabelsFor: an id containing a double quote or a backslash breaks the `label[for="…"]` query (src/client/hooks/useRemoteControl.js:141). A quote makes it throw uncaught out of the hover handler. The model collects the labels regardless.
- MirrorEngine.Mirror.KeyInput: the browser's value sanitization is not modelled. An email input strips surrounding whitespace and a number input rejects non-numeric text; the model keeps the edited text as is.
- The document's structure is fixed. Elements are never added, removed or moved, and `elementFromPoint` changes only on resize.
- Tap: the side effects of `click()` (navigation, checkbox toggling, handlers) are not modelled. Which element is active afterwards is an input.
- InitialState: the `state.cursor ?? width/2` fallback is not modelled, because the server always sends a cursor. Whether `focus()` takes effect is an input.
- SessionRegistry.Registry.DrawFreshCode: requires that some attempt gives a free code. The source's do-while never ends otherwise, and that non-termination is not modelled.
- SessionRegistry.Registry.RegisterAppRoom: has the same requirement as DrawFreshCode, for the same reason.
