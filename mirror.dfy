/**
 * The controlled app's side of the pairing: the engine that turns relayed
 * controller events into effects on the page. It keeps the virtual cursor
 * inside the window, tracks the hovered element and its associated labels
 * (the "manual-hover" and "manual-hover-associated" classes), the manually
 * focused text field ("manual-focus"), edits the focused field's value on
 * key input, and reports cursor positions and focus changes back to the
 * server.
 *
 * The page's structure is the constant document of DomModel; what changes
 * is the text values, which element has focus, and the three class marks.
 * document.elementFromPoint is the map `layout`; which element is active
 * after a tap's focus() and click() is an input to Tap, and whether an
 * initial_state focus() took effect is an input to InitialState.
 */
module MirrorEngine {
  import opened Protocol
  import opened Text
  import opened DomModel

  function Elems(ls: seq<ElemId>): set<ElemId>
  {
    set l | l in ls
  }

  function OptSet(o: Option<ElemId>): set<ElemId>
  {
    if o.Some? then {o.value} else {}
  }

  predicate InDoc(doc: Document, ls: seq<ElemId>)
  {
    forall k :: 0 <= k < |ls| ==> ls[k] < |doc|
  }

  // ---------------------------------------------------------------------
  // Reconciling the associated labels when the hover target stays the same.

  /** getUniqueSelector of an element that exists. */
  function SelectorText(doc: Document, l: ElemId): (r: string)
    requires l < |doc|
    ensures Selector(doc, Some(l)) == Some(r)
  {
    Render(AddressOf(doc, l))
  }

  /** `labels.map(getUniqueSelector)`. */
  function SelectorsOf(doc: Document, ls: seq<ElemId>): (r: seq<string>)
    requires InDoc(doc, ls)
    ensures |r| == |ls|
    ensures forall k :: 0 <= k < |ls| ==> r[k] == SelectorText(doc, ls[k])
  {
    if ls == [] then [] else [SelectorText(doc, ls[0])] + SelectorsOf(doc, ls[1..])
  }

  /**
   * The filter step: the previously hovered labels whose selector is among
   * the current labels' selectors, in their old order.
   */
  function KeepMatching(doc: Document, ls: seq<ElemId>, sels: seq<string>): (r: seq<ElemId>)
    requires InDoc(doc, ls)
    ensures |r| <= |ls|
    ensures forall l :: l in r <==> l in ls && SelectorText(doc, l) in sels
    decreases |ls|
  {
    if ls == [] then []
    else
      var init := ls[..|ls| - 1];
      var last := ls[|ls| - 1];
      assert forall l :: l in ls <==> l in init || l == last;
      if SelectorText(doc, last) in sels then KeepMatching(doc, init, sels) + [last]
      else KeepMatching(doc, init, sels)
  }

  /**
   * The push step: each current label not yet in the list is appended, in
   * the current labels' order. The old list stays a prefix, and the result
   * holds exactly the old and the current labels.
   */
  function AppendMissing(acc: seq<ElemId>, current: seq<ElemId>): (r: seq<ElemId>)
    ensures acc <= r
    ensures forall l :: l in r <==> l in acc || l in current
    decreases |current|
  {
    if current == [] then acc
    else
      assert forall l :: l in current <==> l == current[0] || l in current[1..];
      AppendMissing(if current[0] in acc then acc else acc + [current[0]], current[1..])
  }

  /** Labels whose selectors are all wanted are all kept, in order. */
  lemma {:induction false} KeepAll(doc: Document, ls: seq<ElemId>, sels: seq<string>)
    requires InDoc(doc, ls)
    requires forall l :: l in ls ==> SelectorText(doc, l) in sels
    ensures KeepMatching(doc, ls, sels) == ls
    decreases |ls|
  {
    if ls != [] {
      var init := ls[..|ls| - 1];
      assert forall l :: l in init ==> l in ls;
      KeepAll(doc, init, sels);
      assert ls == init + [ls[|ls| - 1]];
    }
  }

  /** Pushing labels that are all present already leaves the list as it is. */
  lemma {:induction false} AppendPresent(acc: seq<ElemId>, current: seq<ElemId>)
    requires forall l :: l in current ==> l in acc
    ensures AppendMissing(acc, current) == acc
    decreases |current|
  {
    if current != [] {
      assert forall l :: l in current[1..] ==> l in current;
      AppendPresent(acc, current[1..]);
    }
  }

  /** Every label's own selector is among the list's selectors. */
  lemma SelectorsCover(doc: Document, ls: seq<ElemId>)
    requires InDoc(doc, ls)
    ensures forall l :: l in ls ==> SelectorText(doc, l) in SelectorsOf(doc, ls)
  {
    var sels := SelectorsOf(doc, ls);
    forall l | l in ls ensures SelectorText(doc, l) in sels {
      var k :| 0 <= k < |ls| && ls[k] == l;
      assert sels[k] == SelectorText(doc, l);
    }
  }

  /** Reconciling a label list with itself changes nothing. */
  lemma ReconcileSame(doc: Document, ls: seq<ElemId>)
    requires InDoc(doc, ls)
    ensures AppendMissing(KeepMatching(doc, ls, SelectorsOf(doc, ls)), ls) == ls
  {
    SelectorsCover(doc, ls);
    KeepAll(doc, ls, SelectorsOf(doc, ls));
    AppendPresent(ls, ls);
  }

  /**
   * The filter loop: keeps the labels whose selector is among sels and
   * collects the ones whose "manual-hover-associated" class it removes.
   */
  method FilterBySelector(doc: Document, ls: seq<ElemId>, sels: seq<string>)
    returns (kept: seq<ElemId>, dropped: set<ElemId>)
    requires InDoc(doc, ls)
    ensures kept == KeepMatching(doc, ls, sels)
    ensures forall l :: l in dropped <==> l in ls && SelectorText(doc, l) !in sels
  {
    kept, dropped := [], {};
    for i := 0 to |ls|
      invariant kept == KeepMatching(doc, ls[..i], sels)
      invariant forall l :: l in dropped <==> l in ls[..i] && SelectorText(doc, l) !in sels
    {
      assert ls[..i + 1][..i] == ls[..i];
      assert forall l :: l in ls[..i + 1] <==> l in ls[..i] || l == ls[i];
      if SelectorText(doc, ls[i]) in sels {
        kept := kept + [ls[i]];
      } else {
        dropped := dropped + {ls[i]};
      }
    }
    assert ls[..|ls|] == ls;
  }

  /**
   * The push loop: appends each current label the list lacks (by identity)
   * and collects the ones whose class it adds.
   */
  method PushMissing(start: seq<ElemId>, current: seq<ElemId>)
    returns (merged: seq<ElemId>, added: set<ElemId>)
    ensures merged == AppendMissing(start, current)
    ensures forall l :: l in added <==> l in current && l !in start
  {
    merged, added := start, {};
    for i := 0 to |current|
      invariant AppendMissing(merged, current[i..]) == AppendMissing(start, current)
      invariant start <= merged
      invariant forall l :: l in added <==> l in merged && l !in start
    {
      var rest := current[i..];
      assert rest[0] == current[i] && rest[1..] == current[i + 1..];
      if current[i] !in merged {
        merged := merged + [current[i]];
        added := added + {current[i]};
      }
    }
  }

  /** The element a stored selector resolves to: None for a missing or empty selector, or one that finds nothing. */
  function RestoredFocus(doc: Document, selector: Option<string>): (r: Option<ElemId>)
    ensures r.Some? ==> r.value < |doc| && selector.Some? && selector.value != ""
    ensures selector.Some? && selector.value != "" ==> r == QuerySelector(doc, selector.value)
    ensures selector.None? || selector.value == "" ==> r.None?
  {
    if selector.Some? && selector.value != "" then QuerySelector(doc, selector.value) else None
  }

  /**
   * Focus survives a reload through the server exactly when the element has
   * no id or an id that is a CSS identifier: the selector a focus report
   * carries for element i then resolves, on initial_state, to an element
   * with the same address no later than i, and to i itself exactly when no
   * earlier element shares that address. Any other id makes querySelector
   * throw, and nothing is restored.
   */
  lemma FocusRestoreRoundTrip(doc: Document, values: seq<string>, i: ElemId)
    requires WellFormed(doc) && |values| == |doc| && i < |doc|
    ensures var r := RestoredFocus(doc, FocusReport(doc, values, Some(i)).selector);
      && (r.Some? <==> HasSelectableId(doc[i]))
      && (r.Some? ==> r.value <= i && Matches(doc, AddressOf(doc, i), r.value))
      && (r == Some(i) <==> HasSelectableId(doc[i]) && forall k :: 0 <= k < i ==> !Matches(doc, AddressOf(doc, i), k))
  {
    SelectorRoundTrip(doc, i);
    AddressProducible(doc, i);
    assert Render(AddressOf(doc, i)) != "" by {
      assert AddressOf(doc, i).ById? ==> |Render(AddressOf(doc, i))| > 1;
    }
  }

  // ---------------------------------------------------------------------
  // The engine.

  class Mirror {
    const doc: Document
    var values: seq<string>
    var layout: map<Point, ElemId>
    /** document.activeElement; None is the body. */
    var active: Option<ElemId>
    var width: nat
    var height: nat
    var cursorX: int
    var cursorY: int
    var cursorVisible: bool
    /** Whether the cursor element has been found, which gates the position reports. */
    const hasCursorElement: bool
    var hovered: Option<ElemId>
    var hoveredLabels: seq<ElemId>
    var manualFocus: Option<ElemId>
    /** The elements carrying "manual-hover", "manual-hover-associated" and "manual-focus". */
    var hoverMarked: set<ElemId>
    var labelMarked: set<ElemId>
    var focusMarked: set<ElemId>
    /** The assigned room code; "" while none is assigned. */
    const roomCode: string
    /** The messages sent to the server, oldest first. */
    var out: seq<AppEvent>
    /** The forms a submit event was dispatched to, oldest first. */
    var submitted: seq<ElemId>

    ghost predicate DocValid()
      reads this`values
    {
      WellFormed(doc) && |values| == |doc|
    }

    ghost predicate LayoutValid()
      reads this`layout
    {
      forall p :: p in layout ==> layout[p] < |doc|
    }

    ghost predicate ActiveValid()
      reads this`active
    {
      active.Some? ==> active.value < |doc|
    }

    /** Manual focus marks exactly the remembered element, and that element is a text field. */
    ghost predicate FocusValid()
      reads this`manualFocus, this`focusMarked
    {
      && (manualFocus.Some? ==> manualFocus.value < |doc| && IsTextField(doc[manualFocus.value]))
      && focusMarked == OptSet(manualFocus)
    }

    /**
     * Hover marks exactly the remembered target and its labels; the target
     * is interactive, its labels are its associated labels, and nothing is
     * hovered while the cursor is hidden.
     */
    ghost predicate HoverValid()
      reads this`hovered, this`hoveredLabels, this`hoverMarked, this`labelMarked, this`cursorVisible
    {
      && (!cursorVisible ==> hovered.None?)
      && (hovered.None? ==> hoveredLabels == [])
      && (hovered.Some? ==>
            hovered.value < |doc| && IsInteractiveForHover(doc, doc[hovered.value])
            && hoveredLabels == AssociatedLabels(doc, hovered.value))
      && MarksValid()
    }

    /** The hover classes sit exactly on the remembered target and labels. */
    ghost predicate MarksValid()
      reads this`hovered, this`hoveredLabels, this`hoverMarked, this`labelMarked
    {
      hoverMarked == OptSet(hovered) && labelMarked == Elems(hoveredLabels)
    }

    ghost predicate Valid()
      reads this
    {
      DocValid() && LayoutValid() && ActiveValid() && FocusValid() && HoverValid()
    }

    /** document.elementFromPoint at the cursor. */
    function HitAt(): (r: Option<ElemId>)
      reads this`layout, this`cursorX, this`cursorY
      ensures LayoutValid() && r.Some? ==> r.value < |doc|
    {
      var p := Point(cursorX, cursorY);
      if p in layout then Some(layout[p]) else None
    }

    /** The position report updateCursorPosition sends, if any. */
    function CursorReport(): (r: seq<AppEvent>)
      reads this`cursorX, this`cursorY
      ensures |r| <= 1
      ensures |r| == 1 <==> hasCursorElement && roomCode != ""
      ensures |r| == 1 ==> r[0] == ReportCursorPosition(roomCode, Point(cursorX, cursorY))
    {
      if hasCursorElement && roomCode != "" then [ReportCursorPosition(roomCode, Point(cursorX, cursorY))] else []
    }

    /** Mounting: cursor centred and hidden, nothing hovered or focused, nothing sent. */
    constructor(doc: Document, values: seq<string>, layout: map<Point, ElemId>, width: nat, height: nat,
                hasCursorElement: bool, roomCode: string)
      requires WellFormed(doc) && |values| == |doc|
      requires forall p :: p in layout ==> layout[p] < |doc|
      ensures Valid()
      ensures this.doc == doc && this.values == values && this.layout == layout
      ensures this.width == width && this.height == height
      ensures cursorX == width / 2 && cursorY == height / 2 && !cursorVisible
      ensures this.hasCursorElement == hasCursorElement && this.roomCode == roomCode
      ensures active.None? && hovered.None? && manualFocus.None? && out == [] && submitted == []
    {
      this.doc, this.values, this.layout := doc, values, layout;
      this.width, this.height := width, height;
      cursorX, cursorY, cursorVisible := width / 2, height / 2, false;
      this.hasCursorElement, this.roomCode := hasCursorElement, roomCode;
      active, hovered, hoveredLabels, manualFocus := None, None, [], None;
      hoverMarked, labelMarked, focusMarked := {}, {}, {};
      out, submitted := [], [];
    }

    /** socket.emit towards the server. */
    method Emit(e: AppEvent)
      modifies this`out
      ensures out == old(out) + [e]
    {
      out := out + [e];
    }

    /** updateCursorPosition: reports the position when the cursor element exists and a room is assigned. */
    method UpdateCursorPosition()
      modifies this`out
      ensures out == old(out) + CursorReport()
    {
      if hasCursorElement && roomCode != "" {
        Emit(ReportCursorPosition(roomCode, Point(cursorX, cursorY)));
      }
    }

    /** removeManualFocusVisuals. */
    method RemoveManualFocus()
      modifies this`manualFocus, this`focusMarked
      ensures manualFocus.None? && focusMarked == {}
      ensures FocusValid()
    {
      manualFocus, focusMarked := None, {};
    }

    /** applyManualFocusVisuals: the element becomes the only manually focused one exactly when it is a text field. */
    method ApplyManualFocus(el: Option<ElemId>)
      requires el.Some? ==> el.value < |doc|
      modifies this`manualFocus, this`focusMarked
      ensures manualFocus == (if el.Some? && IsTextField(doc[el.value]) then el else None)
      ensures FocusValid()
    {
      RemoveManualFocus();
      if el.Some? && IsTextField(doc[el.value]) {
        manualFocus, focusMarked := el, {el.value};
      }
    }

    /** removeManualHover: no target, no labels, no hover marks. */
    method RemoveManualHover()
      requires MarksValid()
      modifies this`hovered, this`hoveredLabels, this`hoverMarked, this`labelMarked
      ensures hovered.None? && hoveredLabels == [] && hoverMarked == {} && labelMarked == {}
      ensures HoverValid()
    {
      hoverMarked := hoverMarked - OptSet(hovered);
      labelMarked := labelMarked - Elems(hoveredLabels);
      hovered, hoveredLabels := None, [];
    }

    /**
     * The branch of handleManualHover that keeps the target: filter the old
     * labels by selector, then push the missing current ones. Under the
     * invariant the old labels are the current ones, so nothing changes.
     */
    method ReconcileLabels(labels: seq<ElemId>)
      requires InDoc(doc, labels) && hoveredLabels == labels
      modifies this`hoveredLabels, this`labelMarked
      ensures hoveredLabels == labels && labelMarked == old(labelMarked)
    {
      var sels := SelectorsOf(doc, labels);
      ReconcileSame(doc, labels);
      SelectorsCover(doc, labels);
      var kept, dropped := FilterBySelector(doc, hoveredLabels, sels);
      var merged, added := PushMissing(kept, labels);
      assert forall l :: l !in dropped && l !in added;
      hoveredLabels := merged;
      labelMarked := labelMarked - dropped + added;
    }

    /**
     * handleManualHover: with the cursor shown, the hovered element becomes
     * the hover target of the element under the cursor, with exactly its
     * associated labels; with the cursor hidden nothing changes.
     */
    method HandleManualHover()
      requires DocValid() && LayoutValid() && HoverValid()
      modifies this`hovered, this`hoveredLabels, this`hoverMarked, this`labelMarked
      ensures HoverValid()
      ensures !cursorVisible ==> hovered == old(hovered) && hoveredLabels == old(hoveredLabels)
      ensures cursorVisible ==> hovered == HoverTarget(doc, HitAt())
    {
      if !cursorVisible {
        return;
      }
      var hit := HitAt();
      var target := HoverTarget(doc, hit);
      var labels := HoverLabels(doc, hit);
      HoverTargetSpec(doc, hit);
      if target != hovered {
        RemoveManualHover();
        if target.Some? {
          hovered, hoverMarked := target, {target.value};
          labelMarked := labelMarked + Elems(labels);
          hoveredLabels := labels;
        }
      } else if target.Some? {
        ReconcileLabels(labels);
      }
    }

    /** The new window size and what lies under each point. */
    method SetWindow(w: nat, h: nat, newLayout: map<Point, ElemId>)
      requires forall p :: p in newLayout ==> newLayout[p] < |doc|
      modifies this`width, this`height, this`layout
      ensures width == w && height == h && layout == newLayout && LayoutValid()
    {
      width, height, layout := w, h, newLayout;
    }

    /** Places the cursor and reports it, as initial_state does before restoring focus. */
    method PlaceCursor(x: int, y: int)
      modifies this`cursorX, this`cursorY, this`out
      ensures cursorX == x && cursorY == y
      ensures out == old(out) + CursorReport()
    {
      cursorX, cursorY := x, y;
      UpdateCursorPosition();
    }

    /** The common tail of cursor_move and handleResize: place the cursor, report it, update the hover. */
    method MoveCursorTo(x: int, y: int)
      requires DocValid() && LayoutValid() && HoverValid()
      modifies this`cursorX, this`cursorY, this`out, this`hovered, this`hoveredLabels, this`hoverMarked, this`labelMarked
      ensures HoverValid()
      ensures cursorX == x && cursorY == y
      ensures out == old(out) + CursorReport()
      ensures cursorVisible ==> hovered == HoverTarget(doc, HitAt())
    {
      PlaceCursor(x, y);
      HandleManualHover();
    }

    /** The set_cursor_visibility handler. */
    method SetCursorVisibility(isVisible: bool)
      requires Valid()
      modifies this`cursorVisible, this`hovered, this`hoveredLabels, this`hoverMarked, this`labelMarked
      ensures Valid()
      ensures cursorVisible == isVisible
      ensures old(cursorVisible) == isVisible ==> hovered == old(hovered) && hoveredLabels == old(hoveredLabels)
      ensures !isVisible ==> hovered.None? && hoveredLabels == [] && hoverMarked == {} && labelMarked == {}
      ensures isVisible && !old(cursorVisible) ==> hovered == HoverTarget(doc, HitAt())
    {
      if cursorVisible != isVisible {
        cursorVisible := isVisible;
        if !cursorVisible {
          RemoveManualHover();
        } else {
          HandleManualHover();
        }
      }
    }

    /**
     * The cursor_move handler: ignored while the cursor is hidden; otherwise
     * the cursor moves by the deltas (missing ones count as 0) clamped into
     * the window, the position is reported and the hover is updated.
     */
    method CursorMove(deltaX: Option<int>, deltaY: Option<int>)
      requires Valid()
      modifies this`cursorX, this`cursorY, this`out, this`hovered, this`hoveredLabels, this`hoverMarked, this`labelMarked
      ensures Valid()
      ensures !cursorVisible ==> cursorX == old(cursorX) && cursorY == old(cursorY) && out == old(out)
                                 && hovered == old(hovered) && hoveredLabels == old(hoveredLabels)
      ensures cursorVisible ==>
        && 0 <= cursorX <= width && 0 <= cursorY <= height
        && (0 <= old(cursorX) + DeltaOrZero(deltaX) <= width ==> cursorX == old(cursorX) + DeltaOrZero(deltaX))
        && (0 <= old(cursorY) + DeltaOrZero(deltaY) <= height ==> cursorY == old(cursorY) + DeltaOrZero(deltaY))
        && cursorX == Clamp(old(cursorX) + DeltaOrZero(deltaX), width)
        && cursorY == Clamp(old(cursorY) + DeltaOrZero(deltaY), height)
        && out == old(out) + CursorReport()
        && hovered == HoverTarget(doc, HitAt())
    {
      if !cursorVisible {
        return;
      }
      MoveCursorTo(Clamp(cursorX + DeltaOrZero(deltaX), width), Clamp(cursorY + DeltaOrZero(deltaY), height));
    }

    /**
     * handleResize: the new window size and layout are taken, the cursor is
     * clamped into the new bounds, reported, and the hover is updated.
     */
    method Resize(w: nat, h: nat, newLayout: map<Point, ElemId>)
      requires Valid()
      requires forall p :: p in newLayout ==> newLayout[p] < |doc|
      modifies this`width, this`height, this`layout, this`cursorX, this`cursorY, this`out
      modifies this`hovered, this`hoveredLabels, this`hoverMarked, this`labelMarked
      ensures Valid()
      ensures width == w && height == h && layout == newLayout
      ensures 0 <= cursorX <= w && 0 <= cursorY <= h
      ensures 0 <= old(cursorX) <= w ==> cursorX == old(cursorX)
      ensures 0 <= old(cursorY) <= h ==> cursorY == old(cursorY)
      ensures cursorX == Clamp(old(cursorX), w) && cursorY == Clamp(old(cursorY), h)
      ensures out == old(out) + CursorReport()
      ensures cursorVisible ==> hovered == HoverTarget(doc, HitAt())
    {
      SetWindow(w, h, newLayout);
      MoveCursorTo(Clamp(cursorX, width), Clamp(cursorY, height));
    }

    /**
     * The tap handler. The target is the element under the cursor, or the
     * control a label with a `for` names. With a target, activeAfter is the
     * element focus() and click() left active (None for the body); manual
     * focus goes to the target only when focus landed on it and it is a
     * text field; the report carries the active element's selector and, for
     * an editable one, its value. Without a target, focus is dropped and a
     * null selector is reported. The hover is updated either way.
     */
    method Tap(activeAfter: Option<ElemId>)
      requires Valid() && (activeAfter.Some? ==> activeAfter.value < |doc|)
      modifies this`active, this`manualFocus, this`focusMarked, this`out
      modifies this`hovered, this`hoveredLabels, this`hoverMarked, this`labelMarked
      ensures Valid()
      ensures var target := TapTarget(doc, HitAt());
        && active == (if target.Some? then activeAfter else None)
        && manualFocus == (if target.Some? && activeAfter == target && IsTextField(doc[target.value]) then target else None)
        && out == old(out) + [ReportFocusChange(roomCode,
                                if target.Some? then FocusReport(doc, values, activeAfter) else FocusInfo(None, None))]
      ensures cursorVisible ==> hovered == HoverTarget(doc, HitAt())
    {
      FocusTapTarget(TapTarget(doc, HitAt()), activeAfter);
      HandleManualHover();
    }

    /** The focus part of the tap handler, for a resolved target. */
    method FocusTapTarget(target: Option<ElemId>, activeAfter: Option<ElemId>)
      requires DocValid() && (target.Some? ==> target.value < |doc|) && (activeAfter.Some? ==> activeAfter.value < |doc|)
      modifies this`active, this`manualFocus, this`focusMarked, this`out
      ensures FocusValid() && ActiveValid()
      ensures active == (if target.Some? then activeAfter else None)
      ensures manualFocus == (if target.Some? && activeAfter == target && IsTextField(doc[target.value]) then target else None)
      ensures out == old(out) + [ReportFocusChange(roomCode,
                                   if target.Some? then FocusReport(doc, values, activeAfter) else FocusInfo(None, None))]
    {
      RemoveManualFocus();
      if target.Some? {
        active := activeAfter;
        if activeAfter == target && IsTextField(doc[target.value]) {
          ApplyManualFocus(target);
        }
        Emit(ReportFocusChange(roomCode, FocusReport(doc, values, activeAfter)));
      } else {
        active := None;
        Emit(ReportFocusChange(roomCode, FocusInfo(None, None)));
      }
    }

    /**
     * The key_input handler. With an INPUT or TEXTAREA focused, the key's
     * effect is applied to its value, and Enter on an INPUT inside a form
     * submits that form. A changed value is reported with the field's
     * selector only when the field has the selection API: on any other
     * INPUT type, placing the caret after the edit throws, which ends the
     * handler before the report. With anything else focused, nothing
     * happens.
     */
    method KeyInput(key: string)
      requires Valid()
      modifies this`values, this`out, this`submitted
      ensures Valid()
      ensures active.None? || !IsEditable(doc[active.value]) ==>
        values == old(values) && out == old(out) && submitted == old(submitted)
      ensures active.Some? && IsEditable(doc[active.value]) ==>
        var a := active.value;
        var r := KeyEffect(doc[a].tag, old(values)[a], doc[a].form.Some?, key);
        && values == old(values)[a := r.value]
        && out == old(out) + (if r.changed && SupportsSelection(doc[a])
                              then [ReportFocusChange(roomCode, FocusInfo(Selector(doc, active), Some(r.value)))] else [])
        && submitted == old(submitted) + (if r.submit then [doc[a].form.value] else [])
    {
      if active.Some? && IsEditable(doc[active.value]) {
        var a := active.value;
        var r := KeyEffect(doc[a].tag, values[a], doc[a].form.Some?, key);
        values := values[a := r.value];
        if r.submit {
          submitted := submitted + [doc[a].form.value];
        }
        if r.changed && SupportsSelection(doc[a]) {
          Emit(ReportFocusChange(roomCode, FocusInfo(Selector(doc, active), Some(r.value))));
        }
      }
    }

    /**
     * The initial_state handler after a rejoin: the cursor takes the stored
     * position as it is (it is not clamped), the position is reported, and
     * manual focus is dropped. A non-empty stored selector that resolves to
     * an element gets focus (when focusTaken says focus() took effect),
     * manual focus if it is a text field, and the stored value if there is
     * one and the element is editable.
     */
    method InitialState(ev: ServerEvent, focusTaken: bool)
      requires Valid() && ev.InitialState?
      modifies this`cursorX, this`cursorY, this`out, this`manualFocus, this`focusMarked, this`active, this`values
      ensures Valid()
      ensures cursorX == ev.cursor.x && cursorY == ev.cursor.y
      ensures out == old(out) + CursorReport()
      ensures var el := RestoredFocus(doc, ev.focusedSelector);
        && manualFocus == (if el.Some? && IsTextField(doc[el.value]) then el else None)
        && active == (if el.Some? && focusTaken then el else old(active))
        && values == (if el.Some? && ev.focusedValue.Some? && IsEditable(doc[el.value])
                      then old(values)[el.value := ev.focusedValue.value] else old(values))
    {
      PlaceCursor(ev.cursor.x, ev.cursor.y);
      RestoreFocus(RestoredFocus(doc, ev.focusedSelector), ev.focusedValue, focusTaken);
    }

    /** The focus part of the initial_state handler, for the element the stored selector found. */
    method RestoreFocus(el: Option<ElemId>, value: Option<string>, focusTaken: bool)
      requires DocValid() && (el.Some? ==> el.value < |doc|)
      modifies this`manualFocus, this`focusMarked, this`active, this`values
      ensures DocValid() && FocusValid()
      ensures manualFocus == (if el.Some? && IsTextField(doc[el.value]) then el else None)
      ensures active == (if el.Some? && focusTaken then el else old(active))
      ensures values == (if el.Some? && value.Some? && IsEditable(doc[el.value])
                         then old(values)[el.value := value.value] else old(values))
    {
      RemoveManualFocus();
      if el.Some? {
        if focusTaken {
          active := el;
        }
        ApplyManualFocus(el);
        if value.Some? && IsEditable(doc[el.value]) {
          values := values[el.value := value.value];
        }
      }
    }
  }

  /** html > form > (input#name, label[for=name]); the label is at (10, 10). */
  function LoginPage(): Document
  {
    [ Element("HTML", "", "", "", {}, None, 0, None),
      Element("FORM", "", "", "", {}, Some(0), 0, None),
      Element("INPUT", "text", "name", "", {}, Some(1), 0, Some(1)),
      Element("LABEL", "", "", "name", {}, Some(1), 1, Some(1)) ]
  }

  lemma LoginPageWellFormed()
    ensures WellFormed(LoginPage())
  {
    assert IsTagName("HTML") && IsTagName("FORM") && IsTagName("INPUT") && IsTagName("LABEL");
  }

  /** The label names the input, whose selector is its id. */
  lemma LoginPageFacts()
    ensures GetElementById(LoginPage(), "name") == Some(2)
    ensures Selector(LoginPage(), Some(2)) == Some("#name")
    ensures TapTarget(LoginPage(), Some(3)) == Some(2)
    ensures IsTextField(LoginPage()[2]) && IsEditable(LoginPage()[2])
    ensures FocusReport(LoginPage(), ["", "", "", ""], Some(2)) == FocusInfo(Some("#name"), Some(""))
  {
    var doc := LoginPage();
    assert Matches(doc, ById("name"), 2);
    assert "#" + "name" == "#name";
  }

  /** Typing "A" into the empty input, then Enter inside its form. */
  lemma LoginKeyFacts()
    ensures KeyEffect("INPUT", "", true, "A") == KeyOutcome("A", true, false)
    ensures KeyEffect("INPUT", "A", true, "Enter") == KeyOutcome("A", false, true)
  {
  }

  /** The mirror of LoginPage after a tap on the label, with focus landing on the input. */
  method TappedLoginMirror() returns (m: Mirror)
    ensures fresh(m) && m.Valid() && m.doc == LoginPage() && m.roomCode == "ABCD"
    ensures m.values == ["", "", "", ""] && m.active == Some(2) && m.manualFocus == Some(2) && m.submitted == []
    ensures m.out == [ReportFocusChange("ABCD", FocusInfo(Some("#name"), Some("")))]
  {
    LoginPageWellFormed();
    LoginPageFacts();
    m := new Mirror(LoginPage(), ["", "", "", ""], map[Point(10, 10) := 3], 20, 20, false, "ABCD");
    assert m.HitAt() == Some(3);
    m.Tap(Some(2));
  }

  /**
   * A tap on the label focuses the text input it names and gives it manual
   * focus; typing "A" reports the new value, and Enter on the input submits
   * its form without changing the value.
   */
  method LabelTapTypingScenario() returns (value: string, reports: seq<AppEvent>, forms: seq<ElemId>, focus: Option<ElemId>)
    ensures value == "A"
    ensures reports == [ReportFocusChange("ABCD", FocusInfo(Some("#name"), Some(""))),
                        ReportFocusChange("ABCD", FocusInfo(Some("#name"), Some("A")))]
    ensures forms == [1]
    ensures focus == Some(2)
  {
    LoginPageFacts();
    LoginKeyFacts();
    var m := TappedLoginMirror();
    m.KeyInput("A");
    assert m.values[2] == "A" && m.submitted == [];
    m.KeyInput("Enter");
    value, reports, forms, focus := m.values[2], m.out, m.submitted, m.manualFocus;
  }

  /** html > input#email of type email; the input is at (10, 10). */
  function EmailPage(): Document
  {
    [ Element("HTML", "", "", "", {}, None, 0, None),
      Element("INPUT", "email", "email", "", {}, Some(0), 0, None) ]
  }

  lemma EmailPageFacts()
    ensures WellFormed(EmailPage())
    ensures Selector(EmailPage(), Some(1)) == Some("#email")
    ensures TapTarget(EmailPage(), Some(1)) == Some(1)
    ensures IsEditable(EmailPage()[1]) && !IsTextField(EmailPage()[1]) && !SupportsSelection(EmailPage()[1])
    ensures FocusReport(EmailPage(), ["", ""], Some(1)) == FocusInfo(Some("#email"), Some(""))
    ensures KeyEffect("INPUT", "", false, "x") == KeyOutcome("x", true, false)
  {
    assert IsTagName("HTML") && IsTagName("INPUT");
    assert "#" + "email" == "#email";
  }

  /**
   * A tap on an email field focuses it and reports it; typing "x" changes
   * its value, but the caret assignment throws on an email input, so no
   * further report is sent.
   */
  method EmailTypingScenario() returns (value: string, reports: seq<AppEvent>)
    ensures value == "x"
    ensures reports == [ReportFocusChange("ABCD", FocusInfo(Some("#email"), Some("")))]
  {
    EmailPageFacts();
    var m := new Mirror(EmailPage(), ["", ""], map[Point(10, 10) := 1], 20, 20, false, "ABCD");
    assert m.HitAt() == Some(1);
    m.Tap(Some(1));
    m.KeyInput("x");
    value, reports := m.values[1], m.out;
  }
}
