/**
 * The part of the controlled app's page that the mirror engine reads: a
 * static document of element records, the element addresses it exchanges
 * with the server (getUniqueSelector and the querySelector that resolves
 * them), the hover and tap classifiers, cursor clamping, and the text
 * editing that a forwarded key performs on a focused field.
 *
 * An element is identified by its position in the document, which is also
 * document order; text values live with the engine, since only they change.
 */
module DomModel {
  import opened Protocol
  import opened Text

  type ElemId = nat

  /**
   * One element: its tag name as the DOM reports it (upper case), its
   * `type` property as the DOM reports it (for an INPUT the lower-case type,
   * "text" when the attribute is missing or unknown; "" for elements without
   * the property), its id and label `for` attribute
   * ("" when absent), its classes, its parent and position among the
   * parent's children, and the form it belongs to.
   */
  datatype Element = Element(
    tag: string,
    typ: string,
    id: string,
    htmlFor: string,
    classes: set<string>,
    parent: Option<ElemId>,
    index: nat,
    form: Option<ElemId>)

  type Document = seq<Element>

  /** A tag name as the DOM reports it for HTML elements: upper-case letters, digits and '-'. */
  predicate IsTagName(t: string)
  {
    |t| > 0 && forall i :: 0 <= i < |t| ==> IsUpperLetter(t[i]) || IsDigit(t[i]) || t[i] == '-'
  }

  /** References stay inside the document; a TEXTAREA's type is "textarea", as browsers report it. */
  predicate WellFormed(doc: Document)
  {
    forall i :: 0 <= i < |doc| ==>
      && IsTagName(doc[i].tag)
      && (doc[i].parent.Some? ==> doc[i].parent.value < |doc|)
      && (doc[i].form.Some? ==> doc[i].form.value < |doc|)
      && (doc[i].tag == "TEXTAREA" ==> doc[i].typ == "textarea")
  }

  // ---------------------------------------------------------------------
  // Element addresses: getUniqueSelector and the querySelector that reads
  // them back.

  const NTH_CHILD: string := ":nth-child("

  /** A character that may start a CSS identifier: an ASCII letter, '_' or any non-ASCII character. */
  predicate IsNameStart(c: char)
  {
    IsUpperLetter(c) || IsLowerLetter(c) || c == '_' || c as int >= 0x80
  }

  /** A character that may continue a CSS identifier. */
  predicate IsNameChar(c: char)
  {
    IsNameStart(c) || IsDigit(c) || c == '-'
  }

  /**
   * A CSS identifier written without escapes (sections 4.3.9 and 4.3.11 of
   * CSS Syntax Module Level 3): name characters only, starting with a
   * name-start character, or with '-' followed by a name-start character or
   * a second '-'. Only such an id can follow '#' in an id selector; "2fa",
   * "a b" or "r:0:" make querySelector throw, and "a.b" reads as an id
   * followed by a class.
   */
  predicate IsCssIdent(s: string)
  {
    && |s| > 0
    && (forall k :: 0 <= k < |s| ==> IsNameChar(s[k]))
    && (IsNameStart(s[0]) || (s[0] == '-' && |s| > 1 && (IsNameStart(s[1]) || s[1] == '-')))
  }

  /** An element whose selector reads back: it has no id, or its id is a CSS identifier. */
  predicate HasSelectableId(e: Element)
  {
    e.id == "" || IsCssIdent(e.id)
  }

  /** The three forms of address getUniqueSelector produces. */
  datatype Address =
    | ById(id: string)
    | ByTag(tag: string)
    | ByTagNth(tag: string, position: nat)

  /** getUniqueSelector on an element: its id if it has one, else its lower-cased tag, positioned when it has a parent. */
  function AddressOf(doc: Document, i: ElemId): Address
    requires i < |doc|
  {
    var e := doc[i];
    if e.id != "" then ById(e.id)
    else if e.parent.Some? then ByTagNth(ToLower(e.tag), e.index + 1)
    else ByTag(ToLower(e.tag))
  }

  /** The text of an address: `#id`, `tag`, or `tag:nth-child(k)`. */
  function Render(a: Address): string
  {
    match a
    case ById(id) => "#" + id
    case ByTag(t) => t
    case ByTagNth(t, k) => t + NTH_CHILD + NatToString(k) + ")"
  }

  /** getUniqueSelector: None for no element (null), else the rendered address. */
  function Selector(doc: Document, el: Option<ElemId>): (r: Option<string>)
    requires el.Some? ==> el.value < |doc|
    ensures r.Some? <==> el.Some?
  {
    match el
    case None => None
    case Some(i) => Some(Render(AddressOf(doc, i)))
  }

  /** The first ':' in s at or after from. */
  function FirstColon(s: string, from: nat): (r: Option<nat>)
    ensures r.Some? ==> from <= r.value < |s| && s[r.value] == ':'
    ensures r.Some? ==> forall k :: from <= k < r.value ==> s[k] != ':'
    ensures r.None? ==> forall k :: from <= k < |s| ==> s[k] != ':'
    decreases |s| - from
  {
    if from >= |s| then None
    else if s[from] == ':' then Some(from)
    else FirstColon(s, from + 1)
  }

  /**
   * Reads an address back from its text. An id selector needs a CSS
   * identifier after the '#'. Anything else outside the three forms is an
   * invalid selector here (querySelector throws, and the caller catches
   * it), so it yields None.
   */
  function ParseAddress(s: string): Option<Address>
  {
    if |s| == 0 then None
    else if s[0] == '#' then (if IsCssIdent(s[1..]) then Some(ById(s[1..])) else None)
    else match FirstColon(s, 0)
      case None => Some(ByTag(s))
      case Some(c) =>
        var rest := s[c..];
        if c > 0 && |rest| >= |NTH_CHILD| + 2 && rest[..|NTH_CHILD|] == NTH_CHILD
           && rest[|rest| - 1] == ')' && IsDigits(rest[|NTH_CHILD|..|rest| - 1])
        then Some(ByTagNth(s[..c], ParseDigits(rest[|NTH_CHILD|..|rest| - 1])))
        else None
  }

  /** What getUniqueSelector produces and querySelector reads back: an id that is a CSS identifier, or a non-empty tag without ':' or a leading '#'. */
  predicate IsProducible(a: Address)
  {
    match a
    case ById(id) => IsCssIdent(id)
    case ByTag(t) => NoColonTag(t)
    case ByTagNth(t, _) => NoColonTag(t)
  }

  predicate NoColonTag(t: string)
  {
    |t| > 0 && t[0] != '#' && forall k :: 0 <= k < |t| ==> t[k] != ':'
  }

  /** Parsing inverts rendering on every address getUniqueSelector can produce. */
  lemma ParseRender(a: Address)
    requires IsProducible(a)
    ensures ParseAddress(Render(a)) == Some(a)
  {
    var s := Render(a);
    match a
    case ById(id) =>
      assert s[1..] == id;
    case ByTag(t) =>
      assert FirstColon(s, 0).None?;
    case ByTagNth(t, k) =>
      var digits := NatToString(k);
      NatToStringRoundTrip(k);
      assert s == t + (NTH_CHILD + digits + ")");
      assert s[|t|] == ':';
      assert forall k :: 0 <= k < |t| ==> s[k] == t[k];
      assert FirstColon(s, 0) == Some(|t|);
      var rest := s[|t|..];
      assert rest == NTH_CHILD + digits + ")";
      assert rest[..|NTH_CHILD|] == NTH_CHILD;
      assert rest[|NTH_CHILD|..|rest| - 1] == digits;
      assert s[..|t|] == t;
  }

  /**
   * The address of a well-formed element reads back from its text exactly
   * when the element has no id or an id that is a CSS identifier.
   */
  lemma AddressProducible(doc: Document, i: ElemId)
    requires WellFormed(doc) && i < |doc|
    ensures IsProducible(AddressOf(doc, i)) <==> HasSelectableId(doc[i])
  {
    var e := doc[i];
    if e.id == "" {
      ToLowerSpec(e.tag);
      var t := ToLower(e.tag);
      assert !IsUpperLetter(e.tag[0]) ==> t[0] == e.tag[0];
      forall k | 0 <= k < |t| ensures t[k] != ':' {
        if !IsUpperLetter(e.tag[k]) {
          assert t[k] == e.tag[k];
        }
      }
    }
  }

  /** CSS matching of an address against an element; tag names match case-insensitively. */
  predicate Matches(doc: Document, a: Address, j: ElemId)
    requires j < |doc|
  {
    match a
    case ById(id) => id != "" && doc[j].id == id
    case ByTag(t) => ToLower(doc[j].tag) == ToLower(t)
    case ByTagNth(t, k) => ToLower(doc[j].tag) == ToLower(t) && doc[j].parent.Some? && doc[j].index + 1 == k
  }

  /** The first element at or after from, in document order, that matches a. */
  function FirstMatch(doc: Document, a: Address, from: nat): (r: Option<ElemId>)
    ensures r.Some? ==> from <= r.value < |doc| && Matches(doc, a, r.value)
    ensures r.Some? ==> forall k :: from <= k < r.value ==> !Matches(doc, a, k)
    ensures r.None? ==> forall k :: from <= k < |doc| ==> !Matches(doc, a, k)
    decreases |doc| - from
  {
    if from >= |doc| then None
    else if Matches(doc, a, from) then Some(from)
    else FirstMatch(doc, a, from + 1)
  }

  /** document.querySelector over the selectors getUniqueSelector produces. */
  function QuerySelector(doc: Document, s: string): (r: Option<ElemId>)
    ensures r.Some? ==> r.value < |doc| && ParseAddress(s).Some? && Matches(doc, ParseAddress(s).value, r.value)
  {
    match ParseAddress(s)
    case None => None
    case Some(a) => FirstMatch(doc, a, 0)
  }

  /** document.getElementById: the first element with that id; the empty id finds nothing. */
  function GetElementById(doc: Document, id: string): (r: Option<ElemId>)
    ensures r.Some? ==> r.value < |doc| && id != "" && doc[r.value].id == id
    ensures r.None? ==> id == "" || forall k :: 0 <= k < |doc| ==> doc[k].id != id
  {
    assert forall k :: 0 <= k < |doc| ==> (Matches(doc, ById(id), k) <==> id != "" && doc[k].id == id);
    FirstMatch(doc, ById(id), 0)
  }

  /**
   * Resolving an element's selector finds an element that matches the same
   * address, never later in document order than the element itself; it is
   * the element itself exactly when no earlier element matches that address.
   */
  lemma SelectorRoundTrip(doc: Document, i: ElemId)
    requires WellFormed(doc) && i < |doc|
    ensures var q := QuerySelector(doc, Selector(doc, Some(i)).value);
      && (q.Some? <==> HasSelectableId(doc[i]))
      && (q.Some? ==> q.value <= i && Matches(doc, AddressOf(doc, i), q.value))
      && (q == Some(i) <==> HasSelectableId(doc[i]) && forall k :: 0 <= k < i ==> !Matches(doc, AddressOf(doc, i), k))
  {
    var a := AddressOf(doc, i);
    AddressProducible(doc, i);
    if HasSelectableId(doc[i]) {
      ParseRender(a);
      ToLowerSpec(doc[i].tag);
      assert Matches(doc, a, i);
    } else {
      assert Render(a) == "#" + doc[i].id;
      assert Render(a)[1..] == doc[i].id;
    }
  }

  /**
   * An id that no other element shares makes the element's selector find
   * exactly that element, provided the id is a CSS identifier; otherwise it
   * finds nothing.
   */
  lemma UniqueIdRoundTrip(doc: Document, i: ElemId)
    requires WellFormed(doc) && i < |doc| && doc[i].id != ""
    requires forall k :: 0 <= k < |doc| && k != i ==> doc[k].id != doc[i].id
    ensures QuerySelector(doc, Selector(doc, Some(i)).value) == (if IsCssIdent(doc[i].id) then Some(i) else None)
  {
    SelectorRoundTrip(doc, i);
  }

  /** An id starting with a digit is not a CSS identifier: its selector finds nothing on any page. */
  lemma LeadingDigitIdUnreadable(doc: Document)
    ensures !IsCssIdent("2fa")
    ensures QuerySelector(doc, "#2fa") == None
  {
    assert ("#2fa")[1..] == "2fa";
  }

  /**
   * The selector is not unique: two inputs that are each the first child of
   * their own div both get "input:nth-child(1)", and resolving the second
   * one's selector lands on the first.
   */
  lemma SelectorNotUnique()
    ensures var doc := TwoFormsPage();
      && WellFormed(doc)
      && Selector(doc, Some(3)) == Selector(doc, Some(5)) == Some("input:nth-child(1)")
      && QuerySelector(doc, Selector(doc, Some(5)).value) == Some(3)
  {
    TwoFormsPageWellFormed();
    TwoFormsSelectors();
    TwoFormsQuery();
  }

  lemma TwoFormsSelectors()
    ensures Selector(TwoFormsPage(), Some(3)) == Some("input:nth-child(1)")
    ensures Selector(TwoFormsPage(), Some(5)) == Some("input:nth-child(1)")
  {
    TwoFormsAddresses();
    SharedSelectorText();
  }

  lemma SharedSelectorText()
    ensures Render(ByTagNth("input", 1)) == "input:nth-child(1)"
  {
    assert NatToString(1) == "1";
    assert "input" + NTH_CHILD + "1" + ")" == "input:nth-child(1)";
  }

  /** Querying a producible address's text runs the address itself. */
  lemma QueryRendered(doc: Document, a: Address)
    requires IsProducible(a)
    ensures QuerySelector(doc, Render(a)) == FirstMatch(doc, a, 0)
  {
    ParseRender(a);
  }

  /** The shared selector resolves to the first input in document order. */
  lemma TwoFormsQuery()
    ensures QuerySelector(TwoFormsPage(), "input:nth-child(1)") == Some(3)
  {
    var doc := TwoFormsPage();
    var a := ByTagNth("input", 1);
    TwoFormsAddresses();
    SharedSelectorText();
    assert IsProducible(a);
    QueryRendered(doc, a);
    assert !Matches(doc, a, 0) && !Matches(doc, a, 1) && !Matches(doc, a, 2);
    assert Matches(doc, a, 3);
  }

  lemma TwoFormsPageWellFormed()
    ensures WellFormed(TwoFormsPage())
  {
    var doc := TwoFormsPage();
    assert IsTagName("HTML") && IsTagName("BODY") && IsTagName("DIV") && IsTagName("INPUT");
  }

  /** Both inputs get the same address, and only they match it by tag. */
  lemma TwoFormsAddresses()
    ensures AddressOf(TwoFormsPage(), 3) == ByTagNth("input", 1)
    ensures AddressOf(TwoFormsPage(), 5) == ByTagNth("input", 1)
    ensures ToLower("INPUT") == "input" && ToLower("input") == "input"
    ensures |ToLower("HTML")| == 4 && |ToLower("BODY")| == 4 && |ToLower("DIV")| == 3
  {
    ToLowerAt("INPUT");
    ToLowerAt("input");
    ToLowerAt("HTML");
    ToLowerAt("BODY");
    ToLowerAt("DIV");
  }

  /** html > body > (div > input, div > input). */
  function TwoFormsPage(): Document
  {
    [ Element("HTML", "", "", "", {}, None, 0, None),
      Element("BODY", "", "", "", {}, Some(0), 1, None),
      Element("DIV", "", "", "", {}, Some(1), 0, None),
      Element("INPUT", "text", "", "", {}, Some(2), 0, None),
      Element("DIV", "", "", "", {}, Some(1), 1, None),
      Element("INPUT", "text", "", "", {}, Some(4), 0, None) ]
  }

  // ---------------------------------------------------------------------
  // Classifiers.

  /** The text-field test of applyManualFocusVisuals and of tap: a text INPUT or a TEXTAREA. */
  predicate IsTextField(e: Element)
  {
    (e.tag == "INPUT" && e.typ == "text") || e.tag == "TEXTAREA"
  }

  /** The test applied to a label's control: `type === "text"` or a TEXTAREA, whatever the tag. */
  predicate IsTextLike(e: Element)
  {
    e.typ == "text" || e.tag == "TEXTAREA"
  }

  /** The INPUT types whose caret can be placed with selectionStart/selectionEnd; on every other type the assignment throws. */
  predicate HasSelectionType(t: string)
  {
    t == "text" || t == "search" || t == "url" || t == "tel" || t == "password"
  }

  /** A field key_input can finish editing: a TEXTAREA, or an INPUT whose type has the selection API. */
  predicate SupportsSelection(e: Element)
  {
    e.tag == "TEXTAREA" || (e.tag == "INPUT" && HasSelectionType(e.typ))
  }

  /** The fields key_input edits and whose value a focus report carries. */
  predicate IsEditable(e: Element)
  {
    e.tag == "INPUT" || e.tag == "TEXTAREA"
  }

  predicate IsLabelWithFor(e: Element)
  {
    e.tag == "LABEL" && e.htmlFor != ""
  }

  /** The input types (after lower-casing) that count as hover targets. */
  predicate IsHoverInputType(t: string)
  {
    t == "text" || t == "button" || t == "submit" || t == "reset" || t == "radio" || t == "checkbox" || t == "image"
  }

  /** The tags that are hover targets whatever their type. */
  predicate IsHoverTag(tag: string)
  {
    tag == "BUTTON" || tag == "A" || tag == "TEXTAREA" || tag == "SELECT"
  }

  const CLICKABLE_CLASS: string := "clickable-box"

  /** isInteractiveForHover. */
  predicate IsInteractiveForHover(doc: Document, e: Element)
  {
    if IsLabelWithFor(e) then
      match GetElementById(doc, e.htmlFor)
      case Some(t) => !IsTextLike(doc[t])
      case None => true
    else
      || IsHoverTag(e.tag)
      || (e.tag == "INPUT" && IsHoverInputType(ToLower(e.typ)))
      || CLICKABLE_CLASS in e.classes
  }

  /**
   * The classification, case by case: a label with a `for` is interactive
   * unless it names an existing text-like control; buttons, links, text
   * areas, selects, the listed input types and clickable boxes are; nothing
   * else is. Text fields are always interactive.
   */
  lemma InteractiveForHoverCases(doc: Document, e: Element)
    requires WellFormed(doc)
    ensures IsLabelWithFor(e) ==>
      (IsInteractiveForHover(doc, e) <==>
         GetElementById(doc, e.htmlFor).None? || !IsTextLike(doc[GetElementById(doc, e.htmlFor).value]))
    ensures !IsLabelWithFor(e) && (IsHoverTag(e.tag) || CLICKABLE_CLASS in e.classes) ==> IsInteractiveForHover(doc, e)
    ensures !IsLabelWithFor(e) && e.tag == "INPUT" && IsHoverInputType(e.typ) ==> IsInteractiveForHover(doc, e)
    ensures !IsLabelWithFor(e) && !IsHoverTag(e.tag) && e.tag != "INPUT" && CLICKABLE_CLASS !in e.classes ==>
      !IsInteractiveForHover(doc, e)
    ensures !IsLabelWithFor(e) && e.tag == "INPUT" && !IsHoverInputType(ToLower(e.typ)) && CLICKABLE_CLASS !in e.classes ==>
      !IsInteractiveForHover(doc, e)
    ensures IsTextField(e) ==> IsInteractiveForHover(doc, e)
  {
    if IsHoverInputType(e.typ) {
      HoverInputTypesLower(e.typ);
    }
  }

  /** The listed input types are written in lower case already. */
  lemma HoverInputTypesLower(t: string)
    requires IsHoverInputType(t)
    ensures ToLower(t) == t
  {
    ToLowerAt(t);
  }

  /** `label[for="id"]` in document order, from position from on. */
  function LabelsFor(doc: Document, id: string, from: nat): (r: seq<ElemId>)
    ensures forall k :: 0 <= k < |r| ==> from <= r[k] < |doc| && doc[r[k]].tag == "LABEL" && doc[r[k]].htmlFor == id
    ensures forall j :: from <= j < |doc| && doc[j].tag == "LABEL" && doc[j].htmlFor == id ==> j in r
    ensures forall k, m :: 0 <= k < m < |r| ==> r[k] < r[m]
    decreases |doc| - from
  {
    if from >= |doc| then []
    else if doc[from].tag == "LABEL" && doc[from].htmlFor == id then [from] + LabelsFor(doc, id, from + 1)
    else LabelsFor(doc, id, from + 1)
  }

  /** The labels highlighted with a hover target: its `label[for]` set when it is a radio or checkbox with an id. */
  function AssociatedLabels(doc: Document, t: ElemId): seq<ElemId>
    requires t < |doc|
  {
    if doc[t].id != "" && (doc[t].typ == "radio" || doc[t].typ == "checkbox") then LabelsFor(doc, doc[t].id, 0) else []
  }

  /** The hover target handleManualHover picks for the element under the cursor. */
  function HoverTarget(doc: Document, hit: Option<ElemId>): (r: Option<ElemId>)
    requires WellFormed(doc) && (hit.Some? ==> hit.value < |doc|)
    ensures r.Some? ==> r.value < |doc|
  {
    match hit
    case None => None
    case Some(h) =>
      if IsInteractiveForHover(doc, doc[h]) then Some(h)
      else if IsLabelWithFor(doc[h]) then
        match GetElementById(doc, doc[h].htmlFor)
        case Some(t) =>
          if IsInteractiveForHover(doc, doc[t]) then (if IsTextLike(doc[t]) then Some(t) else Some(h))
          else None
        case None => None
      else None
  }

  /** The labels handleManualHover collects with the target. */
  function HoverLabels(doc: Document, hit: Option<ElemId>): seq<ElemId>
    requires WellFormed(doc) && (hit.Some? ==> hit.value < |doc|)
  {
    match hit
    case None => []
    case Some(h) => if IsInteractiveForHover(doc, doc[h]) then AssociatedLabels(doc, h) else []
  }

  /**
   * The hover target is always interactive for hover, so the branch that
   * would hover a label whose control is not text-like never fires; a label
   * whose interactive control is text-like hands the hover to the control;
   * the collected labels are always those associated with the target.
   */
  lemma HoverTargetSpec(doc: Document, hit: Option<ElemId>)
    requires WellFormed(doc) && (hit.Some? ==> hit.value < |doc|)
    ensures var r := HoverTarget(doc, hit);
      && (r.Some? ==> IsInteractiveForHover(doc, doc[r.value]))
      && (r.None? ==> HoverLabels(doc, hit) == [])
      && (r.Some? ==> HoverLabels(doc, hit) == AssociatedLabels(doc, r.value))
      && (hit.Some? && IsLabelWithFor(doc[hit.value]) && GetElementById(doc, doc[hit.value].htmlFor).Some? ==>
           var t := GetElementById(doc, doc[hit.value].htmlFor).value;
           IsTextLike(doc[t]) && IsInteractiveForHover(doc, doc[t]) ==> r == Some(t))
  {
    if hit.Some? {
      var h := hit.value;
      if !IsInteractiveForHover(doc, doc[h]) && IsLabelWithFor(doc[h]) {
        var t := GetElementById(doc, doc[h].htmlFor);
        assert t.Some? && IsTextLike(doc[t.value]);
        if IsInteractiveForHover(doc, doc[t.value]) {
          assert doc[t.value].typ == "text" || doc[t.value].typ == "textarea";
          assert AssociatedLabels(doc, t.value) == [];
        }
      }
    }
  }

  /** The tap target: the element under the cursor, or the control a label with a `for` names when it exists. */
  function TapTarget(doc: Document, hit: Option<ElemId>): (r: Option<ElemId>)
    requires hit.Some? ==> hit.value < |doc|
    ensures r.Some? ==> r.value < |doc|
    ensures r.None? <==> hit.None?
    ensures hit.Some? && IsLabelWithFor(doc[hit.value]) && GetElementById(doc, doc[hit.value].htmlFor).Some? ==>
      r == GetElementById(doc, doc[hit.value].htmlFor)
    ensures hit.Some? && !(IsLabelWithFor(doc[hit.value]) && GetElementById(doc, doc[hit.value].htmlFor).Some?) ==>
      r == hit
  {
    match hit
    case None => None
    case Some(h) =>
      if IsLabelWithFor(doc[h]) then
        match GetElementById(doc, doc[h].htmlFor)
        case Some(t) => Some(t)
        case None => Some(h)
      else Some(h)
  }

  // ---------------------------------------------------------------------
  // Cursor clamping and key editing.

  /** Math.max(0, Math.min(hi, v)). */
  function Clamp(v: int, hi: nat): (r: int)
    ensures 0 <= r <= hi
    ensures 0 <= v <= hi ==> r == v
    ensures v < 0 ==> r == 0
    ensures v > hi ==> r == hi
  {
    if v < 0 then 0 else if v > hi then hi else v
  }

  /** Clamping twice into the same bounds is clamping once, and shrinking bounds one at a time is shrinking once. */
  lemma ClampTwice(v: int, hi: nat, lo: nat)
    requires lo <= hi
    ensures Clamp(Clamp(v, hi), hi) == Clamp(v, hi)
    ensures Clamp(Clamp(v, hi), lo) == Clamp(v, lo)
  {
  }

  /** What a forwarded key does to a field: its new value, whether it changed, and whether the form is submitted. */
  datatype KeyOutcome = KeyOutcome(value: string, changed: bool, submit: bool)

  /** The editing branch of the key_input handler, for a focused INPUT or TEXTAREA. */
  function KeyEffect(tag: string, value: string, inForm: bool, key: string): (r: KeyOutcome)
    ensures r.changed <==> r.value != value
    ensures r.submit ==> !r.changed && key == "Enter" && tag != "TEXTAREA" && inForm
  {
    if key == "Backspace" then
      if |value| > 0 then KeyOutcome(value[..|value| - 1], true, false) else KeyOutcome(value, false, false)
    else if key == "Enter" then
      if tag == "TEXTAREA" then KeyOutcome(value + "\n", true, false)
      else if inForm then KeyOutcome(value, false, true)
      else KeyOutcome(value, false, false)
    else if |key| == 1 || key == " " then KeyOutcome(value + key, true, false)
    else KeyOutcome(value, false, false)
  }

  /**
   * The key_input cases: Backspace drops the last character of a non-empty
   * value, a single character is appended, Enter adds a newline to a
   * TEXTAREA and on an INPUT submits its form if it has one; every other
   * key leaves the field alone.
   */
  lemma KeyEffectCases(tag: string, value: string, inForm: bool, key: string)
    ensures var r := KeyEffect(tag, value, inForm, key);
      && (key == "Backspace" && |value| > 0 ==> r.value == value[..|value| - 1] && |r.value| == |value| - 1)
      && (key == "Backspace" && |value| == 0 ==> r == KeyOutcome(value, false, false))
      && (|key| == 1 ==> r == KeyOutcome(value + key, true, false) && r.value[|value|] == key[0])
      && (key == "Enter" && tag == "TEXTAREA" ==> r.value == value + "\n")
      && (key == "Enter" && tag != "TEXTAREA" ==> r.value == value && r.submit == inForm)
      && (key != "Backspace" && key != "Enter" && |key| != 1 ==> r == KeyOutcome(value, false, false))
  {
  }

  /** Backspace undoes the character a key just appended. */
  lemma BackspaceUndoesAppend(tag: string, value: string, inForm: bool, c: char)
    ensures var typed := KeyEffect(tag, value, inForm, [c]).value;
      KeyEffect(tag, typed, inForm, "Backspace").value == value
  {
    var typed := KeyEffect(tag, value, inForm, [c]).value;
    assert typed == value + [c];
    assert typed[..|typed| - 1] == value;
  }

  /** The focus report of the tap handler: the focused element's selector (None on the body) and its value when it is editable. */
  function FocusReport(doc: Document, values: seq<string>, focused: Option<ElemId>): (r: FocusInfo)
    requires |values| == |doc| && (focused.Some? ==> focused.value < |doc|)
    ensures r.selector.None? <==> focused.None?
    ensures r.value.Some? <==> focused.Some? && IsEditable(doc[focused.value])
    ensures r.value.Some? ==> r.value.value == values[focused.value]
  {
    FocusInfo(Selector(doc, focused),
              if focused.Some? && IsEditable(doc[focused.value]) then Some(values[focused.value]) else None)
  }
}
