/** The form navigator: `ECourtsScraper._find_and_select_option` and
    `ECourtsScraper.try_auto_fill_popup`. The browser is replaced by a page
    description saying which element ids the explicit wait locates and what
    each located element looks like. */
module FormNavigator {
  import opened PyText

  /** An element found by id: whether it is a `<select>`, the visible texts
      of its `option` descendants in document order, and whether clicking
      one of those options raises. */
  datatype Element = Element(isSelect: bool, options: seq<string>, clickRaises: bool)

  /** The ids the explicit wait locates, each with its element; an id that
      is absent here is one whose wait times out. */
  type Page = map<string, Element>

  /** The fallback ids tried, in order, for each of the three fields. */
  const StateIds: seq<string> :=
    ["selState", "sess_state_code", "state", "sess_state", "sel_state", "statecode"]
  const DistrictIds: seq<string> :=
    ["selDistrict", "sess_dist_code", "dist", "sess_dist", "sel_district", "distcode"]
  const ComplexIds: seq<string> :=
    ["selCourtComplex", "court_complex_code", "courtComplex", "selCourt", "court_complex"]

  // ------------------------------------------------------ option matching

  /** `(desired_text or "").strip().lower()`. */
  function Target(desired: Option<string>): string {
    Lower(Strip(if desired.Some? then desired.value else ""))
  }

  /** Whether an option with this visible text is selected for `target`:
      the target is not empty and occurs in the option's stripped,
      lower-cased text. */
  predicate OptionMatches(text: string, target: string) {
    target != [] && Contains(Lower(Strip(text)), target)
  }

  ghost predicate AnyMatch(options: seq<string>, target: string) {
    exists i :: 0 <= i < |options| && OptionMatches(options[i], target)
  }

  ghost predicate IsFirstMatch(options: seq<string>, target: string, i: int) {
    && 0 <= i < |options|
    && OptionMatches(options[i], target)
    && forall j :: 0 <= j < i ==> !OptionMatches(options[j], target)
  }

  /** `_find_and_select_option`: clicks the first matching option and
      reports which one it clicked (the source returns whether it clicked). */
  method FindAndSelectOption(options: seq<string>, desired: Option<string>) returns (clicked: Option<nat>)
    ensures clicked.Some? ==> IsFirstMatch(options, Target(desired), clicked.value)
    ensures clicked.None? <==> !AnyMatch(options, Target(desired))
    ensures Target(desired) == [] ==> clicked.None?
  {
    var target := Target(desired);
    var i := 0;
    while i < |options|
      invariant 0 <= i <= |options|
      invariant forall j :: 0 <= j < i ==> !OptionMatches(options[j], target)
    {
      var txt := Lower(Strip(options[i]));
      if target != [] && Contains(txt, target) {
        return Some(i);
      }
      i := i + 1;
    }
    return None;
  }

  // ------------------------------------------------------ field scanning

  /** What the scan of one field did: no candidate id settled it, or the
      candidate `id` did and `clicked` is the option it clicked, if any. */
  datatype FieldScan = NotLocated | Located(id: string, clicked: Option<nat>)

  /** Whether the `try` block for candidate `id` reaches its `break`: the id
      is located, the element is a `<select>` where the field wraps it in
      `Select` (the state field), and clicking the chosen option, if one is
      chosen, does not raise. */
  ghost predicate Settles(page: Page, id: string, target: string, needSelect: bool) {
    && id in page
    && (needSelect ==> page[id].isSelect)
    && !(page[id].clickRaises && AnyMatch(page[id].options, target))
  }

  ghost predicate AnySettles(ids: seq<string>, page: Page, target: string, needSelect: bool) {
    exists k :: 0 <= k < |ids| && Settles(page, ids[k], target, needSelect)
  }

  /** `scan` is the outcome of trying `ids` in order for a field whose
      desired text is `desired`: the first candidate that settles wins,
      whether or not one of its options matched. */
  ghost predicate IsScanOf(scan: FieldScan, ids: seq<string>, page: Page, desired: Option<string>, needSelect: bool) {
    var target := Target(desired);
    match scan
    case NotLocated => !AnySettles(ids, page, target, needSelect)
    case Located(id, clicked) =>
      && (exists k :: 0 <= k < |ids| && ids[k] == id && Settles(page, ids[k], target, needSelect)
           && forall j :: 0 <= j < k ==> !Settles(page, ids[j], target, needSelect))
      && (clicked.Some? ==> IsFirstMatch(page[id].options, target, clicked.value))
      && (clicked.None? ==> !AnyMatch(page[id].options, target))
  }

  /** One of the three candidate-id loops of `try_auto_fill_popup`. */
  method ScanField(ids: seq<string>, page: Page, desired: Option<string>, needSelect: bool)
    returns (scan: FieldScan)
    ensures IsScanOf(scan, ids, page, desired, needSelect)
    ensures scan.Located? <==> AnySettles(ids, page, Target(desired), needSelect)
  {
    ghost var target := Target(desired);
    var k := 0;
    while k < |ids|
      invariant 0 <= k <= |ids|
      invariant forall j :: 0 <= j < k ==> !Settles(page, ids[j], target, needSelect)
    {
      var id := ids[k];
      if id in page && (!needSelect || page[id].isSelect) {
        var clicked := FindAndSelectOption(page[id].options, desired);
        if !(clicked.Some? && page[id].clickRaises) {
          return Located(id, clicked);
        }
        // the click raised: the field's `except` moves on to the next id
      }
      k := k + 1;
    }
    return NotLocated;
  }

  // ------------------------------------------------------- proceed button

  /** Whether a button's string value, lower-cased by XPath `translate`
      (A-Z only), contains "proceed", "submit" or "ok". */
  predicate IsProceedButton(text: string) {
    var t := Lower(text);
    Contains(t, "proceed") || Contains(t, "submit") || Contains(t, "ok")
  }

  /** The first button, in document order from `from` on, that the proceed
      XPath selects. */
  function ProceedButtonFrom(buttons: seq<string>, from: nat): (r: Option<nat>)
    requires from <= |buttons|
    ensures r.Some? ==> (from <= r.value < |buttons| && IsProceedButton(buttons[r.value])
      && forall j :: from <= j < r.value ==> !IsProceedButton(buttons[j]))
    ensures r.None? ==> forall j :: from <= j < |buttons| ==> !IsProceedButton(buttons[j])
    decreases |buttons| - from
  {
    if from == |buttons| then None
    else if IsProceedButton(buttons[from]) then Some(from)
    else ProceedButtonFrom(buttons, from + 1)
  }

  // --------------------------------------------------------- whole popup

  /** Whether at least one of the three fields can be settled. */
  ghost predicate AutoFillSucceeds(page: Page, state: Option<string>, district: Option<string>, courtComplex: Option<string>) {
    || AnySettles(StateIds, page, Target(state), true)
    || AnySettles(DistrictIds, page, Target(district), false)
    || AnySettles(ComplexIds, page, Target(courtComplex), false)
  }

  /** `try_auto_fill_popup`: scans the state, district and court-complex
      fields, then clicks the first proceed button if there is one; reports
      whether any field was settled. `buttons` are the string values of the
      page's `button` elements in document order. */
  method TryAutoFillPopup(page: Page, state: Option<string>, district: Option<string>,
                          courtComplex: Option<string>, buttons: seq<string>)
    returns (filled: bool, stateScan: FieldScan, districtScan: FieldScan,
             complexScan: FieldScan, proceed: Option<nat>)
    ensures IsScanOf(stateScan, StateIds, page, state, true)
    ensures IsScanOf(districtScan, DistrictIds, page, district, false)
    ensures IsScanOf(complexScan, ComplexIds, page, courtComplex, false)
    ensures filled <==> stateScan.Located? || districtScan.Located? || complexScan.Located?
    ensures filled <==> AutoFillSucceeds(page, state, district, courtComplex)
    ensures proceed.Some? ==> (proceed.value < |buttons| && IsProceedButton(buttons[proceed.value])
      && forall j :: 0 <= j < proceed.value ==> !IsProceedButton(buttons[j]))
    ensures proceed.None? <==> forall j :: 0 <= j < |buttons| ==> !IsProceedButton(buttons[j])
  {
    filled := false;
    stateScan := ScanField(StateIds, page, state, true);
    if stateScan.Located? {
      filled := true;
    }
    districtScan := ScanField(DistrictIds, page, district, false);
    if districtScan.Located? {
      filled := true;
    }
    complexScan := ScanField(ComplexIds, page, courtComplex, false);
    if complexScan.Located? {
      filled := true;
    }
    proceed := ProceedButtonFrom(buttons, 0);
  }
}
