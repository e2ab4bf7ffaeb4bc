/**
  The tool window: the capture store, the filtered list it shows, the
  selected row, and the four detail boxes (request headers, request body,
  response headers, response body), each with its own search box, result
  label and search state. Every handler is a pure transition of the whole
  window.
 */
module Window {
  import opened Wrappers
  import opened Text
  import opened Traffic
  import opened FilterView
  import opened Search

  /** The four detail boxes. */
  datatype Region = RequestHeaders | RequestBody | ResponseHeaders | ResponseBody

  /** A detail box: the text it holds, the search over it, and the text of
      the result label under its search box. */
  datatype Pane = Pane(content: string, search: SearchState, result: string)

  const EmptyPane := Pane("", Cleared, "")

  /** The four detail boxes, one field per region. */
  datatype Panes = Panes(requestHeaders: Pane, requestBody: Pane, responseHeaders: Pane, responseBody: Pane)
  {
    function Get(r: Region): Pane {
      match r
      case RequestHeaders => requestHeaders
      case RequestBody => requestBody
      case ResponseHeaders => responseHeaders
      case ResponseBody => responseBody
    }

    /** Replaces one box; the other three keep their state. */
    function Set(r: Region, p: Pane): (res: Panes)
      ensures res.Get(r) == p
      ensures forall o :: o != r ==> res.Get(o) == Get(o)
    {
      match r
      case RequestHeaders => this.(requestHeaders := p)
      case RequestBody => this.(requestBody := p)
      case ResponseHeaders => this.(responseHeaders := p)
      case ResponseBody => this.(responseBody := p)
    }
  }

  const EmptyPanes := Panes(EmptyPane, EmptyPane, EmptyPane, EmptyPane)

  /** The window's state. `domainText` and `protocolItem` are the filter
      boxes' current values (None only when there is no box, or no
      protocol item is selected). */
  datatype Window = Window(
    store: Store,
    shown: seq<Entry>,
    selection: Option<nat>,
    domainText: Option<string>,
    protocolItem: Option<string>,
    panes: Panes)

  /** The window as the constructor leaves it, with the protocol box on "All". */
  const Initial := Window(EmptyStore, [], None, None, Some("All"), EmptyPanes)

  /** The result label after a search or an Enter: "<current>/<count> matches". */
  function MatchLabel(cursor: nat, count: nat): (r: string)
    ensures |r| > |" matches"| && r[|r| - |" matches"|..] == " matches"
    ensures exists a, b :: AllDigits(a) && AllDigits(b) && DecimalValue(a) == cursor + 1 && DecimalValue(b) == count
                           && r == a + "/" + b + " matches"
  {
    var a, b := IntToString(cursor + 1), IntToString(count);
    NatToStringRoundTrip(cursor + 1);
    NatToStringRoundTrip(count);
    assert DecimalValue(a) == cursor + 1 && DecimalValue(b) == count;
    a + "/" + b + " matches"
  }

  /** The first '/' after a run of digits is the one right after it. */
  lemma SlashAfterDigits(a: string, r: string)
    requires AllDigits(a)
    ensures (a + "/" + r)[|a|] == '/'
    ensures forall i :: 0 <= i < |a| ==> (a + "/" + r)[i] != '/'
  {
    forall i | 0 <= i < |a| ensures (a + "/" + r)[i] != '/' {
      assert (a + "/" + r)[i] == a[i];
    }
  }

  /** Two digit strings each followed by '/' split a string the same way. */
  lemma SplitAtSlash(a1: string, r1: string, a2: string, r2: string)
    requires AllDigits(a1) && AllDigits(a2)
    requires a1 + "/" + r1 == a2 + "/" + r2
    ensures a1 == a2 && r1 == r2
  {
    var s := a1 + "/" + r1;
    SlashAfterDigits(a1, r1);
    SlashAfterDigits(a2, r2);
    assert |a1| == |a2|;
    assert a1 == s[..|a1|] && a2 == s[..|a2|];
    assert r1 == s[|a1| + 1..] && r2 == s[|a2| + 1..];
  }

  /** The label names its match and the count unambiguously. */
  lemma MatchLabelInjective(c1: nat, k1: nat, c2: nat, k2: nat)
    requires MatchLabel(c1, k1) == MatchLabel(c2, k2)
    ensures c1 == c2 && k1 == k2
  {
    LabelParts(c1, k1);
    LabelParts(c2, k2);
    LabelSplit(IntToString(c1 + 1), IntToString(k1), IntToString(c2 + 1), IntToString(k2));
    IntToStringInjective(c1 + 1, c2 + 1);
    IntToStringInjective(k1, k2);
  }

  /** The label is the two numbers around a '/', then " matches". */
  lemma LabelParts(c: nat, k: nat)
    ensures AllDigits(IntToString(c + 1)) && AllDigits(IntToString(k))
    ensures MatchLabel(c, k) == IntToString(c + 1) + "/" + (IntToString(k) + " matches")
  {
  }

  /** Two labels built from digit strings agree only when their parts do. */
  lemma LabelSplit(a1: string, b1: string, a2: string, b2: string)
    requires AllDigits(a1) && AllDigits(a2)
    requires a1 + "/" + (b1 + " matches") == a2 + "/" + (b2 + " matches")
    ensures a1 == a2 && b1 == b2
  {
    SplitAtSlash(a1, b1 + " matches", a2, b2 + " matches");
    assert b1 == (b1 + " matches")[..|b1|];
    assert b2 == (b2 + " matches")[..|b2|];
  }

  /** A pane's result label reports its cursor: whenever the cursor is on a
      match, the label is that match's "<n>/<count> matches". */
  predicate LabelAgrees(p: Pane) {
    p.search.cursor >= 0 ==> p.result == MatchLabel(p.search.cursor, |p.search.matches|)
  }

  predicate PaneOk(p: Pane) {
    Consistent(p.search) && LabelAgrees(p)
  }

  predicate PanesOk(ps: Panes) {
    forall r: Region :: PaneOk(ps.Get(r))
  }

  /** `SearchBox_TextChanged` on one box. */
  function PaneTextChanged(p: Pane, query: string): (r: Pane)
    ensures r.content == p.content && r.search.query == query
    ensures r.search == TextChanged(query, p.content)
    ensures IsBlank(query) ==> r.result == ""
    ensures !IsBlank(query) && p.content == [] ==> r.result == "No content"
    ensures !IsBlank(query) && p.content != [] && |r.search.matches| == 0 ==> r.result == "No matches found"
    ensures |r.search.matches| > 0 ==> r.result == MatchLabel(0, |r.search.matches|)
    ensures PaneOk(r)
  {
    var st := TextChanged(query, p.content);
    var result :=
      if IsBlank(query) then ""
      else if p.content == [] then "No content"
      else if |st.matches| > 0 then MatchLabel(0, |st.matches|)
      else "No matches found";
    Pane(p.content, st, result)
  }

  /** `SearchBox_KeyDown` with Enter on one box. */
  function PaneEnter(p: Pane): (r: Pane)
    ensures r.content == p.content && r.search == KeyDown(p.search)
    ensures IsBlank(p.search.query) || |p.search.matches| == 0 ==> r == p
    ensures PaneOk(p) ==> PaneOk(r)
  {
    if IsBlank(p.search.query) || |p.search.matches| == 0 then p
    else
      var st := KeyDown(p.search);
      Pane(p.content, st, if st.cursor >= 0 then MatchLabel(st.cursor, |st.matches|) else p.result)
  }

  /** The result label after an Enter names the match the cursor moved to. */
  lemma PaneEnterLabel(p: Pane)
    requires PaneOk(p) && !IsBlank(p.search.query) && |p.search.matches| > 0
    ensures PaneEnter(p).result == MatchLabel(PaneEnter(p).search.cursor, |p.search.matches|)
    ensures 0 <= PaneEnter(p).search.cursor < |p.search.matches|
  {
  }

  /** The window is in a state its handlers maintain. */
  predicate WellFormed(w: Window) {
    && Valid(w.store)
    && w.shown == Filter(w.store.entries, NormalizeDomain(w.domainText), w.protocolItem)
    && (w.selection.Some? ==> w.selection.value in Ids(w.shown))
    && (w.selection.None? ==> forall r: Region :: w.panes.Get(r).content == "")
    && PanesOk(w.panes)
  }

  /** `ClearDetailsView`: empty boxes, empty search boxes and labels, no
      matches, every cursor at -1. */
  function ClearDetails(w: Window): (r: Window)
    ensures r.store == w.store && r.shown == w.shown && r.selection == w.selection
    ensures forall g: Region :: r.panes.Get(g) == EmptyPane
    ensures forall g: Region :: r.panes.Get(g).search.matches == [] && r.panes.Get(g).search.cursor == -1
  {
    w.(panes := EmptyPanes)
  }

  /** `ApplyFilters` on the window: the list is rebuilt from the store and
      the selection is kept if its entry is still listed; a selection that
      is lost empties the detail boxes. */
  function Refilter(w: Window): (r: Window)
    ensures r.store == w.store && r.domainText == w.domainText && r.protocolItem == w.protocolItem
    ensures r.shown == Filter(w.store.entries, NormalizeDomain(w.domainText), w.protocolItem)
    ensures r.selection.Some? <==> w.selection.Some? && w.selection.value in Ids(r.shown)
    ensures r.selection.Some? ==> r.selection == w.selection && r.panes == w.panes
  {
    var v := ApplyFilters(w.store.entries, w.domainText, w.protocolItem, w.selection);
    var w1 := w.(shown := v.shown, selection := v.selection);
    if w.selection.Some? && v.selection.None? then ClearDetails(w1) else w1
  }

  /** `OnRequest` followed by the `ApplyFilters` it dispatches. */
  function OnRequestW(w: Window, time: string, req: Request, format: string -> Option<string>): (r: Window)
    ensures r.store == OnRequest(w.store, time, req, format)
    ensures WellFormed(w) ==> WellFormed(r)
  {
    var r := Refilter(w.(store := OnRequest(w.store, time, req, format)));
    assert WellFormed(w) ==> WellFormed(r) by {
      if WellFormed(w) {
        RefilterWellFormed(w.(store := OnRequest(w.store, time, req, format)));
      }
    }
    r
  }

  /** `OnResponse`: when an entry is completed, the `ApplyFilters` it
      dispatches; a response nobody waits for changes nothing. */
  function OnResponseW(w: Window, resp: Response, format: string -> Option<string>): (r: Window)
    ensures r.store == OnResponse(w.store, resp, format)
    ensures r.store == w.store ==> r == w
    ensures WellFormed(w) ==> WellFormed(r)
  {
    var s := OnResponse(w.store, resp, format);
    if s == w.store then w
    else
      var r := Refilter(w.(store := s));
      assert WellFormed(w) ==> WellFormed(r) by {
        if WellFormed(w) {
          RefilterWellFormed(w.(store := s));
        }
      }
      r
  }

  /** Rebuilding the list restores the window's invariant whenever the
      store is valid and the boxes are sound. */
  lemma RefilterWellFormed(w: Window)
    requires Valid(w.store) && PanesOk(w.panes)
    requires w.selection.None? ==> forall r: Region :: w.panes.Get(r).content == ""
    ensures WellFormed(Refilter(w))
  {
    var r := Refilter(w);
    if r.selection.None? && w.selection.Some? {
      assert forall g: Region :: r.panes.Get(g) == EmptyPane;
    }
    forall g: Region ensures PaneOk(r.panes.Get(g)) {
      if r.panes != w.panes {
        assert r.panes.Get(g) == EmptyPane;
      }
    }
  }

  /** `FilterChanged` on the domain box or the protocol box. */
  function FilterChanged(w: Window, domainText: Option<string>, protocolItem: Option<string>): (r: Window)
    ensures r.domainText == domainText && r.protocolItem == protocolItem && r.store == w.store
    ensures r.shown == Filter(w.store.entries, NormalizeDomain(domainText), protocolItem)
    ensures WellFormed(w) ==> WellFormed(r)
  {
    var w1 := w.(domainText := domainText, protocolItem := protocolItem);
    var r := Refilter(w1);
    assert WellFormed(w) ==> WellFormed(r) by {
      if WellFormed(w) {
        RefilterWellFormed(w1);
      }
    }
    r
  }

  /** The listed entry with identity `id`, if any. */
  function Find(entries: seq<Entry>, id: nat): (r: Option<Entry>)
    ensures r.Some? <==> id in Ids(entries)
    ensures r.Some? ==> r.value in entries && r.value.id == id
  {
    if |entries| == 0 then None
    else if entries[0].id == id then Some(entries[0])
    else
      var r := Find(entries[1..], id);
      assert id in Ids(entries) <==> entries[0].id == id || id in Ids(entries[1..]) by {
        assert Ids(entries) == [entries[0].id] + Ids(entries[1..]);
      }
      r
  }

  /** `RequestListView_SelectionChanged`: a listed row fills the four boxes
      with its fields (null as empty); no row, or one that is not listed,
      empties them. The search boxes keep their text and their matches. */
  function SelectRow(w: Window, id: Option<nat>): (r: Window)
    ensures r.store == w.store && r.shown == w.shown
    ensures id.Some? && id.value in Ids(w.shown) ==>
              && r.selection == id
              && var e := Find(w.shown, id.value).value;
                 && r.panes.Get(RequestHeaders).content == e.requestHeaders
                 && r.panes.Get(RequestBody).content == e.requestBody
                 && r.panes.Get(ResponseHeaders).content == e.responseHeaders.GetOr("")
                 && r.panes.Get(ResponseBody).content == e.responseBody.GetOr("")
                 && forall g: Region :: r.panes.Get(g).search == w.panes.Get(g).search
    ensures !(id.Some? && id.value in Ids(w.shown)) ==>
              r.selection.None? && forall g: Region :: r.panes.Get(g) == EmptyPane
    ensures WellFormed(w) ==> WellFormed(r)
  {
    var found := if id.Some? then Find(w.shown, id.value) else None;
    match found
    case None => ClearDetails(w.(selection := None))
    case Some(e) =>
      var ps := w.panes;
      var ps1 := Panes(ps.requestHeaders.(content := e.requestHeaders),
                       ps.requestBody.(content := e.requestBody),
                       ps.responseHeaders.(content := e.responseHeaders.GetOr("")),
                       ps.responseBody.(content := e.responseBody.GetOr("")));
      assert forall g: Region :: ps1.Get(g).search == ps.Get(g).search && ps1.Get(g).result == ps.Get(g).result;
      w.(selection := id, panes := ps1)
  }

  /** `ClearButton_Click`: the store and the list are emptied and the
      details view is cleared. The identity counter is kept, so entries
      captured afterwards never share an identity with earlier ones. */
  function ClearButton(w: Window): (r: Window)
    ensures r.store.entries == [] && r.shown == [] && r.selection.None?
    ensures r.store.nextId == w.store.nextId
    ensures forall g: Region :: r.panes.Get(g).search.matches == [] && r.panes.Get(g).search.cursor == -1
    ensures forall g: Region :: r.panes.Get(g).content == "" && r.panes.Get(g).result == ""
    ensures WellFormed(r)
    ensures forall resp, format :: OnResponseW(r, resp, format) == r
  {
    var r := ClearDetails(w.(store := w.store.(entries := []), shown := [], selection := None));
    assert forall g: Region :: PaneOk(r.panes.Get(g));
    r
  }

  /** Typing in one search box. */
  function SearchChanged(w: Window, g: Region, query: string): (r: Window)
    ensures r.store == w.store && r.shown == w.shown && r.selection == w.selection
    ensures r.panes.Get(g) == PaneTextChanged(w.panes.Get(g), query)
    ensures forall o :: o != g ==> r.panes.Get(o) == w.panes.Get(o)
    ensures WellFormed(w) ==> WellFormed(r)
  {
    w.(panes := w.panes.Set(g, PaneTextChanged(w.panes.Get(g), query)))
  }

  /** Enter in one search box: only that box's cursor and result move. */
  function EnterPressed(w: Window, g: Region): (r: Window)
    ensures r.store == w.store && r.shown == w.shown && r.selection == w.selection
    ensures r.panes.Get(g) == PaneEnter(w.panes.Get(g))
    ensures forall o :: o != g ==> r.panes.Get(o) == w.panes.Get(o)
    ensures WellFormed(w) ==> WellFormed(r)
  {
    w.(panes := w.panes.Set(g, PaneEnter(w.panes.Get(g))))
  }

  /** The state every handler keeps starts out true. */
  lemma InitialWellFormed()
    ensures WellFormed(Initial)
  {
    assert forall g: Region :: Initial.panes.Get(g) == EmptyPane;
  }

  /** One user or proxy event. */
  datatype Event =
    | RequestEvent(time: string, req: Request)
    | ResponseEvent(resp: Response)
    | FilterEvent(domainText: Option<string>, protocolItem: Option<string>)
    | SelectEvent(id: Option<nat>)
    | ClearEvent
    | SearchEvent(region: Region, query: string)
    | EnterEvent(region: Region)

  function Step(w: Window, ev: Event, format: string -> Option<string>): Window {
    match ev
    case RequestEvent(time, req) => OnRequestW(w, time, req, format)
    case ResponseEvent(resp) => OnResponseW(w, resp, format)
    case FilterEvent(d, p) => FilterChanged(w, d, p)
    case SelectEvent(id) => SelectRow(w, id)
    case ClearEvent => ClearButton(w)
    case SearchEvent(g, q) => SearchChanged(w, g, q)
    case EnterEvent(g) => EnterPressed(w, g)
  }

  /** Every handler keeps the window well formed. */
  lemma StepWellFormed(w: Window, ev: Event, format: string -> Option<string>)
    requires WellFormed(w)
    ensures WellFormed(Step(w, ev, format))
  {
    match ev
    case RequestEvent(time, req) =>
    case ResponseEvent(resp) =>
    case FilterEvent(d, p) =>
    case SelectEvent(id) =>
    case ClearEvent =>
    case SearchEvent(g, q) =>
    case EnterEvent(g) =>
  }

  function Run(w: Window, evs: seq<Event>, format: string -> Option<string>): Window
    decreases |evs|
  {
    if |evs| == 0 then w else Run(Step(w, evs[0], format), evs[1..], format)
  }

  /** Any sequence of events from the initial window keeps it well formed:
      the list is the filter of the store, the selection is listed, every
      cursor is in range and every result reports its cursor. */
  lemma {:induction false} RunWellFormed(w: Window, evs: seq<Event>, format: string -> Option<string>)
    requires WellFormed(w)
    ensures WellFormed(Run(w, evs, format))
    decreases |evs|
  {
    if |evs| > 0 {
      var w1 := Step(w, evs[0], format);
      StepWellFormed(w, evs[0], format);
      RunWellFormed(w1, evs[1..], format);
    }
  }
}
