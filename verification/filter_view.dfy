/**
  `ApplyFilters`: the list view shows the entries whose URL contains the
  domain filter (case-insensitively) and whose protocol matches the protocol
  box, in store order; the selection survives only if its entry is shown.
 */
module FilterView {
  import opened Wrappers
  import opened Text
  import opened Traffic

  /** The domain box's text, trimmed and lower-cased; null stays null. */
  function NormalizeDomain(text: Option<string>): (r: Option<string>)
    ensures r.None? <==> text.None?
    ensures r.Some? ==> r.value == ToLower(Trim(text.value))
  {
    match text
    case None => None
    case Some(t) => Some(ToLower(Trim(t)))
  }

  /** The domain test on an already-normalised filter. */
  predicate DomainMatches(domainFilter: Option<string>, url: string) {
    IsNullOrWhiteSpace(domainFilter) || Contains(ToLower(url), ToLower(domainFilter.value))
  }

  /** The protocol test: "All", or the entry's own protocol; no selection
      matches nothing. */
  predicate ProtocolMatches(protocolFilter: Option<string>, protocol: string) {
    protocolFilter == Some("All") || protocolFilter == Some(protocol)
  }

  predicate Shown(e: Entry, domainFilter: Option<string>, protocolFilter: Option<string>) {
    DomainMatches(domainFilter, e.url) && ProtocolMatches(protocolFilter, e.protocol)
  }

  /** `a` is `b` with some elements left out, order kept. */
  predicate IsSubsequence<T(==)>(a: seq<T>, b: seq<T>)
    decreases |b|
  {
    if |a| == 0 then true
    else if |b| == 0 then false
    else if a[0] == b[0] then IsSubsequence(a[1..], b[1..])
    else IsSubsequence(a, b[1..])
  }

  /** Leaving out the first element of a subsequence keeps it one. */
  lemma {:induction false} DropFirst<T>(a: seq<T>, b: seq<T>)
    requires |a| > 0 && IsSubsequence(a, b)
    ensures IsSubsequence(a[1..], b)
    decreases |b|
  {
    if a[0] == b[0] {
      if |a| > 1 {
        DropFirst(a[1..], b[1..]);
        assert a[1..][1..] == a[2..];
        SkipHead(a[1..], b);
      }
    } else {
      DropFirst(a, b[1..]);
      SkipHead(a[1..], b);
    }
  }

  /** A subsequence of the tail is a subsequence of the whole. */
  lemma {:induction false} SkipHead<T>(a: seq<T>, b: seq<T>)
    requires |b| > 0 && IsSubsequence(a, b[1..])
    ensures IsSubsequence(a, b)
    decreases |b|, 1
  {
    if |a| > 0 && a[0] == b[0] {
      DropFirst(a, b[1..]);
    }
  }

  /** The entries of `all` that pass, in order. */
  function Filter(all: seq<Entry>, domainFilter: Option<string>, protocolFilter: Option<string>): (r: seq<Entry>)
    ensures |r| <= |all|
    decreases |all|
  {
    if |all| == 0 then []
    else
      var rest := Filter(all[1..], domainFilter, protocolFilter);
      if Shown(all[0], domainFilter, protocolFilter) then [all[0]] + rest else rest
  }

  /** The view keeps the store's order and holds exactly the entries that
      pass. */
  lemma {:induction false} FilterSpec(all: seq<Entry>, domainFilter: Option<string>, protocolFilter: Option<string>)
    ensures IsSubsequence(Filter(all, domainFilter, protocolFilter), all)
    ensures forall e :: e in Filter(all, domainFilter, protocolFilter) <==> e in all && Shown(e, domainFilter, protocolFilter)
    decreases |all|
  {
    if |all| > 0 {
      var rest := Filter(all[1..], domainFilter, protocolFilter);
      FilterSpec(all[1..], domainFilter, protocolFilter);
      assert all == [all[0]] + all[1..];
      if Shown(all[0], domainFilter, protocolFilter) {
        assert ([all[0]] + rest)[1..] == rest;
      }
      SkipHead(rest, all);
    }
  }

  /** The view after one more request is the old view, plus the new entry
      at the end if it passes. */
  lemma {:induction false} FilterAppend(all: seq<Entry>, e: Entry,
                                        domainFilter: Option<string>, protocolFilter: Option<string>)
    ensures Filter(all + [e], domainFilter, protocolFilter)
         == Filter(all, domainFilter, protocolFilter)
            + (if Shown(e, domainFilter, protocolFilter) then [e] else [])
    decreases |all|
  {
    if |all| > 0 {
      assert (all + [e])[1..] == all[1..] + [e];
      FilterAppend(all[1..], e, domainFilter, protocolFilter);
    } else {
      assert all + [e] == [e];
    }
  }

  /** Filtering the view again changes nothing. */
  lemma {:induction false} FilterIdempotent(all: seq<Entry>,
                                            domainFilter: Option<string>, protocolFilter: Option<string>)
    ensures Filter(Filter(all, domainFilter, protocolFilter), domainFilter, protocolFilter)
         == Filter(all, domainFilter, protocolFilter)
    decreases |all|
  {
    if |all| > 0 {
      FilterIdempotent(all[1..], domainFilter, protocolFilter);
      var rest := Filter(all[1..], domainFilter, protocolFilter);
      if Shown(all[0], domainFilter, protocolFilter) {
        assert ([all[0]] + rest)[1..] == rest;
      }
    }
  }

  /** A blank domain filter with "All" shows every entry. */
  lemma {:induction false} FilterShowsAll(all: seq<Entry>, domainFilter: Option<string>)
    requires IsNullOrWhiteSpace(domainFilter)
    ensures Filter(all, domainFilter, Some("All")) == all
    decreases |all|
  {
    if |all| > 0 {
      FilterShowsAll(all[1..], domainFilter);
      assert [all[0]] + all[1..] == all;
    }
  }

  /** With no protocol selected, nothing is shown. */
  lemma {:induction false} FilterNoProtocol(all: seq<Entry>, domainFilter: Option<string>)
    ensures Filter(all, domainFilter, None) == []
    decreases |all|
  {
    if |all| > 0 {
      FilterNoProtocol(all[1..], domainFilter);
    }
  }

  /** What `ApplyFilters` produces: the shown entries and the selection to
      restore (by identity), if it is still shown. */
  datatype View = View(shown: seq<Entry>, selection: Option<nat>)

  /** `ApplyFilters` over the domain box text, the protocol box item and the
      current selection. */
  function ApplyFilters(all: seq<Entry>, domainText: Option<string>, protocolItem: Option<string>,
                        selection: Option<nat>): (v: View)
    ensures IsSubsequence(v.shown, all)
    ensures forall e :: e in v.shown <==>
              e in all && DomainMatches(NormalizeDomain(domainText), e.url) && ProtocolMatches(protocolItem, e.protocol)
    ensures v.selection.Some? <==> selection.Some? && selection.value in Ids(v.shown)
    ensures v.selection.Some? ==> v.selection == selection
  {
    var shown := Filter(all, NormalizeDomain(domainText), protocolItem);
    FilterSpec(all, NormalizeDomain(domainText), protocolItem);
    var keep := selection.Some? && selection.value in Ids(shown);
    View(shown, if keep then selection else None)
  }

  /** The extension's domain filter and the console tool's `ShouldLog`
      agree: an entry passes the (non-blank) domain box exactly when its URL
      contains the trimmed filter, ignoring case. */
  lemma DomainMatchesIgnoreCase(domainText: string, url: string)
    requires !IsBlank(domainText)
    ensures DomainMatches(NormalizeDomain(Some(domainText)), url)
        <==> ContainsIgnoreCase(url, Trim(domainText))
  {
    var t := Trim(domainText);
    var f := ToLower(t);
    TrimEmptyIffBlank(domainText);
    TrimmedLowerNotBlank(domainText);
    assert NormalizeDomain(Some(domainText)) == Some(f);
    LowerIdempotent(t);
    assert DomainMatches(Some(f), url) == Contains(ToLower(url), ToLower(t));
    ContainsLowered(url, t);
  }

  lemma LowerIdempotent(s: string)
    ensures ToLower(ToLower(s)) == ToLower(s)
  {
    assert forall i :: 0 <= i < |s| ==> ToLower(ToLower(s))[i] == ToLower(s)[i];
  }
}
