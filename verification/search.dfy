/**
  Incremental search in one text region: the match offsets of the query,
  a cursor moved by Enter, and the split of the text into plain and
  highlighted runs.
 */
module Search {
  import opened Wrappers
  import opened Text

  /** One region's search state: the query it was computed for, the match
      offsets, and the current match (-1 for none). */
  datatype SearchState = SearchState(query: string, matches: seq<nat>, cursor: int)

  const Cleared := SearchState("", [], -1)

  /** The cursor points into the match list, or is -1 when it is empty. */
  predicate Consistent(st: SearchState) {
    if |st.matches| == 0 then st.cursor == -1 else 0 <= st.cursor < |st.matches|
  }

  /** No match starts in `[lo, hi)`. */
  ghost predicate NoMatchIn(text: string, q: string, lo: nat, hi: int) {
    forall j :: lo <= j < hi ==> !MatchesAt(text, q, j)
  }

  /** No match starts at or after `lo`. */
  ghost predicate NoMatchFrom(text: string, q: string, lo: nat) {
    forall j :: lo <= j ==> !MatchesAt(text, q, j)
  }

  /** Match `k + 1` is the first one after match `k` has ended. */
  ghost predicate NextAfter(text: string, q: string, r: seq<nat>, k: nat) {
    k + 1 < |r| && r[k] + |q| <= r[k + 1] && NoMatchIn(text, q, r[k] + |q|, r[k + 1])
  }

  /** `r` is the leftmost non-overlapping scan of `text` for `q` from
      `from`: each offset is the first match at or after the point where
      the previous match ended, and nothing matches after the last one. */
  ghost predicate Greedy(text: string, q: string, from: nat, r: seq<nat>) {
    && (forall k :: 0 <= k < |r| ==> MatchesAt(text, q, r[k]))
    && (forall k :: 0 <= k < |r| - 1 ==> NextAfter(text, q, r, k))
    && (if |r| == 0 then NoMatchFrom(text, q, from)
        else from <= r[0] && NoMatchIn(text, q, from, r[0]) && NoMatchFrom(text, q, r[|r| - 1] + |q|))
  }

  /** A greedy scan preceded by the first match before it is again greedy. */
  lemma GreedyCons(text: string, q: string, from: nat, i: nat, rest: seq<nat>)
    requires from <= i && MatchesAt(text, q, i) && NoMatchIn(text, q, from, i)
    requires Greedy(text, q, i + |q|, rest)
    ensures Greedy(text, q, from, [i] + rest)
  {
    var r := [i] + rest;
    forall k | 0 <= k < |r| - 1 ensures NextAfter(text, q, r, k) {
      if k > 0 {
        assert NextAfter(text, q, rest, k - 1);
      }
    }
    if |rest| == 0 {
      assert NoMatchFrom(text, q, i + |q|);
    }
  }

  /** The loop of `SearchBox_TextChanged`, from offset `from`. */
  function Scan(text: string, q: string, from: nat): seq<nat>
    requires |q| > 0 && from <= |text|
    decreases |text| - from
  {
    match IndexOfIgnoreCase(text, q, from)
    case None => []
    case Some(i) => [i] + Scan(text, q, i + |q|)
  }

  /** The scan is the leftmost non-overlapping one. */
  lemma {:induction false} ScanIsGreedy(text: string, q: string, from: nat)
    requires |q| > 0 && from <= |text|
    ensures Greedy(text, q, from, Scan(text, q, from))
    decreases |text| - from
  {
    IndexOfFinds(text, q, from);
    var o := IndexOfIgnoreCase(text, q, from);
    if o.None? {
      assert Scan(text, q, from) == [];
      assert NoMatchFrom(text, q, from);
    } else {
      var i := o.value;
      var rest := Scan(text, q, i + |q|);
      assert Scan(text, q, from) == [i] + rest;
      ScanIsGreedy(text, q, i + |q|);
      GreedyCons(text, q, from, i, rest);
    }
  }

  /** Greedy offsets lie in the text and increase, each match ending before
      the next begins. */
  lemma GreedyNonOverlapping(text: string, q: string, from: nat, r: seq<nat>)
    requires Greedy(text, q, from, r)
    ensures forall k :: 0 <= k < |r| ==> r[k] + |q| <= |text|
    ensures forall k :: 0 <= k < |r| - 1 ==> r[k] + |q| <= r[k + 1]
    ensures forall k :: 0 <= k < |r| ==> from <= r[k]
  {
    forall k | 0 <= k < |r| - 1 ensures r[k] + |q| <= r[k + 1] {
      assert NextAfter(text, q, r, k);
    }
    forall k | 0 <= k < |r| ensures from <= r[k] {
      GreedyAbove(text, q, from, r, k);
    }
  }

  lemma {:induction false} GreedyAbove(text: string, q: string, from: nat, r: seq<nat>, k: nat)
    requires Greedy(text, q, from, r) && k < |r|
    ensures from <= r[k]
  {
    if k > 0 {
      GreedyAbove(text, q, from, r, k - 1);
      assert NextAfter(text, q, r, k - 1);
    }
  }

  /** There is only one greedy scan: any list of offsets meeting `Greedy`
      is the one `Scan` computes. */
  lemma {:induction false} GreedyUnique(text: string, q: string, from: nat, r: seq<nat>)
    requires |q| > 0 && from <= |text|
    requires Greedy(text, q, from, r)
    ensures r == Scan(text, q, from)
    decreases |text| - from
  {
    GreedyHead(text, q, from, r);
    if |r| > 0 {
      GreedyTail(text, q, from, r);
      GreedyUnique(text, q, r[0] + |q|, r[1..]);
      ScanStep(text, q, from);
      assert r == [r[0]] + r[1..];
    } else {
      ScanDone(text, q, from);
    }
  }

  /** The search from `from` finds the first offset of a greedy scan, or
      nothing when the scan is empty. */
  lemma GreedyHead(text: string, q: string, from: nat, r: seq<nat>)
    requires from <= |text| && Greedy(text, q, from, r)
    ensures IndexOfIgnoreCase(text, q, from) == if |r| > 0 then Some(r[0]) else None
  {
    IndexOfFinds(text, q, from);
    if |r| > 0 {
      assert MatchesAt(text, q, r[0]);
    }
  }

  /** After its first offset, a greedy scan is greedy from where that match
      ends. */
  lemma GreedyTail(text: string, q: string, from: nat, r: seq<nat>)
    requires Greedy(text, q, from, r) && |r| > 0
    ensures Greedy(text, q, r[0] + |q|, r[1..])
  {
    var rest := r[1..];
    if |rest| > 0 {
      assert NextAfter(text, q, r, 0);
    }
    forall k | 0 <= k < |rest| - 1 ensures NextAfter(text, q, rest, k) {
      assert NextAfter(text, q, r, k + 1);
    }
  }

  /** One round of the scan: a match found at `from` or later is the
      head of the scan from `from`. */
  lemma ScanStep(text: string, q: string, from: nat)
    requires |q| > 0 && from <= |text| && IndexOfIgnoreCase(text, q, from).Some?
    ensures var i := IndexOfIgnoreCase(text, q, from).value;
      i + |q| <= |text| && Scan(text, q, from) == [i] + Scan(text, q, i + |q|)
  {
  }

  /** What the scan from the start of the text promises. */
  lemma ScanFacts(text: string, q: string)
    requires |q| > 0
    ensures Greedy(text, q, 0, Scan(text, q, 0))
    ensures var r := Scan(text, q, 0);
      forall k :: 0 <= k < |r| - 1 ==> r[k] + |q| <= r[k + 1]
  {
    ScanIsGreedy(text, q, 0);
    GreedyNonOverlapping(text, q, 0, Scan(text, q, 0));
  }

  /** A match found at `from` or later moves from the unscanned rest to the
      collected matches. */
  lemma FindStep(text: string, q: string, from: nat, matches: seq<nat>)
    requires |q| > 0 && from <= |text| && IndexOfIgnoreCase(text, q, from).Some?
    requires matches + Scan(text, q, from) == Scan(text, q, 0)
    ensures var i := IndexOfIgnoreCase(text, q, from).value;
      i + |q| <= |text| && (matches + [i]) + Scan(text, q, i + |q|) == Scan(text, q, 0)
  {
    ScanStep(text, q, from);
    var i := IndexOfIgnoreCase(text, q, from).value;
    var rest := Scan(text, q, i + |q|);
    assert (matches + [i]) + rest == matches + ([i] + rest);
  }

  /** The source's `while (IndexOf(...) >= 0)` loop collecting the matches. */
  method FindMatches(content: string, q: string) returns (matches: seq<nat>)
    requires |q| > 0
    ensures matches == Scan(content, q, 0)
  {
    matches := [];
    var temp: nat := 0;
    var found := IndexOfIgnoreCase(content, q, temp);
    while found.Some?
      invariant temp <= |content|
      invariant found == IndexOfIgnoreCase(content, q, temp)
      invariant matches + Scan(content, q, temp) == Scan(content, q, 0)
      decreases |content| - temp
    {
      FindStep(content, q, temp, matches);
      matches := matches + [found.value];
      temp := found.value + |q|;
      found := IndexOfIgnoreCase(content, q, temp);
    }
    ScanDone(content, q, temp);
    assert matches + [] == matches;
  }

  /** With no match left, the scan is over. */
  lemma ScanDone(text: string, q: string, from: nat)
    requires |q| > 0 && from <= |text| && IndexOfIgnoreCase(text, q, from).None?
    ensures Scan(text, q, from) == []
  {
  }

  /** `SearchBox_TextChanged` for one region: a blank query or an empty
      region clears the matches; otherwise the greedy scan, with the cursor
      on the first match. */
  function TextChanged(query: string, content: string): (r: SearchState)
    ensures r.query == query && Consistent(r)
    ensures IsBlank(query) || content == [] ==> r.matches == [] && r.cursor == -1
    ensures !IsBlank(query) && content != [] ==> Greedy(content, query, 0, r.matches)
    ensures |r.matches| > 0 ==> r.cursor == 0
  {
    if IsBlank(query) then SearchState(query, [], -1)
    else if content == [] then SearchState(query, [], -1)
    else
      assert |query| > 0;
      var m := Scan(content, query, 0);
      ScanIsGreedy(content, query, 0);
      SearchState(query, m, if |m| > 0 then 0 else -1)
  }

  /** C#'s `%` on `int`: the remainder takes the sign of the dividend. */
  function CRem(a: int, b: int): (r: int)
    requires b > 0
    ensures a >= 0 ==> r == a % b
  {
    if a >= 0 then a % b else -((-a) % b)
  }

  /** `SearchBox_KeyDown` on Enter: the cursor moves to the next match,
      wrapping to the first; nothing happens with a blank query or no
      matches. Only the cursor ever changes. */
  function KeyDown(st: SearchState): (r: SearchState)
    ensures r.query == st.query && r.matches == st.matches
    ensures IsBlank(st.query) || |st.matches| == 0 ==> r == st
    ensures Consistent(st) ==> Consistent(r)
    ensures Consistent(st) && !IsBlank(st.query) && |st.matches| > 0 ==>
              r.cursor == if st.cursor + 1 == |st.matches| then 0 else st.cursor + 1
  {
    if IsBlank(st.query) || |st.matches| == 0 then st
    else
      WrapStep(st.cursor, |st.matches|);
      st.(cursor := CRem(st.cursor + 1, |st.matches|))
  }

  /** Within range, the next cursor is one more, or 0 past the end. */
  lemma WrapStep(c: int, k: int)
    requires k > 0
    ensures 0 <= c < k ==> CRem(c + 1, k) == if c + 1 == k then 0 else c + 1
  {
    if 0 <= c < k {
      if c + 1 < k {
        assert (c + 1) % k == c + 1;
      } else {
        assert (c + 1) % k == 0;
      }
    }
  }

  /** The step is `(cursor + 1) mod k`, as written in the source. */
  lemma KeyDownModular(st: SearchState)
    requires Consistent(st) && !IsBlank(st.query) && |st.matches| > 0
    ensures KeyDown(st).cursor == (st.cursor + 1) % |st.matches|
    ensures 0 <= KeyDown(st).cursor < |st.matches|
  {
  }

  /** The offset the region is scrolled to, if any. */
  function Current(st: SearchState): (r: Option<nat>)
    ensures r.None? <==> !(0 <= st.cursor < |st.matches|)
    ensures 0 <= st.cursor < |st.matches| ==> r == Some(st.matches[st.cursor])
  {
    if 0 <= st.cursor < |st.matches| then Some(st.matches[st.cursor]) else None
  }

  /** Enter pressed `n` times. */
  function Presses(st: SearchState, n: nat): SearchState {
    if n == 0 then st else KeyDown(Presses(st, n - 1))
  }

  /** From the first match, `n < k` presses land on match `n`. */
  lemma {:induction false} PressesFromFirst(st: SearchState, n: nat)
    requires Consistent(st) && !IsBlank(st.query) && |st.matches| > 0 && st.cursor == 0
    requires n < |st.matches|
    ensures Presses(st, n) == st.(cursor := n)
  {
    if n > 0 {
      PressesFromFirst(st, n - 1);
    }
  }

  /** Wrap-around: with `k` matches, presses one to `k` visit the matches in
      ascending order, ending back on the first. */
  lemma WrapAround(st: SearchState)
    requires Consistent(st) && !IsBlank(st.query) && |st.matches| > 0 && st.cursor == 0
    ensures forall n :: 1 <= n < |st.matches| ==> Current(Presses(st, n)) == Some(st.matches[n])
    ensures Presses(st, |st.matches|) == st
  {
    forall n | 1 <= n < |st.matches| ensures Current(Presses(st, n)) == Some(st.matches[n]) {
      PressesFromFirst(st, n);
    }
    PressesBack(st);
  }

  /** `k` presses from the first of `k` matches come back to it. */
  lemma PressesBack(st: SearchState)
    requires Consistent(st) && !IsBlank(st.query) && |st.matches| > 0 && st.cursor == 0
    ensures Presses(st, |st.matches|) == st
  {
    var k := |st.matches|;
    PressesFromFirst(st, k - 1);
    var last := st.(cursor := k - 1);
    assert KeyDown(last) == st;
  }

  /** The example of a mixed-case region: three matches, Enter visits 3, 6
      and wraps back to 0. */
  lemma MixedCaseExample()
    ensures TextChanged("abc", "abcABCabc").matches == [0, 3, 6]
    ensures Current(Presses(TextChanged("abc", "abcABCabc"), 1)) == Some(3)
    ensures Current(Presses(TextChanged("abc", "abcABCabc"), 2)) == Some(6)
    ensures Current(Presses(TextChanged("abc", "abcABCabc"), 3)) == Some(0)
  {
    var t, q := "abcABCabc", "abc";
    assert !IsBlank(q) by { assert !IsWhiteSpace(q[0]); }
    MixedCaseScan();
  }

  /** The scan of that region. */
  lemma MixedCaseScan()
    ensures Scan("abcABCabc", "abc", 0) == [0, 3, 6]
  {
    var t, q := "abcABCabc", "abc";
    assert IndexOfIgnoreCase(t, q, 6) == Some(6) by {
      assert MatchesAt(t, q, 6);
    }
    assert Scan(t, q, 6) == [6] by {
      assert IndexOfIgnoreCase(t, q, 9) == None;
    }
    assert IndexOfIgnoreCase(t, q, 3) == Some(3) by {
      assert MatchesAt(t, q, 3);
    }
    assert IndexOfIgnoreCase(t, q, 0) == Some(0) by {
      assert MatchesAt(t, q, 0);
    }
  }

  /** A run of the highlighted region: plain grey text or a red match. */
  datatype Segment = Plain(text: string) | Hit(text: string)

  function Concat(segs: seq<Segment>): string {
    if |segs| == 0 then [] else segs[0].text + Concat(segs[1..])
  }

  lemma {:induction false} ConcatAppend(a: seq<Segment>, b: seq<Segment>)
    ensures Concat(a + b) == Concat(a) + Concat(b)
  {
    if |a| > 0 {
      assert (a + b)[1..] == a[1..] + b;
      ConcatAppend(a[1..], b);
    } else {
      assert a + b == b;
    }
  }

  /** The offsets at which the highlighted runs start, for runs laid out
      from offset `pos`. */
  function HitOffsets(segs: seq<Segment>, pos: nat): seq<nat> {
    if |segs| == 0 then []
    else (if segs[0].Hit? then [pos] else []) + HitOffsets(segs[1..], pos + |segs[0].text|)
  }

  lemma {:induction false} HitOffsetsAppend(a: seq<Segment>, b: seq<Segment>, pos: nat)
    ensures HitOffsets(a + b, pos) == HitOffsets(a, pos) + HitOffsets(b, pos + |Concat(a)|)
  {
    if |a| > 0 {
      var tail := a[1..];
      var n := pos + |a[0].text|;
      var h: seq<nat> := if a[0].Hit? then [pos] else [];
      assert (a + b)[0] == a[0] && (a + b)[1..] == tail + b;
      HitOffsetsAppend(tail, b, n);
      var x, y := HitOffsets(tail, n), HitOffsets(b, n + |Concat(tail)|);
      assert |Concat(a)| == |a[0].text| + |Concat(tail)|;
      assert HitOffsets(a + b, pos) == h + (x + y);
      assert HitOffsets(a, pos) == h + x;
      assert h + (x + y) == (h + x) + y;
    } else {
      assert a + b == b;
    }
  }

  /** Every highlighted run is the query up to case, and no plain run is
      empty. */
  predicate RunsWellFormed(segs: seq<Segment>, q: string) {
    forall k :: 0 <= k < |segs| ==>
      (segs[k].Hit? ==> EqualsIgnoreCase(segs[k].text, q)) && (segs[k].Plain? ==> segs[k].text != [])
  }

  /** The loop of `HighlightMatches`, from offset `last`: its runs put back
      together are the text from `last` on. */
  function Runs(t: string, q: string, last: nat): (r: seq<Segment>)
    requires |q| > 0 && last <= |t|
    ensures Concat(r) == t[last..]
    decreases |t| - last
  {
    match IndexOfIgnoreCase(t, q, last)
    case None =>
      if last < |t| then
        assert Concat([Plain(t[last..])]) == t[last..] + Concat([]);
        [Plain(t[last..])]
      else []
    case Some(i) =>
      var rest := Runs(t, q, i + |q|);
      IndexOfFinds(t, q, last);
      RunsCons(t, q, last, i, rest);
      Before(t, last, i) + [Hit(t[i..i + |q|])] + rest
  }

  /** Every highlighted run matches the query and no plain run is empty. */
  lemma {:induction false} RunsAreWellFormed(t: string, q: string, last: nat)
    requires |q| > 0 && last <= |t|
    ensures RunsWellFormed(Runs(t, q, last), q)
    decreases |t| - last
  {
    var o := IndexOfIgnoreCase(t, q, last);
    if o.None? {
      LastRunWellFormed(t, q, last);
    } else {
      RunsAreWellFormed(t, q, o.value + |q|);
      WellFormedStep(t, q, last, o.value);
    }
  }

  /** A match at `i` keeps the runs well formed from after it back to `last`. */
  lemma WellFormedStep(t: string, q: string, last: nat, i: nat)
    requires |q| > 0 && last <= |t| && IndexOfIgnoreCase(t, q, last) == Some(i)
    requires RunsWellFormed(Runs(t, q, i + |q|), q)
    ensures RunsWellFormed(Runs(t, q, last), q)
  {
    var front := Before(t, last, i) + [Hit(t[i..i + |q|])];
    var rest := Runs(t, q, i + |q|);
    RunsStep(t, q, last);
    IndexOfFinds(t, q, last);
    FrontRuns(t, q, last, i);
    WellFormedAppend(Runs(t, q, last), front, rest, q);
  }

  /** With no match left, the runs are at most one non-empty plain run. */
  lemma LastRunWellFormed(t: string, q: string, last: nat)
    requires |q| > 0 && last <= |t| && IndexOfIgnoreCase(t, q, last).None?
    ensures RunsWellFormed(Runs(t, q, last), q)
  {
    if last < |t| {
      assert Runs(t, q, last) == [Plain(t[last..])];
    }
  }

  /** The plain run between the previous match and the next, if non-empty. */
  function Before(t: string, last: nat, i: nat): seq<Segment>
    requires last <= i <= |t|
  {
    if i > last then [Plain(t[last..i])] else []
  }

  /** Putting a plain run and a match in front of the runs after them. */
  lemma RunsCons(t: string, q: string, last: nat, i: nat, rest: seq<Segment>)
    requires last <= i && MatchesAt(t, q, i)
    requires Concat(rest) == t[i + |q|..]
    ensures Concat(Before(t, last, i) + [Hit(t[i..i + |q|])] + rest) == t[last..]
  {
    var front := Before(t, last, i) + [Hit(t[i..i + |q|])];
    FrontRuns(t, q, last, i);
    ConcatAppend(front, rest);
    assert t[last..] == t[last..i + |q|] + t[i + |q|..];
  }

  /** The plain run and the match in front: the text up to the match's end,
      well formed. */
  lemma FrontRuns(t: string, q: string, last: nat, i: nat)
    requires last <= i && MatchesAt(t, q, i)
    ensures Concat(Before(t, last, i) + [Hit(t[i..i + |q|])]) == t[last..i + |q|]
    ensures RunsWellFormed(Before(t, last, i) + [Hit(t[i..i + |q|])], q)
  {
    var before := Before(t, last, i);
    var hit := [Hit(t[i..i + |q|])];
    MatchesAtSlice(t, q, i);
    ConcatAppend(before, hit);
    assert Concat(hit) == t[i..i + |q|] + Concat([]);
    if i > last {
      assert Concat(before) == t[last..i] + Concat([]);
    }
    assert t[last..i + |q|] == t[last..i] + t[i..i + |q|];
  }

  /** Well-formed runs joined are well formed. */
  lemma WellFormedAppend(r: seq<Segment>, a: seq<Segment>, b: seq<Segment>, q: string)
    requires r == a + b && RunsWellFormed(a, q) && RunsWellFormed(b, q)
    ensures RunsWellFormed(r, q)
  {
    forall k | |a| <= k < |r| ensures r[k] == b[k - |a|] {
    }
  }

  /** `HighlightMatches`: the runs put back together are the region's text;
      a blank query or a zero count gives the whole text as one plain run. */
  function Highlight(fullText: string, query: Option<string>, matchCount: int): (r: seq<Segment>)
    ensures Concat(r) == fullText
    ensures IsNullOrWhiteSpace(query) || matchCount == 0 ==> r == [Plain(fullText)]
    ensures !IsNullOrWhiteSpace(query) && matchCount != 0 ==> RunsWellFormed(r, query.value)
  {
    if IsNullOrWhiteSpace(query) || matchCount == 0 then
      assert Concat([Plain(fullText)]) == fullText + Concat([]);
      [Plain(fullText)]
    else
      assert |query.value| > 0;
      assert fullText[0..] == fullText;
      RunsAreWellFormed(fullText, query.value, 0);
      Runs(fullText, query.value, 0)
  }

  /** One round of the highlighting loop. */
  lemma RunsStep(t: string, q: string, last: nat)
    requires |q| > 0 && last <= |t| && IndexOfIgnoreCase(t, q, last).Some?
    ensures var i := IndexOfIgnoreCase(t, q, last).value;
      && last <= i && i + |q| <= |t|
      && Runs(t, q, last) == Before(t, last, i) + [Hit(t[i..i + |q|])] + Runs(t, q, i + |q|)
      && Scan(t, q, last) == [i] + Scan(t, q, i + |q|)
  {
  }

  /** A plain run and a match, laid out from `last`, end where the match
      ends and have their one highlighted run at `i`. */
  lemma MatchRun(t: string, q: string, last: nat, i: nat)
    requires last <= i && i + |q| <= |t|
    ensures |Concat(Before(t, last, i) + [Hit(t[i..i + |q|])])| == i + |q| - last
    ensures HitOffsets(Before(t, last, i) + [Hit(t[i..i + |q|])], last) == [i]
  {
    var before, hit := Before(t, last, i), [Hit(t[i..i + |q|])];
    ConcatAppend(before, hit);
    HitOffsetsAppend(before, hit, last);
    assert Concat(hit) == t[i..i + |q|] + Concat([]);
    assert HitOffsets(hit, i) == [i] + HitOffsets([], i + |q|);
    if i > last {
      assert Concat(before) == t[last..i] + Concat([]);
      assert HitOffsets(before, last) == [] + HitOffsets([], i);
    }
  }

  /** The highlighted runs sit exactly at the offsets the search found. */
  lemma {:induction false} RunsAtMatches(t: string, q: string, last: nat)
    requires |q| > 0 && last <= |t|
    ensures HitOffsets(Runs(t, q, last), last) == Scan(t, q, last)
    decreases |t| - last
  {
    var o := IndexOfIgnoreCase(t, q, last);
    if o.None? {
      NoRunsAt(t, q, last);
    } else {
      RunsAtMatches(t, q, o.value + |q|);
      RunsAtStep(t, q, last, o.value);
    }
  }

  /** No match from `last`: no highlighted run and nothing found. */
  lemma NoRunsAt(t: string, q: string, last: nat)
    requires |q| > 0 && last <= |t| && IndexOfIgnoreCase(t, q, last).None?
    ensures HitOffsets(Runs(t, q, last), last) == [] == Scan(t, q, last)
  {
    if last < |t| {
      assert Runs(t, q, last) == [Plain(t[last..])];
      assert HitOffsets([Plain(t[last..])], last) == [] + HitOffsets([], |t|);
    }
  }

  /** A match at `i` extends the agreement from after it back to `last`. */
  lemma RunsAtStep(t: string, q: string, last: nat, i: nat)
    requires |q| > 0 && last <= |t| && IndexOfIgnoreCase(t, q, last) == Some(i)
    requires HitOffsets(Runs(t, q, i + |q|), i + |q|) == Scan(t, q, i + |q|)
    ensures HitOffsets(Runs(t, q, last), last) == Scan(t, q, last)
  {
    var before := Before(t, last, i);
    var hit := [Hit(t[i..i + |q|])];
    var rest := Runs(t, q, i + |q|);
    RunsStep(t, q, last);
    HitOffsetsAppend(before + hit, rest, last);
    MatchRun(t, q, last, i);
  }
}
