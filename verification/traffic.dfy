/**
  The extension's capture store: `OnRequest` appends a pending
  `HttpTrafficEntry`, `OnResponse` completes the oldest pending entry for the
  same URL. Both handlers switch to the UI thread before touching the store,
  so events are applied one at a time. An entry's object identity is its
  `id`, drawn from a counter that is never reset.
 */
module Traffic {
  import opened Wrappers
  import opened Text
  import opened JsonFormat

  /** `HttpTrafficEntry`. `status` is the status code as text, absent (null)
      or empty while the entry is pending. */
  datatype Entry = Entry(
    id: nat,
    time: string,
    verb: string,
    url: string,
    protocol: string,
    status: Option<string>,
    requestHeaders: string,
    requestBody: string,
    responseHeaders: Option<string>,
    responseBody: Option<string>)
  {
    /** `string.IsNullOrEmpty(Status)`. */
    predicate Pending() {
      status.None? || status.value == ""
    }
  }

  /** What reading a body from the proxy engine yielded. */
  datatype Body = NoBody | Read(text: string) | ReadFailed(message: string)

  /** A request as the proxy engine reports it; the header block is already
      rendered to text. */
  datatype Request = Request(verb: string, url: string, headers: string,
                             contentType: Option<string>, body: Body)

  /** A response as the proxy engine reports it. */
  datatype Response = Response(url: string, statusCode: int, headers: string,
                               contentType: Option<string>, body: Body)

  /** The ordered entries and the next identity to hand out. */
  datatype Store = Store(entries: seq<Entry>, nextId: nat)

  const EmptyStore := Store([], 0)

  const NoBodyText := "[No body]"

  /** Identities increase along the store and are all below the counter. */
  predicate Valid(s: Store) {
    && (forall i, j :: 0 <= i < j < |s.entries| ==> s.entries[i].id < s.entries[j].id)
    && (forall i :: 0 <= i < |s.entries| ==> s.entries[i].id < s.nextId)
  }

  /** The identities present in the store. */
  function Ids(entries: seq<Entry>): (r: seq<nat>)
    ensures |r| == |entries|
    ensures forall i :: 0 <= i < |entries| ==> r[i] == entries[i].id
  {
    seq(|entries|, i requires 0 <= i < |entries| => entries[i].id)
  }

  /** The text stored for a body: the placeholder when there is none, the
      diagnostic when reading failed, the JSON-formatted text otherwise. */
  function BodyText(b: Body, contentType: Option<string>, format: string -> Option<string>): (r: string)
    ensures b.NoBody? ==> r == NoBodyText
    ensures b.ReadFailed? ==> r == "[Error reading body: " + b.message + "]"
    ensures b.Read? ==> r == b.text || format(b.text) == Some(r)
  {
    match b
    case NoBody => NoBodyText
    case Read(text) => TryFormatJson(Some(text), contentType, format)
    case ReadFailed(message) => "[Error reading body: " + message + "]"
  }

  /** The protocol column, from the URL's scheme. */
  function ProtocolOf(url: string): (p: string)
    ensures p == "HTTPS" || p == "HTTP"
    ensures p == "HTTPS" <==> StartsWithIgnoreCase(url, "https")
  {
    if StartsWithIgnoreCase(url, "https") then "HTTPS" else "HTTP"
  }

  /** `OnRequest`: exactly one pending entry appended, nothing else touched. */
  function OnRequest(s: Store, time: string, req: Request, format: string -> Option<string>): (r: Store)
    ensures |r.entries| == |s.entries| + 1
    ensures r.entries[..|s.entries|] == s.entries
    ensures r.nextId == s.nextId + 1
    ensures var e := r.entries[|s.entries|];
      && e.id == s.nextId
      && e.Pending() && e.status.None?
      && e.url == req.url && e.verb == req.verb && e.time == time
      && e.requestHeaders == req.headers
      && (e.protocol == "HTTPS" <==> StartsWithIgnoreCase(req.url, "https"))
      && (e.protocol == "HTTP" <==> !StartsWithIgnoreCase(req.url, "https"))
      && e.requestBody == BodyText(req.body, req.contentType, format)
      && (req.body.NoBody? ==> e.requestBody == NoBodyText)
      && e.responseHeaders.None? && e.responseBody.None?
    ensures Valid(s) ==> Valid(r)
  {
    Store(s.entries + [NewEntry(s.nextId, time, req, format)], s.nextId + 1)
  }

  /** The entry `OnRequest` records for `req` under identity `id`. */
  function NewEntry(id: nat, time: string, req: Request, format: string -> Option<string>): Entry {
    Entry(id, time, req.verb, req.url, ProtocolOf(req.url), None,
          req.headers, BodyText(req.body, req.contentType, format), None, None)
  }

  /** `allEntries.FirstOrDefault(x => x.Url == url && string.IsNullOrEmpty(x.Status))`,
      as an index. */
  function FirstPending(entries: seq<Entry>, url: string): (r: Option<nat>)
    ensures r.Some? ==> r.value < |entries| && entries[r.value].url == url && entries[r.value].Pending()
    ensures r.Some? ==> forall j :: 0 <= j < r.value ==> !(entries[j].url == url && entries[j].Pending())
    ensures r.None? ==> forall j :: 0 <= j < |entries| ==> !(entries[j].url == url && entries[j].Pending())
  {
    if |entries| == 0 then None
    else if entries[0].url == url && entries[0].Pending() then Some(0)
    else match FirstPending(entries[1..], url)
      case None => None
      case Some(k) => Some(k + 1)
  }

  /** The entry with its response recorded. */
  function Complete(e: Entry, resp: Response, format: string -> Option<string>): (c: Entry)
    ensures !c.Pending() && c.status == Some(IntToString(resp.statusCode))
    ensures c.responseHeaders == Some(resp.headers)
    ensures c.responseBody == Some(BodyText(resp.body, resp.contentType, format))
    ensures c.id == e.id && c.url == e.url && c.verb == e.verb && c.protocol == e.protocol
    ensures c.time == e.time && c.requestHeaders == e.requestHeaders && c.requestBody == e.requestBody
  {
    e.(status := Some(IntToString(resp.statusCode)),
       responseHeaders := Some(resp.headers),
       responseBody := Some(BodyText(resp.body, resp.contentType, format)))
  }

  /** `OnResponse`: completes the oldest pending entry with the response's
      URL; with none pending the response is dropped. Completed entries are
      never touched again. */
  function OnResponse(s: Store, resp: Response, format: string -> Option<string>): (r: Store)
    ensures |r.entries| == |s.entries| && r.nextId == s.nextId
    ensures Ids(r.entries) == Ids(s.entries)
    ensures Valid(s) ==> Valid(r)
  {
    match FirstPending(s.entries, resp.url)
    case None => s
    case Some(k) =>
      var c := Complete(s.entries[k], resp, format);
      Store(s.entries[k := c], s.nextId)
  }

  /** What `OnResponse` changes: nothing when no entry for the URL is
      pending; otherwise only the oldest pending entry for the URL, which it
      completes. Completed entries are never touched. */
  lemma OnResponseSpec(s: Store, resp: Response, format: string -> Option<string>)
    ensures var r := OnResponse(s, resp, format);
      && (NonePending(s.entries, resp.url) ==> r == s)
      && (forall j :: 0 <= j < |s.entries| && !s.entries[j].Pending() ==> r.entries[j] == s.entries[j])
      && (forall k :: 0 <= k < |s.entries| && r.entries[k] != s.entries[k] ==>
            && s.entries[k].url == resp.url && s.entries[k].Pending()
            && (forall j :: 0 <= j < k ==> !(s.entries[j].url == resp.url && s.entries[j].Pending()))
            && r.entries[k] == Complete(s.entries[k], resp, format)
            && (forall j :: 0 <= j < |s.entries| && j != k ==> r.entries[j] == s.entries[j]))
  {
    var f := FirstPending(s.entries, resp.url);
    if f.Some? {
      var k := f.value;
      assert Complete(s.entries[k], resp, format) != s.entries[k] by { assert s.entries[k].Pending(); }
    }
  }

  /** With an oldest pending entry at `i`, the response replaces that entry
      by its completion. */
  lemma OnResponseAt(s: Store, resp: Response, format: string -> Option<string>, i: nat)
    requires FirstPending(s.entries, resp.url) == Some(i)
    ensures i < |s.entries|
    ensures OnResponse(s, resp, format) == Store(s.entries[i := Complete(s.entries[i], resp, format)], s.nextId)
  {
  }

  /** The response completes the entry at `k` exactly when `k` is the oldest
      pending entry for its URL. */
  lemma OnResponseCompletesOldest(s: Store, resp: Response, format: string -> Option<string>, k: nat)
    requires k < |s.entries|
    ensures OnResponse(s, resp, format).entries[k] != s.entries[k]
        <==> FirstPending(s.entries, resp.url) == Some(k)
  {
    var f := FirstPending(s.entries, resp.url);
    if f == Some(k) {
      assert s.entries[k].Pending();
      assert OnResponse(s, resp, format).entries[k] == Complete(s.entries[k], resp, format);
    }
  }

  /** A run of requests, in arrival order. */
  function Requests(s: Store, time: string, reqs: seq<Request>, format: string -> Option<string>): Store
    decreases |reqs|
  {
    if |reqs| == 0 then s
    else OnRequest(Requests(s, time, reqs[..|reqs| - 1], format), time, reqs[|reqs| - 1], format)
  }

  /** A run of responses, in arrival order. */
  function Responses(s: Store, resps: seq<Response>, format: string -> Option<string>): Store
    decreases |resps|
  {
    if |resps| == 0 then s
    else OnResponse(Responses(s, resps[..|resps| - 1], format), resps[|resps| - 1], format)
  }

  /** No entry of `entries` is waiting for a response to `url`. */
  predicate NonePending(entries: seq<Entry>, url: string) {
    forall j :: 0 <= j < |entries| ==> !(entries[j].url == url && entries[j].Pending())
  }

  /** `t` is `s` followed by the entry `OnRequest` records for each request,
      in order: the `k`-th new entry is request `k`'s, with identity
      `s.nextId + k`. */
  predicate AppendedBy(s: Store, t: Store, time: string, reqs: seq<Request>, format: string -> Option<string>) {
    && |t.entries| == |s.entries| + |reqs|
    && t.nextId == s.nextId + |reqs|
    && t.entries[..|s.entries|] == s.entries
    && (forall k :: 0 <= k < |reqs| ==> t.entries[|s.entries| + k] == NewEntry(s.nextId + k, time, reqs[k], format))
  }

  /** Requests append their entries in order: the prefix is untouched and the
      `k`-th new entry is the one `OnRequest` records for the `k`-th request,
      with identity `s.nextId + k`. */
  lemma {:induction false} RequestsAppend(s: Store, time: string, reqs: seq<Request>,
                                          format: string -> Option<string>)
    ensures AppendedBy(s, Requests(s, time, reqs, format), time, reqs, format)
    decreases |reqs|
  {
    if |reqs| > 0 {
      var init := reqs[..|reqs| - 1];
      RequestsAppend(s, time, init, format);
      var t0 := Requests(s, time, init, format);
      AppendOne(s, t0, OnRequest(t0, time, reqs[|reqs| - 1], format), time, reqs, format);
    }
  }

  /** One more request's entry extends the run. */
  lemma AppendOne(s: Store, t0: Store, t: Store, time: string, reqs: seq<Request>, format: string -> Option<string>)
    requires |reqs| > 0 && AppendedBy(s, t0, time, reqs[..|reqs| - 1], format)
    requires t == OnRequest(t0, time, reqs[|reqs| - 1], format)
    ensures AppendedBy(s, t, time, reqs, format)
  {
    var init := reqs[..|reqs| - 1];
    var prior := s.entries;
    forall k | 0 <= k < |reqs|
      ensures t.entries[|prior| + k] == NewEntry(s.nextId + k, time, reqs[k], format)
    {
      if k < |init| {
        assert t.entries[|prior| + k] == t0.entries[|prior| + k];
        assert init[k] == reqs[k];
      }
    }
    assert t.entries[..|prior|] == t0.entries[..|prior|];
  }

  /** Every entry of `added` is pending for `url`. */
  predicate PendingFor(added: seq<Entry>, url: string) {
    forall j :: 0 <= j < |added| ==> added[j].url == url && added[j].Pending()
  }

  /** The state reached after `m` of the responses: the prior entries as they
      were, the first `m` added entries completed by the responses in order,
      the rest of them as the requests left them. */
  predicate FifoStage(t: Store, prior: seq<Entry>, added: seq<Entry>, url: string,
                      resps: seq<Response>, format: string -> Option<string>, m: nat) {
    && m <= |resps| && m <= |added|
    && |t.entries| == |prior| + |added|
    && t.entries[..|prior|] == prior
    && PendingFor(added, url)
    && Answered(t.entries, prior, added, resps, format, m)
    && Waiting(t.entries, prior, added, m)
  }

  /** The first `m` entries after `prior` are the added entries completed by
      the first `m` responses, pairwise. */
  predicate Answered(e: seq<Entry>, prior: seq<Entry>, added: seq<Entry>, resps: seq<Response>,
                     format: string -> Option<string>, m: nat)
    requires |prior| + m <= |e| && m <= |resps| && m <= |added|
  {
    forall k :: 0 <= k < m ==> e[|prior| + k] == Complete(added[k], resps[k], format)
  }

  /** The entries from `|prior| + m` on are the added entries, untouched. */
  predicate Waiting(e: seq<Entry>, prior: seq<Entry>, added: seq<Entry>, m: nat)
    requires |prior| + |added| <= |e|
  {
    forall j :: |prior| + m <= j < |prior| + |added| ==> e[j] == added[j - |prior|]
  }

  /** The oldest pending entry is the first one that is pending. */
  lemma FirstPendingIs(entries: seq<Entry>, url: string, i: nat)
    requires i < |entries| && entries[i].url == url && entries[i].Pending()
    requires forall j :: 0 <= j < i ==> !(entries[j].url == url && entries[j].Pending())
    ensures FirstPending(entries, url) == Some(i)
  {
  }

  /** One more response moves a stage forward by completing entry `|prior| + m`. */
  lemma FifoStep(t: Store, prior: seq<Entry>, added: seq<Entry>, url: string, resps: seq<Response>,
                 format: string -> Option<string>, m: nat)
    requires NonePending(prior, url)
    requires FifoStage(t, prior, added, url, resps, format, m)
    requires m < |added| && m < |resps| && resps[m].url == url
    ensures FifoStage(OnResponse(t, resps[m], format), prior, added, url, resps, format, m + 1)
  {
    var i := |prior| + m;
    StageFirstPending(t, prior, added, url, resps, format, m);
    OnResponseAt(t, resps[m], format, i);
    assert t.entries[i] == added[m];
    StageComplete(t, prior, added, url, resps, format, m);
  }

  /** At stage `m` the oldest entry pending for `url` is entry `|prior| + m`. */
  lemma StageFirstPending(t: Store, prior: seq<Entry>, added: seq<Entry>, url: string,
                          resps: seq<Response>, format: string -> Option<string>, m: nat)
    requires NonePending(prior, url)
    requires FifoStage(t, prior, added, url, resps, format, m) && m < |added|
    ensures FirstPending(t.entries, url) == Some(|prior| + m)
  {
    var e := t.entries;
    var i := |prior| + m;
    forall j | 0 <= j < i ensures !(e[j].url == url && e[j].Pending()) {
      if j < |prior| {
        assert e[j] == e[..|prior|][j];
      } else {
        var k := j - |prior|;
        assert e[|prior| + k] == Complete(added[k], resps[k], format);
      }
    }
    assert e[i] == added[m];
    FirstPendingIs(e, url, i);
  }

  /** Replacing entry `|prior| + m` by the completion of the `m`-th added
      entry with the `m`-th response moves the stage forward. */
  lemma StageComplete(t: Store, prior: seq<Entry>, added: seq<Entry>, url: string,
                      resps: seq<Response>, format: string -> Option<string>, m: nat)
    requires FifoStage(t, prior, added, url, resps, format, m) && m < |added| && m < |resps|
    ensures FifoStage(Store(t.entries[|prior| + m := Complete(added[m], resps[m], format)], t.nextId),
                      prior, added, url, resps, format, m + 1)
  {
    var e := t.entries;
    var c := Complete(added[m], resps[m], format);
    var r := e[|prior| + m := c];
    assert r[..|prior|] == prior by {
      assert r[..|prior|] == e[..|prior|];
    }
    StageDone(e, r, prior, added, resps, format, m);
    StageRest(e, r, prior, added, m, c);
  }

  /** The completed entries, one more of them. */
  lemma StageDone(e: seq<Entry>, r: seq<Entry>, prior: seq<Entry>, added: seq<Entry>,
                  resps: seq<Response>, format: string -> Option<string>, m: nat)
    requires |prior| + m < |e| && m < |resps| && m < |added|
    requires r == e[|prior| + m := Complete(added[m], resps[m], format)]
    requires Answered(e, prior, added, resps, format, m)
    ensures Answered(r, prior, added, resps, format, m + 1)
  {
    forall k | 0 <= k < m + 1
      ensures r[|prior| + k] == Complete(added[k], resps[k], format)
    {
      if k < m {
        assert r[|prior| + k] == e[|prior| + k];
      }
    }
  }

  /** The entries still untouched, one fewer of them. */
  lemma StageRest(e: seq<Entry>, r: seq<Entry>, prior: seq<Entry>, added: seq<Entry>, m: nat, c: Entry)
    requires |prior| + m < |prior| + |added| == |e| && r == e[|prior| + m := c]
    requires Waiting(e, prior, added, m)
    ensures Waiting(r, prior, added, m + 1)
  {
    forall j | |prior| + m + 1 <= j < |prior| + |added| ensures r[j] == added[j - |prior|] {
      assert r[j] == e[j];
    }
  }

  /** The entries a run of requests appended to `s`. */
  function Added(s: Store, time: string, reqs: seq<Request>, format: string -> Option<string>): seq<Entry>
  {
    var t := Requests(s, time, reqs, format);
    if |s.entries| <= |t.entries| then t.entries[|s.entries|..] else []
  }

  /** FIFO correlation: N requests to one URL that has nothing pending,
      followed by up to N responses to that URL, complete the new entries in
      the order the requests arrived: the `k`-th new entry becomes the
      completion of the `k`-th response, headers and body included. Entries
      already in the store keep their state and the unanswered requests'
      entries are as the requests left them. */
  lemma {:induction false} FifoCorrelation(s: Store, time: string, reqs: seq<Request>,
                                           resps: seq<Response>, url: string,
                                           format: string -> Option<string>)
    requires NonePending(s.entries, url)
    requires forall k :: 0 <= k < |reqs| ==> reqs[k].url == url
    requires forall k :: 0 <= k < |resps| ==> resps[k].url == url
    requires |resps| <= |reqs|
    ensures AppendedBy(s, Requests(s, time, reqs, format), time, reqs, format)
    ensures AnsweredInOrder(Responses(Requests(s, time, reqs, format), resps, format),
                            s.entries, Added(s, time, reqs, format), resps, format)
  {
    FifoStart(s, time, reqs, resps, url, format);
    FifoAll(Requests(s, time, reqs, format), s.entries, Added(s, time, reqs, format), url, resps, format);
  }

  /** All the responses take the first stage to the last. */
  lemma FifoAll(t0: Store, prior: seq<Entry>, added: seq<Entry>, url: string, resps: seq<Response>,
                format: string -> Option<string>)
    requires NonePending(prior, url)
    requires FifoStage(t0, prior, added, url, resps, format, 0)
    requires forall k :: 0 <= k < |resps| ==> resps[k].url == url
    requires |resps| <= |added|
    ensures AnsweredInOrder(Responses(t0, resps, format), prior, added, resps, format)
  {
    FifoStages(t0, prior, added, url, resps, format, |resps|);
    assert resps[..|resps|] == resps;
    FifoEnd(Responses(t0, resps, format), prior, added, url, resps, format);
  }

  /** `t` is `prior` followed by the `added` entries, the first `|resps|` of
      them completed by the responses, pairwise and in order, the rest
      untouched. */
  predicate AnsweredInOrder(t: Store, prior: seq<Entry>, added: seq<Entry>, resps: seq<Response>,
                            format: string -> Option<string>) {
    && |t.entries| == |prior| + |added| && |resps| <= |added|
    && t.entries[..|prior|] == prior
    && (forall k :: 0 <= k < |resps| ==> t.entries[|prior| + k] == Complete(added[k], resps[k], format))
    && (forall j :: |prior| + |resps| <= j < |t.entries| ==> t.entries[j] == added[j - |prior|])
  }

  /** What the last stage says about the store. */
  lemma FifoEnd(t: Store, prior: seq<Entry>, added: seq<Entry>, url: string, resps: seq<Response>,
                format: string -> Option<string>)
    requires FifoStage(t, prior, added, url, resps, format, |resps|)
    ensures AnsweredInOrder(t, prior, added, resps, format)
  {
  }

  /** Before any response, the requests leave the first stage. */
  lemma FifoStart(s: Store, time: string, reqs: seq<Request>, resps: seq<Response>, url: string,
                  format: string -> Option<string>)
    requires forall k :: 0 <= k < |reqs| ==> reqs[k].url == url
    requires |resps| <= |reqs|
    ensures AppendedBy(s, Requests(s, time, reqs, format), time, reqs, format)
    ensures FifoStage(Requests(s, time, reqs, format), s.entries, Added(s, time, reqs, format), url, resps, format, 0)
  {
    var t0 := Requests(s, time, reqs, format);
    RequestsAppend(s, time, reqs, format);
    var added := Added(s, time, reqs, format);
    assert added == t0.entries[|s.entries|..];
    forall j | 0 <= j < |added| ensures added[j].url == url && added[j].Pending() {
      assert added[j] == t0.entries[|s.entries| + j];
      assert added[j] == NewEntry(s.nextId + j, time, reqs[j], format);
    }
  }

  /** Induction over the responses for `FifoCorrelation`. */
  lemma {:induction false} FifoStages(t0: Store, prior: seq<Entry>, added: seq<Entry>, url: string,
                                      resps: seq<Response>, format: string -> Option<string>, m: nat)
    requires NonePending(prior, url)
    requires FifoStage(t0, prior, added, url, resps, format, 0)
    requires forall k :: 0 <= k < |resps| ==> resps[k].url == url
    requires m <= |resps| <= |added|
    ensures FifoStage(Responses(t0, resps[..m], format), prior, added, url, resps, format, m)
    decreases m
  {
    if m > 0 {
      FifoStages(t0, prior, added, url, resps, format, m - 1);
      assert resps[..m][..m - 1] == resps[..m - 1];
      FifoStep(Responses(t0, resps[..m - 1], format), prior, added, url, resps, format, m - 1);
    } else {
      assert resps[..0] == [];
    }
  }
}
