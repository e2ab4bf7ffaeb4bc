# NetworkWatcher core, modelled in Dafny

NetworkWatcher is an HTTP/HTTPS capture tool. It has two front ends:

- A Visual Studio tool window. It lists captured requests, filters them by domain and protocol, and shows one entry in four detail boxes. The boxes are request headers, request body, response headers and response body. Each box has a case-insensitive search with Enter-to-next navigation and highlighting.
- A console program. It parses its command line, prompts for the settings it still needs, logs only URLs that pass a domain filter, and colourises JSON bodies.

This project models the logic of both front ends as pure functions over immutable data. Sources:

- the tool window's code-behind, `NetworkWatcherExtension/NetworkWatcherToolWindowControl.xaml.cs`;
- the console program, `NetworkWatcher/Program.cs`.

Modules, one concept each:

- `Wrappers`: `Option` and `GetOr`. `GetOr` models C#'s `??`.
- `Text`: the .NET string operations the code relies on:
  - `char.IsWhiteSpace`, `IsNullOrWhiteSpace`, `Trim`;
  - `ToLowerInvariant`;
  - ordinal and `OrdinalIgnoreCase` `Contains`/`IndexOf`/`StartsWith`;
  - `int.ToString`.
- `JsonFormat`: the JSON gate that `TryFormatJson` applies in the window and `TryParseJson`/`FormatJson` apply in the console. The JSON parser and serializer are a parameter `format: string -> Option<string>`. It returns `None` where the parser throws, and otherwise the indented rendering.
- `Traffic`: `HttpTrafficEntry` and the capture store (`allEntries`). `OnRequest` appends a pending entry. `OnResponse` completes the oldest pending entry for the same URL. The lemmas prove the first-in-first-out pairing of responses with requests.
- `FilterView`: `ApplyFilters`. It rebuilds the shown list from the store under the domain and protocol filters, and restores the selection.
- `Search`: one detail box's search state, covering `SearchBox_TextChanged`, `SearchBox_KeyDown` and `HighlightMatches`. It includes the match scan, the modular Enter navigation and the split of the text into plain and highlighted runs.
- `Window`: the whole tool window as a state machine. It has the store, the shown list, the selection and four panes. Each handler is a function of the window. The lemmas prove that every handler keeps the window's invariant.
- `JsonTokens`: `WriteJsonToConsole` as a tokenizer. It turns a string into classified tokens (punctuation, key, string value, number, boolean, null, other), and each class has its console colour.
- `ConsoleArgs`: `ParseArgs`, the two start-up prompts and `ShouldLog`.

Object identity matters in the source. `OnResponse` mutates the entry that `FirstOrDefault` returns, and `filteredEntries.Contains` tests references. The model gives every entry a unique `id`, assigned from the store's `nextId` counter, and compares identities wherever the source compares references.

## Model

| member | source | states |
|---|---|---|
| Traffic.OnRequest | NetworkWatcherExtension/NetworkWatcherToolWindowControl.xaml.cs:366-412 | A request appends exactly one entry and leaves every earlier entry unchanged. The new entry has the next unused identity and is pending, with no status and no response parts. It carries the request's URL, verb, time and headers. Its protocol is "HTTPS" exactly when the URL starts with "https" ignoring case, and "HTTP" otherwise. Its request body is the stored body text of the request's body under its content type: "[No body]" without a body, the read diagnostic on a failed read, and otherwise the text passed through `TryFormatJson`. Identities stay unique. |
| Traffic.ProtocolOf | NetworkWatcherExtension/NetworkWatcherToolWindowControl.xaml.cs:376 | The protocol is one of "HTTPS" and "HTTP". It is "HTTPS" exactly when the URL starts with "https", ignoring case. |
| Traffic.BodyText | NetworkWatcherExtension/NetworkWatcherToolWindowControl.xaml.cs:389-408 | A missing body becomes "[No body]". A failed read becomes "[Error reading body: <message>]". A body that was read is shown either verbatim or as the formatter's rendering of it. |
| Traffic.FirstPending | NetworkWatcherExtension/NetworkWatcherToolWindowControl.xaml.cs:433 | The lookup finds the earliest entry with the response's URL whose status is null or empty. If it finds none, no entry with that URL is pending. |
| Traffic.Complete | NetworkWatcherExtension/NetworkWatcherToolWindowControl.xaml.cs:437-467 | A completed entry is no longer pending. Its status is the decimal text of the status code, and its response headers and body are set. Its identity, URL, verb, protocol, time and request parts are unchanged. |
| Traffic.OnResponse | NetworkWatcherExtension/NetworkWatcherToolWindowControl.xaml.cs:424-478 | A response never adds, removes or reorders entries. Identities are unchanged, so they stay unique. |
| Traffic.OnResponseSpec | NetworkWatcherExtension/NetworkWatcherToolWindowControl.xaml.cs:433-471 | A response changes nothing when no entry for its URL is pending, and it never touches a completed entry. Any entry it changes is the oldest pending entry for its URL. That entry becomes its completion, and every other entry stays as it was. |
| Traffic.OnResponseAt | NetworkWatcherExtension/NetworkWatcherToolWindowControl.xaml.cs:433-445 | When the oldest pending entry for the URL is at position i, the new store is the old one with position i replaced by its completion. |
| Traffic.OnResponseCompletesOldest | NetworkWatcherExtension/NetworkWatcherToolWindowControl.xaml.cs:433-437 | A response changes the entry at position k exactly when that entry is the oldest pending one for its URL. |
| Traffic.RequestsAppend | NetworkWatcherExtension/NetworkWatcherToolWindowControl.xaml.cs:366-412 | A run of requests appends one entry per request, in order, after the untouched earlier entries. Entry k is the one `OnRequest` records for request k: identity `nextId + k`, the request's verb, URL, protocol, header block and body text, with no status and no response yet. The identity counter advances by the number of requests. |
| Traffic.FifoCorrelation | NetworkWatcherExtension/NetworkWatcherToolWindowControl.xaml.cs:424-471 | Take n requests to one URL that has nothing pending, then m <= n responses to that URL. The requests append n pending entries, in order. Entry k is the one `OnRequest` records for request k, with identity `nextId + k`. The k-th response turns the k-th of them into its completion: status, response headers and response body all come from that response. The remaining n-m entries are exactly as the requests left them, and earlier entries are untouched. This is first-in-first-out pairing. |
| JsonFormat.TryFormatJson | NetworkWatcherExtension/NetworkWatcherToolWindowControl.xaml.cs:480-511 | Null content gives "". Blank content comes back unchanged. Content that neither declares JSON nor starts with '{' or '[' after leading white space comes back unchanged. Content that passes the gate comes back formatted, or unchanged if it does not parse. The result is always either the content or its formatting. |
| JsonFormat.TryFormatJsonIdempotent | NetworkWatcherExtension/NetworkWatcherToolWindowControl.xaml.cs:480-511 | If the formatter is idempotent, formatting an already formatted body changes nothing. |
| JsonFormat.TryParseJson | NetworkWatcher/Program.cs:138-154 | Text is accepted only when it parses and something is left after trimming it, so blank text never reaches the parser. Any text with something left after trimming that parses is accepted. |
| JsonFormat.FormatJson | NetworkWatcher/Program.cs:156-170 | Unparseable text is returned unchanged. Otherwise the indented rendering is returned. |
| JsonFormat.ConsoleBody | NetworkWatcher/Program.cs:281-292 | A body is colourised as JSON exactly when prettifying is on, the body is not blank and it parses. In that case it is printed as its rendering; otherwise it is printed verbatim. |
| FilterView.NormalizeDomain | NetworkWatcherExtension/NetworkWatcherToolWindowControl.xaml.cs:526 | The domain filter is the box's text, trimmed and lower-cased. It is null only when there is no box; an empty box gives the empty filter, which shows every entry. |
| FilterView.FilterSpec | NetworkWatcherExtension/NetworkWatcherToolWindowControl.xaml.cs:529-543 | The shown list keeps the store's order, as a subsequence. An entry is listed exactly when it is in the store and passes both filters: the domain filter is blank or occurs in its URL ignoring case, and the protocol item is "All" or equals its protocol. |
| FilterView.FilterAppend | NetworkWatcherExtension/NetworkWatcherToolWindowControl.xaml.cs:531-543 | Filtering the store with one more entry gives the old shown list, followed by that entry when it passes the filters. |
| FilterView.FilterIdempotent | NetworkWatcherExtension/NetworkWatcherToolWindowControl.xaml.cs:531-543 | Filtering the shown list again changes nothing. |
| FilterView.FilterShowsAll | NetworkWatcherExtension/NetworkWatcherToolWindowControl.xaml.cs:533-537 | With a blank domain filter and the "All" protocol item, every entry is shown. |
| FilterView.FilterNoProtocol | NetworkWatcherExtension/NetworkWatcherToolWindowControl.xaml.cs:527-537 | With no protocol item selected, nothing is shown, because a null item equals neither "All" nor any protocol. |
| FilterView.ApplyFilters | NetworkWatcherExtension/NetworkWatcherToolWindowControl.xaml.cs:518-556 | The shown list is an order-preserving selection from the store, holding exactly the entries that pass the filters. The selection is kept exactly when the selected entry is still listed, and is otherwise dropped. |
| FilterView.DomainMatchesIgnoreCase | NetworkWatcherExtension/NetworkWatcherToolWindowControl.xaml.cs:526-534 | Lower-casing both sides makes a non-blank domain box match a URL exactly when the trimmed text occurs in it ignoring case. |
| Text.IndexOfFinds | NetworkWatcherExtension/NetworkWatcherToolWindowControl.xaml.cs:677 | The case-insensitive search from a start position returns the first match at or after it. It returns -1 (None) exactly when there is no match from there on. |
| Text.ContainsLowered | NetworkWatcherExtension/NetworkWatcherToolWindowControl.xaml.cs:533-534 | Lower-casing both strings and testing ordinal containment is the same as containment ignoring case. |
| Text.IntToStringInjective | NetworkWatcherExtension/NetworkWatcherToolWindowControl.xaml.cs:437 | Distinct status codes give distinct status texts. |
| Text.NatToStringRoundTrip | NetworkWatcherExtension/NetworkWatcherToolWindowControl.xaml.cs:437 | Reading the decimal text of a number back gives the number. |
| Search.ScanIsGreedy | NetworkWatcherExtension/NetworkWatcherToolWindowControl.xaml.cs:675-681 | The match loop finds non-overlapping case-insensitive matches. Each match is the first one at or after the end of the previous match, and there is none after the last. |
| Search.GreedyUnique | NetworkWatcherExtension/NetworkWatcherToolWindowControl.xaml.cs:675-681 | Exactly one sequence of positions has that greedy property, so the match list is determined by the text and the query alone. |
| Search.GreedyNonOverlapping | NetworkWatcherExtension/NetworkWatcherToolWindowControl.xaml.cs:675-681 | Matches lie inside the text, in increasing order, and each starts at or after the end of the previous one. |
| Search.FindMatches | NetworkWatcherExtension/NetworkWatcherToolWindowControl.xaml.cs:676-681 | The imperative loop computes exactly the greedy scan. |
| Search.TextChanged | NetworkWatcherExtension/NetworkWatcherToolWindowControl.xaml.cs:657-701 | A blank query or an empty box clears the matches and sets the cursor to -1. Otherwise the matches are the greedy scan. When there are matches the cursor starts on the first one, and the state is always consistent. |
| Search.KeyDown | NetworkWatcherExtension/NetworkWatcherToolWindowControl.xaml.cs:775-836 | Enter with a blank query or no matches changes nothing. Otherwise it advances the cursor to the next match, wrapping from the last match to the first. The query and the matches stay the same. |
| Search.KeyDownModular | NetworkWatcherExtension/NetworkWatcherToolWindowControl.xaml.cs:827 | The new cursor is (cursor + 1) mod the match count, and always indexes a match. |
| Search.Current | NetworkWatcherExtension/NetworkWatcherToolWindowControl.xaml.cs:832 | The scroll target exists exactly when the cursor indexes a match, and it is the match at the cursor. |
| Search.PressesFromFirst | NetworkWatcherExtension/NetworkWatcherToolWindowControl.xaml.cs:823-832 | Starting on the first match, n < count Enter presses put the cursor on match n. |
| Search.WrapAround | NetworkWatcherExtension/NetworkWatcherToolWindowControl.xaml.cs:823-832 | Starting on the first match, the n-th press scrolls to the n-th match. After as many presses as there are matches, the state is back where it started. |
| Search.MixedCaseExample | NetworkWatcherExtension/NetworkWatcherToolWindowControl.xaml.cs:675-687 | Searching "abc" in "abcABCabc" finds 0, 3 and 6. Enter then visits 3, 6 and wraps back to 0. |
| Search.Runs | NetworkWatcherExtension/NetworkWatcherToolWindowControl.xaml.cs:721-752 | The plain and highlighted runs, read in order, spell the text from the start position. |
| Search.RunsAreWellFormed | NetworkWatcherExtension/NetworkWatcherToolWindowControl.xaml.cs:724-743 | Every highlighted run equals the query ignoring case, so it has the query's length, and no run is empty. |
| Search.RunsAtMatches | NetworkWatcherExtension/NetworkWatcherToolWindowControl.xaml.cs:724-743 | The highlighted runs start exactly at the positions the search loop finds. Highlighting and navigation therefore agree on the matches. |
| Search.Highlight | NetworkWatcherExtension/NetworkWatcherToolWindowControl.xaml.cs:704-755 | The box's text is never altered by highlighting. A blank query or a zero match count leaves one plain run. Otherwise the runs are well formed. |
| Window.MatchLabel | NetworkWatcherExtension/NetworkWatcherToolWindowControl.xaml.cs:831 | The result label is two digit strings around a '/', then " matches". The first reads back as the 1-based cursor and the second as the match count. |
| Window.MatchLabelInjective | NetworkWatcherExtension/NetworkWatcherToolWindowControl.xaml.cs:687 | Two labels "<i>/<n> matches" are equal only when their positions and counts are, so the label identifies the current match. |
| Window.PaneTextChanged | NetworkWatcherExtension/NetworkWatcherToolWindowControl.xaml.cs:657-701 | Typing keeps the box's text and recomputes the search. The label becomes "" for a blank query, "No content" for an empty box, "No matches found" when nothing matches, and otherwise "1/<count> matches". The label agrees with the cursor. |
| Window.PaneEnter | NetworkWatcherExtension/NetworkWatcherToolWindowControl.xaml.cs:784-832 | Enter moves the search as `KeyDown` does. With a blank query or no matches the pane is unchanged. A pane whose label agrees with its cursor keeps that agreement. |
| Window.PaneEnterLabel | NetworkWatcherExtension/NetworkWatcherToolWindowControl.xaml.cs:827-831 | After Enter the label names the match the cursor moved to, out of the match count. |
| Window.ClearDetails | NetworkWatcherExtension/NetworkWatcherToolWindowControl.xaml.cs:584-610 | All four boxes, search boxes and labels are emptied and every match list is reset. The store, the list and the selection are unchanged. |
| Window.Refilter | NetworkWatcherExtension/NetworkWatcherToolWindowControl.xaml.cs:518-556 | The shown list is rebuilt from the store under the current filters. The selection and the boxes survive exactly when the selected entry is still listed. |
| Window.OnRequestW | NetworkWatcherExtension/NetworkWatcherToolWindowControl.xaml.cs:410-415 | A captured request updates the store as `OnRequest` does and keeps the window well formed. |
| Window.OnResponseW | NetworkWatcherExtension/NetworkWatcherToolWindowControl.xaml.cs:431-471 | A captured response updates the store as `OnResponse` does. It leaves the window untouched when no entry matched, and otherwise keeps it well formed. |
| Window.RefilterWellFormed | NetworkWatcherExtension/NetworkWatcherToolWindowControl.xaml.cs:518-556 | Rebuilding the list restores the window's invariant. The invariant says: the list is the filtered store, the selection is listed, and the boxes are empty without a selection. |
| Window.FilterChanged | NetworkWatcherExtension/NetworkWatcherToolWindowControl.xaml.cs:513-516 | Editing a filter box shows exactly the store filtered by the new texts, and keeps the window well formed. |
| Window.SelectRow | NetworkWatcherExtension/NetworkWatcherToolWindowControl.xaml.cs:558-571 | Selecting a listed row puts its four parts into the boxes, with null parts as "". Any other selection clears the details. |
| Window.ClearButton | NetworkWatcherExtension/NetworkWatcherToolWindowControl.xaml.cs:192-197 | Clear empties the store, the list, the selection and the details. A response arriving afterwards changes nothing, because no entry is left to complete. |
| Window.SearchChanged | NetworkWatcherExtension/NetworkWatcherToolWindowControl.xaml.cs:612-702 | Typing in one search box updates only that box's pane. The other three, the store, the list and the selection stay as they were. |
| Window.EnterPressed | NetworkWatcherExtension/NetworkWatcherToolWindowControl.xaml.cs:838-848 | Enter in one search box moves only that box's cursor and label. The other three panes keep theirs. |
| Window.InitialWellFormed | NetworkWatcherExtension/NetworkWatcherToolWindowControl.xaml.cs:27-40 | The freshly constructed window satisfies the invariant. |
| Window.StepWellFormed | NetworkWatcherExtension/NetworkWatcherToolWindowControl.xaml.cs:192-848 | Every event keeps the invariant: clear, filter edit, selection, search edit, Enter, request and response. |
| Window.RunWellFormed | NetworkWatcherExtension/NetworkWatcherToolWindowControl.xaml.cs:27-40 | Any sequence of events keeps the invariant. |
| JsonTokens.Next | NetworkWatcher/Program.cs:176-250 | Each step of the writer's loop consumes at least one character and stays inside the text. It aborts exactly at an opening quote with no closing quote after it. |
| JsonTokens.NextClassifies | NetworkWatcher/Program.cs:179-248 | Each class has its rule. Punctuation is one character. A string is a key exactly when the next non-blank character after it is ':', and otherwise a string value. A number runs while digits, '.', '-', 'e', 'E' or '+' continue. "true" and "false" are booleans and "null" is null. Anything else is one character written in gray. |
| JsonTokens.StringEnd | NetworkWatcher/Program.cs:187-193 | The closing quote found is a quote at or after the scan start. |
| JsonTokens.StringEndEscapes | NetworkWatcher/Program.cs:189-193 | The scan moves one character at a time, except that a backslash makes it skip the character after it. So every quote it passes over comes right after a backslash that escapes it. |
| JsonTokens.EscapedBackslashCloses | NetworkWatcher/Program.cs:189-193 | A backslash skips only one character. In `"a\\"` the escaped backslash is skipped, and the quote after it closes the string. |
| JsonTokens.StringEndPlain | NetworkWatcher/Program.cs:189-193 | Without backslashes the closing quote is simply the next quote. There is none exactly when no quote follows. |
| JsonTokens.SkipWhiteSpaceSkips | NetworkWatcher/Program.cs:198-200 | The look-ahead for ':' passes over exactly a run of white space. |
| JsonTokens.NumberEndSpans | NetworkWatcher/Program.cs:218-220 | A number token covers exactly a maximal run of number characters. |
| JsonTokens.Tokenize | NetworkWatcher/Program.cs:172-251 | The writer on a whole text. If it reaches the end, the tokens concatenate to the text and are well formed. If it stops, it stops at an opening quote with no closing quote after it, and the tokens so far concatenate to the text before that quote. |
| JsonTokens.TokensLossless | NetworkWatcher/Program.cs:172-251 | The printed tokens, concatenated, are exactly the input. If an unterminated string stops the writer, they are the input up to the opening quote. |
| JsonTokens.CompleteIffEvenQuotes | NetworkWatcher/Program.cs:184-195 | For text without backslashes, the writer reaches the end exactly when the number of quotes is even. |
| JsonTokens.TokensWellFormed | NetworkWatcher/Program.cs:179-248 | Every token is non-empty. Keys and string values are quoted at both ends. A boolean is exactly "true" or "false", and a null is exactly "null". |
| JsonTokens.Example | NetworkWatcher/Program.cs:172-251 | `{"a": true}` is written as '{', the key "a", ':', a space, the boolean true and '}'. |
| ConsoleArgs.ParseArgs | NetworkWatcher/Program.cs:104-127 | A null or empty argument list means no settings. Otherwise the domain is the lower-cased value after the last `--domain` that has one. Prettify is on, and marked as specified, exactly when `-p` or `--prettify` appears anywhere. |
| ConsoleArgs.ParsedUnique | NetworkWatcher/Program.cs:104-127 | That meaning determines the parse: any two results satisfying it are equal. |
| ConsoleArgs.DomainValueAlsoFlag | NetworkWatcher/Program.cs:113-124 | The value after `--domain` is not skipped. So `--domain -p` filters on "-p" and also turns prettifying on. |
| ConsoleArgs.LastDomainWins | NetworkWatcher/Program.cs:113-118 | With two `--domain` options the last one wins. |
| ConsoleArgs.PromptedDomain | NetworkWatcher/Program.cs:36-41 | The prompted domain is never blank. A blank answer or the end of input means "all"; any other answer is used trimmed and lower-cased. |
| ConsoleArgs.Resolve | NetworkWatcher/Program.cs:25-50 | A non-blank `--domain` is used as given, and a blank one falls back on the prompt. A specified prettify flag is used as given, and otherwise the Y/n prompt decides. The resulting filter is never blank. |
| ConsoleArgs.PrettifyAnswer | NetworkWatcher/Program.cs:44-50 | The Y/n prompt means yes exactly for the end of input, a blank line, or "y" or "yes" in any case with surrounding blanks. |
| ConsoleArgs.ShouldLog | NetworkWatcher/Program.cs:129-136 | A URL is logged exactly when the filter is "all", or when the lower-cased filter occurs in the lower-cased URL. |
| ConsoleArgs.TypedDomainAgrees | NetworkWatcher/Program.cs:129-136 | For a typed domain, the console logs a URL exactly when the window's domain box with the same text would list it. The exception is the word "all" in any case: the console then logs everything, while the window looks for "all" in the URL. |

## Left out

- The proxy's lifecycle, certificate handling and system-proxy settings (`ProxyHelper`, the proxy server's start and stop), because they are I/O against the operating system and the network. The tool window's host class `NetworkWatcherToolWindow.cs` is not part of this model.
- The JSON parser and serializer (`JsonConvert.DeserializeObject` and `JsonConvert.SerializeObject` with indented formatting in the window; `JsonDocument.Parse` and `JsonSerializer.Serialize` in the console tool). They are a parameter `format` that returns `None` where the parser throws. Indentation style and the parser's grammar are not modelled.
- Threading: the proxy's event handlers run on background threads and switch to the UI thread with `SwitchToMainThreadAsync` before touching the store. They then post `ApplyFilters` with `Dispatcher.BeginInvoke` at background priority. The model treats events as strictly sequential, and applies `ApplyFilters` immediately after the store changes.
- Console and log-file output, colours as console attributes, and `DateTime.Now`. The capture time is a parameter, and `ColourOf` names the colour each token class is written in.
- The console prompts' I/O: the lines `Console.ReadLine` returns are parameters of `Resolve`.
- WPF rendering. `SetRichTextBoxText`, brushes, `ScrollToMatch` and `TextRange` are left out. A box's text is the string put into it, although `TextRange.Text` on a real RichTextBox also reports paragraph breaks. `Search.Current` names the scroll target.
- Building header text from header collections, and decoding bodies with `Encoding.UTF8.GetString`. Headers and bodies reach the model as already decoded strings, and a failed body read is the `ReadFailed` case with its message.
- Text offsets: Dafny strings are sequences of Unicode scalar values, while .NET strings count UTF-16 code units. For text outside the Basic Multilingual Plane, the model's match offsets and scroll targets count one per character, whereas .NET counts two for each such character. The same applies to the writer's one-character `Other` tokens, which .NET emits as two halves of a surrogate pair. Within the Basic Multilingual Plane the two agree.
- Text: case folding is ASCII-only where .NET folds all of Unicode. `char.IsDigit` is the ASCII digits only. The culture-sensitive `StartsWith("{")` in `TryFormatJson` is modelled as ordinal.
- Exceptions: the outer `try/catch` blocks of `OnRequest` and `OnResponse`, for a null URL or a failing event, are not modelled. In `WriteJsonToConsole`, the `Substring` call that throws on an unterminated string becomes the `Unterminated` outcome, which keeps the tokens written so far.
- Window.Refilter: WPF raises `SelectionChanged` while `filteredEntries` is cleared and refilled. In the running control that clears the detail boxes and, once the selection is restored, refills them, which resets their searches. The model keeps the boxes and their searches when the selection survives.
- Window.SelectRow: the search boxes are not refreshed when another row is selected, exactly as in the source. A search typed earlier keeps its matches until the query is edited again.
- Keys other than Enter in the search boxes, and a sender that is none of the four search boxes: the model has no event for them, because the source returns at once.
- Traffic.OnResponse: its own contract states only that lengths and identities are kept. What it changes is stated by `Traffic.OnResponseSpec`, a lemma about it.
