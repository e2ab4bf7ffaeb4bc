/**
  The console tool's start-up: its command line (`--domain <value>`,
  `-p`/`--prettify`), the two prompts it falls back on, and `ShouldLog`,
  the domain test every captured request and response goes through.
 */
module ConsoleArgs {
  import opened Wrappers
  import opened Text
  import opened FilterView

  /** What the command line says; `prettifySpecified` records whether the
      prettify prompt can be skipped. */
  datatype Args = Args(domain: Option<string>, prettify: bool, prettifySpecified: bool)

  /** Nothing on the command line. */
  const NoArgs := Args(None, false, false)

  predicate IsPrettifyFlag(a: string) {
    a == "-p" || a == "--prettify"
  }

  /** `--domain` at `k` with a value after it. */
  predicate DomainAt(args: seq<string>, k: nat) {
    k + 1 < |args| && args[k] == "--domain"
  }

  /** What parsing `args` means, independently of how the loop goes about
      it: the domain is the lower-cased value after the last `--domain` that
      has one, and both prettify flags are set exactly when `-p` or
      `--prettify` appears anywhere. */
  predicate Parsed(args: seq<string>, r: Args) {
    && (r.prettify <==> exists k :: 0 <= k < |args| && IsPrettifyFlag(args[k]))
    && r.prettifySpecified == r.prettify
    && (r.domain.None? <==> forall k :: 0 <= k < |args| ==> !DomainAt(args, k))
    && (r.domain.Some? ==> exists k :: 0 <= k < |args| && LastDomainAt(args, k) && r.domain.value == ToLower(args[k + 1]))
  }

  /** `k` is the last `--domain` with a value after it. */
  predicate LastDomainAt(args: seq<string>, k: nat) {
    DomainAt(args, k) && forall m :: k < m < |args| ==> !DomainAt(args, m)
  }

  /** `ParseArgs`. A null or empty array parses to nothing. The loop does
      not skip the value after `--domain`, so that value is looked at again
      as a possible flag. */
  method ParseArgs(args: Option<seq<string>>) returns (r: Args)
    ensures args.None? || args.value == [] ==> r == NoArgs
    ensures args.Some? ==> Parsed(args.value, r)
  {
    if args.None? || |args.value| == 0 {
      return NoArgs;
    }
    var a := args.value;
    var domain: Option<string> := None;
    var prettify, prettifySpecified := false, false;
    var i := 0;
    ghost var last: nat := 0;
    while i < |a|
      invariant 0 <= i <= |a|
      invariant prettifySpecified == prettify
      invariant prettify <==> exists k :: 0 <= k < i && IsPrettifyFlag(a[k])
      invariant domain.None? <==> forall k :: 0 <= k < i ==> !DomainAt(a, k)
      invariant domain.Some? ==>
                  && last < i && DomainAt(a, last)
                  && (forall m :: last < m < i ==> !DomainAt(a, m))
                  && domain.value == ToLower(a[last + 1])
    {
      if DomainAt(a, i) {
        domain := Some(ToLower(a[i + 1]));
        last := i;
      } else if IsPrettifyFlag(a[i]) {
        prettify := true;
        prettifySpecified := true;
      }
      i := i + 1;
    }
    assert domain.Some? ==> LastDomainAt(a, last);
    r := Args(domain, prettify, prettifySpecified);
  }

  /** The meaning of a command line is determined: two parses that both
      satisfy it agree. */
  lemma ParsedUnique(args: seq<string>, r1: Args, r2: Args)
    requires Parsed(args, r1) && Parsed(args, r2)
    ensures r1 == r2
  {
    if r1.domain.Some? {
      var k1: nat :| 0 <= k1 < |args| && LastDomainAt(args, k1) && r1.domain.value == ToLower(args[k1 + 1]);
      var k2: nat :| 0 <= k2 < |args| && LastDomainAt(args, k2) && r2.domain.value == ToLower(args[k2 + 1]);
      assert k1 == k2;
    }
  }

  /** The value after `--domain` is also read as a flag: `--domain -p`
      filters on "-p" and turns prettifying on. */
  lemma DomainValueAlsoFlag(r: Args)
    requires Parsed(["--domain", "-p"], r)
    ensures r == Args(Some("-p"), true, true)
  {
    var args := ["--domain", "-p"];
    assert IsPrettifyFlag(args[1]);
    assert DomainAt(args, 0);
    var k: nat :| 0 <= k < |args| && LastDomainAt(args, k) && r.domain.value == ToLower(args[k + 1]);
    assert k == 0;
    assert ToLower("-p") == "-p";
  }

  /** A repeated `--domain`: the last one wins. */
  lemma LastDomainWins(r: Args)
    requires Parsed(["--domain", "A", "--domain", "b"], r)
    ensures r.domain == Some("b")
  {
    var args := ["--domain", "A", "--domain", "b"];
    assert DomainAt(args, 2);
    var k: nat :| 0 <= k < |args| && LastDomainAt(args, k) && r.domain.value == ToLower(args[k + 1]);
    assert k == 2;
    assert ToLower("b") == "b";
  }

  /** The tool's settings once start-up is over. */
  datatype Settings = Settings(domainFilter: string, prettify: bool)

  /** The line `ReadLine()?.Trim()` yields; None at the end of input. */
  function TrimmedLine(line: Option<string>): Option<string> {
    if line.Some? then Some(Trim(line.value)) else None
  }

  /** The answer to the domain prompt: a blank line means every domain. */
  function PromptedDomain(line: Option<string>): (r: string)
    ensures !IsBlank(r)
    ensures IsNullOrWhiteSpace(TrimmedLine(line)) ==> r == "all"
    ensures !IsNullOrWhiteSpace(TrimmedLine(line)) ==> line.Some? && r == ToLower(Trim(line.value))
  {
    var input := TrimmedLine(line);
    if IsNullOrWhiteSpace(input) then assert "all"[0] == 'a'; "all"
    else
      TrimmedLowerNotBlank(line.value);
      ToLower(input.value)
  }

  /** The answer to the Y/n prompt. */
  predicate PromptedPrettify(line: Option<string>) {
    var response := if line.Some? then Some(ToLower(Trim(line.value))) else None;
    IsNullOrWhiteSpace(response) || response == Some("y") || response == Some("yes")
  }

  /** `Main`'s start-up. A blank `--domain` prompts for one (`domainInput`:
      the line read, None at the end of input) and a missing prettify flag
      prompts for Y/n (`prettifyInput`); a prompt that is not shown is not
      read. */
  function Resolve(parsed: Args, domainInput: Option<string>, prettifyInput: Option<string>): (r: Settings)
    ensures !IsBlank(r.domainFilter)
    ensures !IsNullOrWhiteSpace(parsed.domain) ==> r.domainFilter == parsed.domain.value
    ensures IsNullOrWhiteSpace(parsed.domain) && IsNullOrWhiteSpace(domainInput) ==> r.domainFilter == "all"
    ensures parsed.prettifySpecified ==> r.prettify == parsed.prettify
  {
    Settings(
      if !IsNullOrWhiteSpace(parsed.domain) then parsed.domain.value else PromptedDomain(domainInput),
      if parsed.prettifySpecified then parsed.prettify else PromptedPrettify(prettifyInput))
  }

  /** The Y/n prompt: an empty answer (or none) means yes, and so does "y"
      or "yes" in any case and with surrounding blanks; anything else means
      no. */
  lemma PrettifyAnswer(answer: Option<string>)
    ensures Resolve(NoArgs, Some("x"), answer).prettify
        <==> (|| answer.None?
              || IsBlank(answer.value)
              || EqualsIgnoreCase(Trim(answer.value), "y")
              || EqualsIgnoreCase(Trim(answer.value), "yes"))
  {
    if answer.Some? {
      var t := Trim(answer.value);
      BlankLowered(t);
      TrimEmptyIffBlank(answer.value);
      TrimBlankIffEmpty(answer.value);
      LowerIsIgnoreCase(t, "y");
      LowerIsIgnoreCase(t, "yes");
    }
  }

  /** Lower-casing keeps exactly the white space. */
  lemma BlankLowered(s: string)
    ensures IsBlank(ToLower(s)) <==> IsBlank(s)
  {
    if IsBlank(ToLower(s)) {
      forall i | 0 <= i < |s| ensures IsWhiteSpace(s[i]) {
        assert IsWhiteSpace(ToLower(s)[i]);
      }
    }
  }

  /** A trimmed string is blank only when it is empty. */
  lemma TrimBlankIffEmpty(s: string)
    ensures IsBlank(Trim(s)) <==> Trim(s) == []
  {
    var t := Trim(s);
    if t != [] {
      assert !IsWhiteSpace(t[|t| - 1]);
    }
  }

  /** Lower-casing equals a lower-case word exactly when the two are equal
      ignoring case. */
  lemma LowerIsIgnoreCase(t: string, w: string)
    requires ToLower(w) == w
    ensures ToLower(t) == w <==> EqualsIgnoreCase(t, w)
  {
    if EqualsIgnoreCase(t, w) {
      assert forall i :: 0 <= i < |t| ==> ToLower(t)[i] == ToLower(w)[i];
    }
  }

  /** `ShouldLog`: "all" passes everything; any other filter must occur in
      the URL, ignoring case. */
  function ShouldLog(domainFilter: string, url: string): (r: bool)
    ensures r <==> domainFilter == "all" || Contains(ToLower(url), ToLower(domainFilter))
    ensures domainFilter == "all" ==> r
  {
    ContainsLowered(url, domainFilter);
    domainFilter == "all" || ContainsIgnoreCase(url, domainFilter)
  }

  /** Lower-casing the query does not change a case-insensitive search. */
  lemma ContainsIgnoreCaseLowered(text: string, q: string)
    ensures ContainsIgnoreCase(text, ToLower(q)) <==> ContainsIgnoreCase(text, q)
  {
    ContainsLowered(text, q);
    ContainsLowered(text, ToLower(q));
    assert ToLower(ToLower(q)) == ToLower(q);
  }

  /** The console tool and the extension agree on a typed domain: the
      console logs a URL exactly when the extension's domain box with the
      same text would show it, except that the word "all" (in any case)
      makes the console log everything, while the extension looks for
      "all" in the URL. */
  lemma TypedDomainAgrees(parsed: Args, typed: string, answer: Option<string>, url: string)
    requires IsNullOrWhiteSpace(parsed.domain) && !IsBlank(typed)
    ensures var s := Resolve(parsed, Some(typed), answer);
      && s.domainFilter == ToLower(Trim(typed))
      && (ShouldLog(s.domainFilter, url)
          <==> s.domainFilter == "all" || DomainMatches(NormalizeDomain(Some(typed)), url))
  {
    TrimEmptyIffBlank(typed);
    TrimBlankIffEmpty(typed);
    DomainMatchesIgnoreCase(typed, url);
    ContainsIgnoreCaseLowered(url, Trim(typed));
  }
}
