/**
  The console tool's `WriteJsonToConsole`, as a tokenizer: one pass over
  the text that cuts it into coloured pieces. Each piece is a token with its
  class; the console colour is a function of the class. It is a loose
  highlighter, not a JSON lexer: anything it does not recognise is written
  one character at a time.
 */
module JsonTokens {
  import opened Wrappers
  import opened Text

  datatype Class = Punctuation | Key | StringValue | Number | Boolean | Null | Other

  datatype Token = Token(cls: Class, text: string)

  /** The console colour each class is written in. */
  datatype Colour = White | Cyan | Green | Yellow | Magenta | DarkGray | Gray

  function ColourOf(c: Class): Colour {
    match c
    case Punctuation => White
    case Key => Cyan
    case StringValue => Green
    case Number => Yellow
    case Boolean => Magenta
    case Null => DarkGray
    case Other => Gray
  }

  /** The text written for a list of tokens. */
  function Joined(ts: seq<Token>): string {
    if |ts| == 0 then [] else ts[0].text + Joined(ts[1..])
  }

  lemma JoinedCons(t: Token, ts: seq<Token>)
    ensures Joined([t] + ts) == t.text + Joined(ts)
  {
    assert ([t] + ts)[1..] == ts;
  }

  predicate IsPunctuation(c: char) {
    c == '{' || c == '}' || c == '[' || c == ']' || c == ',' || c == ':'
  }

  /** `char.IsDigit`, on the ASCII digits. */
  predicate IsDigit(c: char) {
    '0' <= c <= '9'
  }

  /** A character that opens a number. */
  predicate NumberStart(c: char) {
    IsDigit(c) || c == '-' || c == '+' || c == '.'
  }

  /** A character a number extends over. */
  predicate NumberChar(c: char) {
    IsDigit(c) || c == '.' || c == '-' || c == '+' || c == 'e' || c == 'E'
  }

  /** The closing quote of a string whose body starts at `j`: the first '"'
      reached when every backslash skips the character after it. None when
      the text ends first. */
  function StringEnd(json: string, j: nat): (r: Option<nat>)
    ensures r.Some? ==> j <= r.value < |json| && json[r.value] == '"'
    decreases |json| - j
  {
    if j >= |json| then None
    else if json[j] == '"' then Some(j)
    else if json[j] == '\\' then StringEnd(json, j + 2)
    else StringEnd(json, j + 1)
  }

  /** Every quote the string passes over is escaped: the character before
      it is a backslash. */
  lemma {:induction false} StringEndEscapes(json: string, j: nat)
    ensures StringEnd(json, j).Some? ==>
              forall k :: j <= k < StringEnd(json, j).value && json[k] == '"' ==> j < k && json[k - 1] == '\\'
    decreases |json| - j
  {
    if j < |json| && json[j] != '"' {
      if json[j] == '\\' {
        StringEndEscapes(json, j + 2);
      } else {
        StringEndEscapes(json, j + 1);
      }
    }
  }

  /** A backslash skips only the one character after it: in `"a\\"` the
      escaped backslash is skipped and the quote after it closes the string. */
  lemma EscapedBackslashCloses(json: string)
    requires json == "\"a\\\\\""
    ensures StringEnd(json, 1) == Some(4)
  {
    assert json[1] == 'a' && json[2] == '\\' && json[4] == '"';
    assert StringEnd(json, 4) == Some(4);
  }

  /** Without backslashes the string ends at the first quote, and there is
      no end exactly when no quote follows. */
  lemma {:induction false} StringEndPlain(json: string, j: nat)
    requires forall k :: j <= k < |json| ==> json[k] != '\\'
    ensures StringEnd(json, j).Some? ==>
              forall k :: j <= k < StringEnd(json, j).value ==> json[k] != '"'
    ensures StringEnd(json, j).None? <==> forall k :: j <= k < |json| ==> json[k] != '"'
    decreases |json| - j
  {
    if j < |json| && json[j] != '"' {
      StringEndPlain(json, j + 1);
    }
  }

  /** The first index at or after `k` that is not white space. */
  function SkipWhiteSpace(json: string, k: nat): (r: nat)
    requires k <= |json|
    ensures k <= r <= |json|
    ensures r < |json| ==> !IsWhiteSpace(json[r])
    decreases |json| - k
  {
    if k < |json| && IsWhiteSpace(json[k]) then SkipWhiteSpace(json, k + 1) else k
  }

  /** Everything skipped is white space. */
  lemma {:induction false} SkipWhiteSpaceSkips(json: string, k: nat)
    requires k <= |json|
    ensures forall m :: k <= m < SkipWhiteSpace(json, k) ==> IsWhiteSpace(json[m])
    decreases |json| - k
  {
    if k < |json| && IsWhiteSpace(json[k]) {
      SkipWhiteSpaceSkips(json, k + 1);
    }
  }

  /** The first character after `k` that is not white space is a colon. */
  predicate FollowedByColon(json: string, k: nat)
    requires k <= |json|
  {
    var n := SkipWhiteSpace(json, k);
    n < |json| && json[n] == ':'
  }

  /** The end of the longest run of number characters from `k`. */
  function NumberEnd(json: string, k: nat): (r: nat)
    requires k <= |json|
    ensures k <= r <= |json|
    ensures r < |json| ==> !NumberChar(json[r])
    ensures k < |json| && NumberChar(json[k]) ==> k < r
    decreases |json| - k
  {
    if k < |json| && NumberChar(json[k]) then NumberEnd(json, k + 1) else k
  }

  /** A number runs over number characters only. */
  lemma {:induction false} NumberEndSpans(json: string, k: nat)
    requires k <= |json|
    ensures forall m :: k <= m < NumberEnd(json, k) ==> NumberChar(json[m])
    decreases |json| - k
  {
    if k < |json| && NumberChar(json[k]) {
      NumberEndSpans(json, k + 1);
    }
  }

  /** The literal `lit` sits at `i`. */
  predicate HasAt(json: string, i: nat, lit: string) {
    i + |lit| <= |json| && json[i..i + |lit|] == lit
  }

  /** One round of the loop: the class of the token that starts at `i` and
      where the next round starts (the token is the text in between), or a
      string the text ends inside (where `Substring` is out of range). */
  datatype Step = Emit(cls: Class, next: nat) | Abort

  /** The branch taken on `json[i]`, in the order the source tests them. */
  function Next(json: string, i: nat): (r: Step)
    requires i < |json|
    ensures r.Emit? ==> i < r.next <= |json|
    ensures r.Abort? <==> json[i] == '"' && StringEnd(json, i + 1).None?
  {
    var c := json[i];
    if IsPunctuation(c) then Emit(Punctuation, i + 1)
    else if c == '"' then
      match StringEnd(json, i + 1)
      case None => Abort
      case Some(e) => Emit(if FollowedByColon(json, e + 1) then Key else StringValue, e + 1)
    else if NumberStart(c) then Emit(Number, NumberEnd(json, i))
    else if HasAt(json, i, "true") then Emit(Boolean, i + 4)
    else if HasAt(json, i, "false") then Emit(Boolean, i + 5)
    else if HasAt(json, i, "null") then Emit(Null, i + 4)
    else Emit(Other, i + 1)
  }

  /** How `Next` classifies: punctuation first, then strings (a key exactly
      when a colon follows), numbers (the longest run of number characters),
      the three literals, and any other single character. */
  lemma NextClassifies(json: string, i: nat)
    requires i < |json|
    ensures IsPunctuation(json[i]) ==> Next(json, i) == Emit(Punctuation, i + 1)
    ensures json[i] == '"' && StringEnd(json, i + 1).Some? ==>
              && Next(json, i).Emit?
              && Next(json, i).next == StringEnd(json, i + 1).value + 1
              && (Next(json, i).cls == Key || Next(json, i).cls == StringValue)
              && (Next(json, i).cls == Key <==> FollowedByColon(json, Next(json, i).next))
    ensures NumberStart(json[i]) ==> Next(json, i) == Emit(Number, NumberEnd(json, i))
    ensures Next(json, i).Emit? && Next(json, i).cls == Boolean ==>
              json[i..Next(json, i).next] == "true" || json[i..Next(json, i).next] == "false"
    ensures Next(json, i).Emit? && Next(json, i).cls == Null ==> json[i..Next(json, i).next] == "null"
    ensures Next(json, i).Emit? && (Next(json, i).cls == Key || Next(json, i).cls == StringValue) ==>
              json[i] == '"' && i + 1 < Next(json, i).next && json[Next(json, i).next - 1] == '"'
    ensures Next(json, i).Emit? && Next(json, i).cls == Other ==>
              Next(json, i).next == i + 1 && !IsPunctuation(json[i]) && !NumberStart(json[i])
              && !HasAt(json, i, "true") && !HasAt(json, i, "false") && !HasAt(json, i, "null")
    ensures !IsPunctuation(json[i]) && json[i] != '"' && !NumberStart(json[i]) ==>
              && (HasAt(json, i, "true") ==> Next(json, i) == Emit(Boolean, i + 4))
              && (!HasAt(json, i, "true") && HasAt(json, i, "false") ==> Next(json, i) == Emit(Boolean, i + 5))
              && (!HasAt(json, i, "true") && !HasAt(json, i, "false") && HasAt(json, i, "null") ==>
                    Next(json, i) == Emit(Null, i + 4))
              && (!HasAt(json, i, "true") && !HasAt(json, i, "false") && !HasAt(json, i, "null") ==>
                    Next(json, i) == Emit(Other, i + 1))
  {
  }

  /** What the writer produced: every token up to the end, or the tokens
      before a string the text ends inside. */
  datatype Outcome = Complete(tokens: seq<Token>) | Unterminated(emitted: seq<Token>, quoteAt: nat)

  /** The loop from offset `i`. */
  function Tokens(json: string, i: nat): Outcome
    requires i <= |json|
    decreases |json| - i
  {
    if i == |json| then Complete([])
    else
      match Next(json, i)
      case Abort => Unterminated([], i)
      case Emit(cls, n) => Prepend(Token(cls, json[i..n]), Tokens(json, n))
  }

  /** A token written before the rest of the outcome. */
  function Prepend(t: Token, o: Outcome): Outcome {
    match o
    case Complete(ts) => Complete([t] + ts)
    case Unterminated(es, at) => Unterminated([t] + es, at)
  }

  /** One round of the loop, unfolded. */
  lemma TokensStep(json: string, i: nat)
    requires i < |json|
    ensures Next(json, i).Abort? ==> Tokens(json, i) == Unterminated([], i)
    ensures Next(json, i).Emit? ==>
              var n := Next(json, i).next;
              Tokens(json, i) == Prepend(Token(Next(json, i).cls, json[i..n]), Tokens(json, n))
  {
  }

  /** The written pieces are exactly the text: all of it, or all of it up to
      the quote of a string the text ends inside. */
  lemma {:induction false} TokensLossless(json: string, i: nat)
    requires i <= |json|
    ensures var r := Tokens(json, i);
      && (r.Complete? ==> Joined(r.tokens) == json[i..])
      && (r.Unterminated? ==>
            && i <= r.quoteAt < |json| && json[r.quoteAt] == '"'
            && StringEnd(json, r.quoteAt + 1).None?
            && Joined(r.emitted) == json[i..r.quoteAt])
    decreases |json| - i
  {
    if i < |json| {
      var st := Next(json, i);
      TokensStep(json, i);
      if st.Emit? {
        TokensLossless(json, st.next);
        LosslessStep(json, i, Token(st.cls, json[i..st.next]), st.next, Tokens(json, st.next));
      }
    }
  }

  /** Writing a token that covers `json[i..n]` before the outcome from `n`
      gives the outcome from `i`. */
  lemma LosslessStep(json: string, i: nat, t: Token, n: nat, rest: Outcome)
    requires i < n <= |json| && t.text == json[i..n]
    requires rest.Complete? ==> Joined(rest.tokens) == json[n..]
    requires rest.Unterminated? ==> n <= rest.quoteAt <= |json| && Joined(rest.emitted) == json[n..rest.quoteAt]
    ensures Prepend(t, rest).Complete? ==> Joined(Prepend(t, rest).tokens) == json[i..]
    ensures Prepend(t, rest).Unterminated? ==>
              && Prepend(t, rest).quoteAt == rest.quoteAt
              && Joined(Prepend(t, rest).emitted) == json[i..rest.quoteAt]
  {
    if rest.Complete? {
      JoinedCons(t, rest.tokens);
      assert json[i..] == json[i..n] + json[n..];
    } else {
      JoinedCons(t, rest.emitted);
      assert json[i..rest.quoteAt] == json[i..n] + json[n..rest.quoteAt];
    }
  }

  /** `WriteJsonToConsole` on a whole text. */
  function Tokenize(json: string): (r: Outcome)
    ensures r.Complete? ==> Joined(r.tokens) == json && AllWellFormed(r)
    ensures r.Unterminated? ==>
              && r.quoteAt < |json| && json[r.quoteAt] == '"'
              && StringEnd(json, r.quoteAt + 1).None?
              && Joined(r.emitted) == json[..r.quoteAt]
  {
    TokensLossless(json, 0);
    TokensWellFormed(json, 0);
    assert json[0..] == json;
    Tokens(json, 0)
  }

  /** The number of double quotes in a text. */
  function Quotes(s: string): nat {
    multiset(s)['"']
  }

  /** A token other than a string holds no quote; a string token holds its
      two. */
  lemma NextQuotes(json: string, i: nat)
    requires i < |json| && Next(json, i).Emit?
    requires NoBackslash(json, i)
    ensures var n := Next(json, i).next;
      Quotes(json[i..n]) == if json[i] == '"' then 2 else 0
  {
    if json[i] == '"' {
      StringQuotes(json, i);
    } else {
      NextNoQuote(json, i);
    }
  }

  /** Without backslashes a string token holds exactly its two quotes. */
  lemma StringQuotes(json: string, i: nat)
    requires i < |json| && json[i] == '"' && Next(json, i).Emit?
    requires NoBackslash(json, i)
    ensures Quotes(json[i..Next(json, i).next]) == 2
  {
    NextStringEnd(json, i);
    var e := StringEnd(json, i + 1).value;
    StringEndPlain(json, i + 1);
    assert NoBackslash(json, i + 1);
    QuotedQuotes(json, i, e);
  }

  /** A string token runs to just past its closing quote. */
  lemma NextStringEnd(json: string, i: nat)
    requires i < |json| && json[i] == '"' && Next(json, i).Emit?
    ensures StringEnd(json, i + 1).Some? && Next(json, i).next == StringEnd(json, i + 1).value + 1
  {
  }

  /** A quote, quote-free text and a quote hold two quotes. */
  lemma QuotedQuotes(json: string, i: nat, e: nat)
    requires i < e < |json| && json[i] == '"' && json[e] == '"'
    requires forall k :: i < k < e ==> json[k] != '"'
    ensures Quotes(json[i..e + 1]) == 2
  {
    var m := json[i + 1..e];
    assert json[i..e + 1] == [json[i]] + m + [json[e]];
    assert '"' !in m;
  }

  /** A token that does not open with a quote holds none. */
  lemma NextNoQuote(json: string, i: nat)
    requires i < |json| && json[i] != '"'
    ensures Next(json, i).Emit?
    ensures '"' !in json[i..Next(json, i).next]
  {
    NextClassifies(json, i);
    var n := Next(json, i).next;
    if NumberStart(json[i]) {
      NumberEndSpans(json, i);
      assert forall k :: 0 <= k < n - i ==> NumberChar(json[i..n][k]);
    }
  }

  /** No backslash from `i` on. */
  predicate NoBackslash(json: string, i: nat) {
    forall k :: i <= k < |json| ==> json[k] != '\\'
  }

  /** Without backslashes, the writer reaches the end of the text exactly
      when the text has an even number of quotes. */
  lemma {:induction false} CompleteIffEvenQuotes(json: string, i: nat)
    requires i <= |json| && NoBackslash(json, i)
    ensures Tokens(json, i).Complete? <==> Quotes(json[i..]) % 2 == 0
    decreases |json| - i
  {
    if i < |json| {
      var st := Next(json, i);
      TokensStep(json, i);
      if st.Abort? {
        AbortOddQuotes(json, i);
      } else {
        NextQuotes(json, i);
        CompleteIffEvenQuotes(json, st.next);
        EvenStep(json, i, Token(st.cls, json[i..st.next]), st.next, Tokens(json, st.next));
      }
    }
  }

  /** A string the text ends inside leaves exactly one quote. */
  lemma AbortOddQuotes(json: string, i: nat)
    requires i < |json| && NoBackslash(json, i)
    requires json[i] == '"' && StringEnd(json, i + 1).None?
    ensures Quotes(json[i..]) == 1
  {
    StringEndPlain(json, i + 1);
    assert json[i..] == [json[i]] + json[i + 1..];
    assert '"' !in json[i + 1..];
  }

  /** Writing a token with an even number of quotes keeps the parity. */
  lemma EvenStep(json: string, i: nat, t: Token, n: nat, rest: Outcome)
    requires i < n <= |json|
    requires Quotes(json[i..n]) % 2 == 0
    requires rest.Complete? <==> Quotes(json[n..]) % 2 == 0
    ensures Prepend(t, rest).Complete? <==> Quotes(json[i..]) % 2 == 0
  {
    assert json[i..] == json[i..n] + json[n..];
  }

  /** Every token is non-empty, a string token is quoted at both ends, and
      a literal token is exactly its literal. */
  predicate WellFormedToken(t: Token) {
    && |t.text| > 0
    && (t.cls == Key || t.cls == StringValue ==> |t.text| >= 2 && t.text[0] == '"' && t.text[|t.text| - 1] == '"')
    && (t.cls == Boolean ==> t.text == "true" || t.text == "false")
    && (t.cls == Null ==> t.text == "null")
  }

  /** A complete outcome whose every token is well formed. */
  predicate AllWellFormed(o: Outcome) {
    o.Complete? ==> forall k :: 0 <= k < |o.tokens| ==> WellFormedToken(o.tokens[k])
  }

  /** The token one round writes is well formed. */
  lemma NextWellFormed(json: string, i: nat)
    requires i < |json| && Next(json, i).Emit?
    ensures WellFormedToken(Token(Next(json, i).cls, json[i..Next(json, i).next]))
  {
    NextClassifies(json, i);
  }

  lemma PrependWellFormed(t: Token, o: Outcome)
    requires WellFormedToken(t) && AllWellFormed(o)
    ensures AllWellFormed(Prepend(t, o))
  {
  }

  /** The tokens the writer produces are well formed. */
  lemma {:induction false} TokensWellFormed(json: string, i: nat)
    requires i <= |json|
    ensures AllWellFormed(Tokens(json, i))
    decreases |json| - i
  {
    if i < |json| {
      var st := Next(json, i);
      TokensStep(json, i);
      if st.Emit? {
        TokensWellFormed(json, st.next);
        NextWellFormed(json, i);
        PrependWellFormed(Token(st.cls, json[i..st.next]), Tokens(json, st.next));
      }
    }
  }

  /** A small document: `{"a": true}`. */
  const Doc := "{\"a\": true}"

  /** The document is an opening brace, a key, a colon, a space, a literal
      and a closing brace. */
  lemma Example(j: string)
    requires j == Doc
    ensures Tokenize(j) == Complete([
      Token(Punctuation, "{"), Token(Key, "\"a\""), Token(Punctuation, ":"),
      Token(Other, " "), Token(Boolean, "true"), Token(Punctuation, "}")])
  {
    ExampleTokens(j);
  }

  /** The loop over the whole document. */
  lemma ExampleTokens(j: string)
    requires j == Doc
    ensures Tokens(j, 0) == Complete([
      Token(Punctuation, "{"), Token(Key, "\"a\""), Token(Punctuation, ":"),
      Token(Other, " "), Token(Boolean, "true"), Token(Punctuation, "}")])
  {
    var tail := [Token(Other, " "), Token(Boolean, "true"), Token(Punctuation, "}")];
    ExampleTail(j);
    assert Next(j, 4) == Emit(Punctuation, 5);
    TokensStep(j, 4);
    assert j[4..5] == ":";
    ExampleKey(j);
    TokensStep(j, 1);
    assert j[1..4] == "\"a\"";
    assert Next(j, 0) == Emit(Punctuation, 1);
    TokensStep(j, 0);
    assert j[0..1] == "{";
  }

  /** The key: a string followed by a colon. */
  lemma ExampleKey(j: string)
    requires j == Doc
    ensures Next(j, 1) == Emit(Key, 4)
  {
    assert StringEnd(j, 2) == Some(3);
    assert SkipWhiteSpace(j, 4) == 4;
  }

  /** The document from the space after the colon. */
  lemma ExampleTail(j: string)
    requires j == Doc
    ensures Tokens(j, 5) == Complete([Token(Other, " "), Token(Boolean, "true"), Token(Punctuation, "}")])
  {
    ExampleLiteral(j);
    NextOther(j, 5);
    TokensStep(j, 5);
    assert j[5..6] == " ";
  }

  /** The document from the literal on. */
  lemma ExampleLiteral(j: string)
    requires j == Doc
    ensures Tokens(j, 6) == Complete([Token(Boolean, "true"), Token(Punctuation, "}")])
  {
    assert Next(j, 10) == Emit(Punctuation, 11);
    TokensStep(j, 10);
    assert j[10..11] == "}";
    assert j[6..10] == "true";
    assert Next(j, 6) == Emit(Boolean, 10);
    TokensStep(j, 6);
  }

  /** A character that opens nothing the writer recognises is a token of
      its own. */
  lemma NextOther(json: string, i: nat)
    requires i < |json|
    requires !IsPunctuation(json[i]) && json[i] != '"' && !NumberStart(json[i])
    requires json[i] != 't' && json[i] != 'f' && json[i] != 'n'
    ensures Next(json, i) == Emit(Other, i + 1)
  {
    HasAtHead(json, i, "true");
    HasAtHead(json, i, "false");
    HasAtHead(json, i, "null");
  }

  /** A literal sits only where its first character does. */
  lemma HasAtHead(json: string, i: nat, lit: string)
    requires |lit| > 0
    ensures HasAt(json, i, lit) ==> i < |json| && json[i] == lit[0]
  {
    if HasAt(json, i, lit) {
      assert json[i..i + |lit|][0] == json[i];
    }
  }
}
