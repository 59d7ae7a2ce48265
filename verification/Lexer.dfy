/** The preprocessor's lexer: what the tokens of a text are, and the scanning loops that find them. */
module Lexer {
  datatype Kind = End | Identifier | Number | Literal | Comment | Punctuation

  datatype Token = Token(kind: Kind, begin: nat, end: nat)

  // ---------------------------------------------------------------- characters

  predicate IsSpace(c: char) { c == ' ' || '\U{9}' <= c <= '\r' }

  predicate IsDigit(c: char) { '0' <= c <= '9' }

  predicate IsAlphanumeric(c: char) { IsDigit(c) || 'a' <= c <= 'z' || 'A' <= c <= 'Z' }

  predicate IsPart(c: char) { IsAlphanumeric(c) || c == '_' }

  predicate IsStart(c: char) { IsPart(c) && !IsDigit(c) }

  predicate IsNumberPart(c: char) { IsAlphanumeric(c) || c == '.' || c == '\'' }

  predicate NotNewline(c: char) { c != '\n' }

  predicate NotParenthesis(c: char) { c != '(' }

  const PREFIXES: seq<string> := ["u8R", "uR", "UR", "LR", "u8", "u", "U", "L", "R"]

  const PUNCTUATION: seq<string> :=
    ["->*", "<<=", ">>=", "...", "::", "->", "<=", ">=", "==", "!=", "++", "--",
     "&&", "||", "+=", "-=", "*=", "/=", "%=", "<<", ">>", "&=", "|=", "^="]

  // ---------------------------------------------------------------- tokens

  predicate At(input: string, pos: nat, text: string) {
    pos + |text| <= |input| && input[pos..pos + |text|] == text
  }

  /** The longest run of such characters from `from` on ends at `end`. */
  ghost predicate Run(input: string, from: nat, end: nat, p: char -> bool) {
    from <= end <= |input| && (forall k :: from <= k < end ==> p(input[k])) && (end == |input| || !p(input[end]))
  }

  /** The first place from `from` on where `text` begins. */
  ghost predicate First(input: string, from: nat, k: nat, text: string) {
    from <= k && At(input, k, text) && forall j :: from <= j < k ==> !At(input, j, text)
  }

  ghost predicate Nowhere(input: string, from: nat, text: string) {
    forall j :: from <= j ==> !At(input, j, text)
  }

  /** The end of a text that runs up to and including the first `close`, or to the end of the input. */
  ghost predicate EndsAfter(input: string, from: nat, end: nat, close: string) {
    if Nowhere(input, from, close) then end == |input|
    else end >= |close| && First(input, from, end - |close|, close)
  }

  /** An odd number of backslashes stands before position `k` of the literal that `quote` opens. */
  predicate Escaped(input: string, quote: nat, k: nat)
    requires k <= |input|
    decreases k
  {
    k > quote + 1 && input[k - 1] == '\\' && !Escaped(input, quote, k - 1)
  }

  predicate Closes(input: string, quote: nat, k: nat)
    requires quote < k < |input|
  {
    input[k] == input[quote] && !Escaped(input, quote, k)
  }

  /** The literal opened at `quote` ends behind the first quote that is not escaped, or at the end of the input. */
  ghost predicate QuotedEnd(input: string, quote: nat, end: nat)
    requires quote < |input|
  {
    && quote < end <= |input|
    && (forall k :: quote < k < end - 1 ==> !Closes(input, quote, k))
    && (end == |input| || (quote < end - 1 && Closes(input, quote, end - 1)))
  }

  /** A raw literal ends behind the first `)delimiter"`. */
  ghost predicate RawEnd(input: string, quote: nat, end: nat)
    requires quote < |input|
  {
    exists open :: RawFrom(input, quote, open, end)
  }

  ghost predicate RawFrom(input: string, quote: nat, open: nat, end: nat)
    requires quote < |input|
  {
    && Run(input, quote + 1, open, NotParenthesis)
    && if open == |input| then QuotedEnd(input, quote, end)
       else EndsAfter(input, open + 1, end, ")" + input[quote + 1..open] + "\"")
  }

  /** A string literal begins at `begin` and its quote is at `quote`. */
  predicate Prefixed(input: string, begin: nat, quote: nat) {
    begin <= quote < |input| && input[quote] == '"' && (quote == begin || input[begin..quote] in PREFIXES)
  }

  ghost predicate HasQuote(input: string, begin: nat) {
    exists quote :: Prefixed(input, begin, quote)
  }

  ghost predicate StringFrom(input: string, begin: nat, quote: nat, end: nat) {
    && Prefixed(input, begin, quote)
    && if begin < quote && input[quote - 1] == 'R' then RawEnd(input, quote, end) else QuotedEnd(input, quote, end)
  }

  /** The characters of a token that is not a name, a number, a literal or a comment. */
  ghost predicate PunctuationEnd(input: string, begin: nat, end: nat) {
    if exists text :: text in PUNCTUATION && At(input, begin, text)
    then exists i :: 0 <= i < |PUNCTUATION| && IsPunctuation(input, begin, i) && end == begin + |PUNCTUATION[i]|
    else end == begin + 1
  }

  /** The first of the list that is there. */
  ghost predicate IsPunctuation(input: string, begin: nat, i: nat)
    requires i < |PUNCTUATION|
  {
    At(input, begin, PUNCTUATION[i]) && forall j :: 0 <= j < i ==> !At(input, begin, PUNCTUATION[j])
  }

  /** `t` is the token that begins where it says. */
  ghost predicate IsToken(input: string, t: Token) {
    var b, e := t.begin, t.end;
    && b < |input| && !IsSpace(input[b])
    && if At(input, b, "//") then t.kind == Comment && Run(input, b + 2, e, NotNewline)
       else if At(input, b, "/*") then t.kind == Comment && EndsAfter(input, b + 2, e, "*/")
       else if HasQuote(input, b) then t.kind == Literal && exists quote :: StringFrom(input, b, quote, e)
       else if input[b] == '\'' then t.kind == Literal && QuotedEnd(input, b, e)
       else if IsStart(input[b]) then t.kind == Identifier && Run(input, b, e, IsPart)
       else if IsDigit(input[b]) then t.kind == Number && Run(input, b, e, IsNumberPart)
       else t.kind == Punctuation && PunctuationEnd(input, b, e)
  }

  ghost predicate Blank(input: string, from: nat, end: nat) {
    from <= end <= |input| && forall k :: from <= k < end ==> IsSpace(input[k])
  }

  /** Where the tokens before the `k`-th end. */
  function EndOf(ts: seq<Token>, k: nat, from: nat): nat
    requires k <= |ts|
  {
    if k == 0 then from else ts[k - 1].end
  }

  /** The first tokens from `from` on, with nothing but white space in between. */
  ghost predicate Lexed(input: string, from: nat, ts: seq<Token>) {
    forall k :: 0 <= k < |ts| ==> IsToken(input, ts[k]) && Blank(input, EndOf(ts, k, from), ts[k].begin)
  }

  /** And there are no more. */
  ghost predicate AllLexed(input: string, from: nat, ts: seq<Token>) {
    Lexed(input, from, ts) && Blank(input, EndOf(ts, |ts|, from), |input|)
  }

  // ---------------------------------------------------------------- what the tables hold

  /** White space is what `isspace` takes for it; names and numbers share letters and digits, and begin differently. */
  lemma CharactersAre(c: char)
    ensures IsSpace(c) <==> c in [' ', '\t', '\n', '\U{B}', '\U{C}', '\r']
    ensures IsStart(c) ==> !IsSpace(c) && !IsDigit(c) && c != '"' && c != '\'' && c != '/'
    ensures IsPart(c) <==> IsStart(c) || IsDigit(c)
    ensures IsNumberPart(c) <==> c == '.' || c == '\'' || (IsPart(c) && c != '_')
  {}

  /** The prefixes of literals: an encoding, an `R`, or both. */
  lemma PrefixesAre(p: string)
    ensures p in PREFIXES <==> exists e :: e in ["", "u8", "u", "U", "L"] && (p == e + "R" || (p == e && e != ""))
  {
    var es := ["", "u8", "u", "U", "L"];
    assert "" + "R" == "R" && "u8" + "R" == "u8R" && "u" + "R" == "uR" && "U" + "R" == "UR" && "L" + "R" == "LR";
    assert es[0] == "" && es[1] == "u8" && es[2] == "u" && es[3] == "U" && es[4] == "L";
    assert PREFIXES[0] == "u8R" && PREFIXES[1] == "uR" && PREFIXES[2] == "UR" && PREFIXES[3] == "LR";
    assert PREFIXES[4] == "u8" && PREFIXES[5] == "u" && PREFIXES[6] == "U" && PREFIXES[7] == "L" && PREFIXES[8] == "R";
  }

  /** Nothing shorter hides a longer entry: the first of the list that is there is the longest. */
  lemma LongestMatch(input: string, begin: nat, i: nat, k: nat)
    requires i < |PUNCTUATION| && k < |PUNCTUATION|
    requires IsPunctuation(input, begin, i) && At(input, begin, PUNCTUATION[k])
    ensures |PUNCTUATION[k]| <= |PUNCTUATION[i]|
  {}

  /** The operators of two characters: doubled, or an operator and `=`, or `->`; and the four of three. */
  lemma OperatorsAre(p: string)
    ensures p in PUNCTUATION <==>
      || (|p| == 2 && p[0] == p[1] && p[0] in ":+-&|<>=")
      || (|p| == 2 && p[1] == '=' && p[0] in "<>!+-*/%&|^")
      || p in ["->", "->*", "<<=", ">>=", "..."]
  {
    if |p| == 2 { TwoCharacters(p); }
  }

  lemma TwoCharacters(p: string)
    requires |p| == 2
    ensures p == [p[0], p[1]]
  {}

  // ---------------------------------------------------------------- one way to read a text

  lemma OneRun(input: string, from: nat, e: nat, e': nat, p: char -> bool)
    requires Run(input, from, e, p) && Run(input, from, e', p)
    ensures e == e'
  {}

  lemma OneQuote(input: string, begin: nat, q: nat, q': nat)
    requires Prefixed(input, begin, q) && Prefixed(input, begin, q')
    ensures q == q'
  {
    if q < q' { QuoteInPrefix(input, begin, q, q'); }
    if q' < q { QuoteInPrefix(input, begin, q', q); }
  }

  lemma QuoteInPrefix(input: string, begin: nat, q: nat, q': nat)
    requires begin <= q < q' < |input| && input[q] == '"'
    ensures input[begin..q'] !in PREFIXES
  {
    assert input[begin..q'][q - begin] == '"';
  }

  lemma OneQuotedEnd(input: string, quote: nat, e: nat, e': nat)
    requires quote < |input| && QuotedEnd(input, quote, e) && QuotedEnd(input, quote, e')
    ensures e == e'
  {}

  lemma OneRawEnd(input: string, quote: nat, e: nat, e': nat)
    requires quote < |input| && RawEnd(input, quote, e) && RawEnd(input, quote, e')
    ensures e == e'
  {
    var open :| RawFrom(input, quote, open, e);
    var open' :| RawFrom(input, quote, open', e');
    OneRun(input, quote + 1, open, open', NotParenthesis);
    if open == |input| { OneQuotedEnd(input, quote, e, e'); }
  }

  /** At most one token begins at a place. */
  lemma OneToken(input: string, t: Token, t': Token)
    requires IsToken(input, t) && IsToken(input, t') && t.begin == t'.begin
    ensures t == t'
  {
    hide PREFIXES;
    hide PUNCTUATION;
    hide QuotedEnd;
    hide RawEnd;
    var b := t.begin;
    if At(input, b, "//") || At(input, b, "/*") {
    } else if HasQuote(input, b) {
      var q :| StringFrom(input, b, q, t.end);
      var q' :| StringFrom(input, b, q', t'.end);
      OneQuote(input, b, q, q');
      if b < q && input[q - 1] == 'R' {
        OneRawEnd(input, q, t.end, t'.end);
      } else {
        OneQuotedEnd(input, q, t.end, t'.end);
      }
    } else if input[b] == '\'' {
      OneQuotedEnd(input, b, t.end, t'.end);
    }
  }

  /** Every token has characters of its own. */
  lemma Advances(input: string, t: Token)
    requires IsToken(input, t)
    ensures t.begin < t.end <= |input|
  {
    hide QuotedEnd;
    hide StringFrom;
    hide PunctuationEnd;
    var b := t.begin;
    if At(input, b, "//") || At(input, b, "/*") {
    } else if HasQuote(input, b) {
      var q :| StringFrom(input, b, q, t.end);
      StringAdvances(input, b, q, t.end);
    } else if input[b] == '\'' {
      QuotedAdvances(input, b, t.end);
    } else if !IsStart(input[b]) && !IsDigit(input[b]) {
      PunctuationAdvances(input, b, t.end);
    }
  }

  lemma PunctuationAdvances(input: string, begin: nat, end: nat)
    requires begin < |input| && PunctuationEnd(input, begin, end)
    ensures begin < end <= |input|
  {
    assert forall text <- PUNCTUATION :: |text| > 0;
  }

  lemma StringAdvances(input: string, begin: nat, quote: nat, end: nat)
    requires StringFrom(input, begin, quote, end)
    ensures begin < end <= |input|
  {
    hide PREFIXES;
    hide QuotedEnd;
    hide RawEnd;
    if begin < quote && input[quote - 1] == 'R' { RawAdvances(input, quote, end); }
    else { QuotedAdvances(input, quote, end); }
  }

  lemma QuotedAdvances(input: string, quote: nat, end: nat)
    requires quote < |input| && QuotedEnd(input, quote, end)
    ensures quote < end <= |input|
  {}

  lemma RawAdvances(input: string, quote: nat, end: nat)
    requires quote < |input| && RawEnd(input, quote, end)
    ensures quote < end <= |input|
  {
    var open :| RawFrom(input, quote, open, end);
    if open == |input| { QuotedAdvances(input, quote, end); }
  }

  /** Where the white space behind `at` ends. */
  lemma OneBlank(input: string, at: nat, t: Token, t': Token)
    requires Blank(input, at, t.begin) && IsToken(input, t)
    ensures !Blank(input, at, |input|)
    ensures Blank(input, at, t'.begin) && IsToken(input, t') ==> t == t'
  {
    if Blank(input, at, t'.begin) && IsToken(input, t') {
      NotBlank(input, t);
      NotBlank(input, t');
      OneToken(input, t, t');
    }
  }

  lemma NotBlank(input: string, t: Token)
    requires IsToken(input, t)
    ensures t.begin < |input| && !IsSpace(input[t.begin])
  {}

  /** A text can be read in one way only. */
  lemma {:induction false} OneLexing(input: string, from: nat, ts: seq<Token>, ts': seq<Token>, k: nat)
    requires AllLexed(input, from, ts) && AllLexed(input, from, ts') && k <= |ts|
    ensures k <= |ts'| && ts[..k] == ts'[..k]
    decreases k
  {
    hide IsToken;
    hide Blank;
    if k > 0 {
      OneLexing(input, from, ts, ts', k - 1);
      var at := EndOf(ts, k - 1, from);
      assert at == EndOf(ts', k - 1, from) by {
        if k > 1 { assert ts[k - 2] == ts[..k - 1][k - 2] == ts'[..k - 1][k - 2] == ts'[k - 2]; }
      }
      OneBlank(input, at, ts[k - 1], if k - 1 < |ts'| then ts'[k - 1] else ts[k - 1]);
      assert ts[..k] == ts[..k - 1] + [ts[k - 1]];
      assert ts'[..k] == ts'[..k - 1] + [ts'[k - 1]];
    }
  }

  lemma OnlyLexing(input: string, from: nat, ts: seq<Token>, ts': seq<Token>)
    requires AllLexed(input, from, ts) && AllLexed(input, from, ts')
    ensures ts == ts'
  {
    hide AllLexed;
    OneLexing(input, from, ts, ts', |ts|);
    OneLexing(input, from, ts', ts, |ts'|);
  }

  // ---------------------------------------------------------------- scanning

  /** Not in the middle of a word that ends in `R`: the lexer looks up to two characters back from a quote. */
  predicate Boundary(input: string, at: nat)
    requires at <= |input|
  {
    at == 0 || at == |input| || input[at - 1] != 'R' || !IsAlphanumeric(input[at])
  }

  lemma PlainString(input: string, begin: nat)
    requires begin < |input|
    ensures input[begin] == '"' ==> HasQuote(input, begin)
  {
    assert input[begin] == '"' ==> Prefixed(input, begin, begin);
  }

  lemma StringToken(input: string, begin: nat, quote: nat, end: nat)
    requires begin < |input| && StringFrom(input, begin, quote, end) && !IsSpace(input[begin])
    requires !At(input, begin, "//") && !At(input, begin, "/*")
    ensures IsToken(input, Token(Literal, begin, end)) && end <= |input| && Boundary(input, end)
  {
    hide RawEnd;
    hide QuotedEnd;
    StringAdvances(input, begin, quote, end);
    if begin < quote && input[quote - 1] == 'R' {
      AfterRaw(input, quote, end);
    } else {
      AfterQuoted(input, quote, end);
    }
  }

  lemma AfterQuoted(input: string, quote: nat, end: nat)
    requires quote < |input| && QuotedEnd(input, quote, end) && !IsAlphanumeric(input[quote])
    ensures end <= |input| && Boundary(input, end)
  {}

  lemma AfterRaw(input: string, quote: nat, end: nat)
    requires quote < |input| && RawEnd(input, quote, end) && !IsAlphanumeric(input[quote])
    ensures end <= |input| && Boundary(input, end)
  {
    var open: nat :| RawFrom(input, quote, open, end);
    if open == |input| {
      AfterQuoted(input, quote, end);
    } else if end < |input| {
      var close := ")" + input[quote + 1..open] + "\"";
      assert input[end - 1] == input[end - |close|..end][|close| - 1] == '"';
    }
  }

  lemma LastCharacter(i: nat)
    requires i < |PUNCTUATION|
    ensures var text := PUNCTUATION[i];
      |text| > 0 && text[|text| - 1] != 'R'
  {
    var text := PUNCTUATION[i];
    if i < 4 {
      assert |text| == 3 && text[2] in "*=.";
    } else {
      assert |text| == 2 && text[1] in ":>=+-&|<";
    }
  }

  lemma AfterPunctuation(input: string, begin: nat, end: nat)
    requires begin < |input| && PunctuationEnd(input, begin, end) && !IsAlphanumeric(input[begin])
    ensures end <= |input| && Boundary(input, end)
  {
    hide PUNCTUATION;
    if exists text :: text in PUNCTUATION && At(input, begin, text) {
      var i: nat :| i < |PUNCTUATION| && IsPunctuation(input, begin, i) && end == begin + |PUNCTUATION[i]|;
      var text := PUNCTUATION[i];
      LastCharacter(i);
      assert input[end - 1] == input[begin..end][|text| - 1] == text[|text| - 1] != 'R';
    }
  }

  class Scanner {
    const input: string
    var position: nat

    constructor (input: string, position: nat)
      ensures this.input == input && this.position == position
    {
      this.input, this.position := input, position;
    }

    method SkipWhile(p: char -> bool)
      requires position <= |input|
      modifies this
      ensures Run(input, old(position), position, p)
    {
      while position < |input| && p(input[position])
        invariant old(position) <= position <= |input| && forall k :: old(position) <= k < position ==> p(input[k])
      {
        position := position + 1;
      }
    }

    /** `next_token`. */
    method NextToken() returns (t: Token)
      requires position <= |input| && Boundary(input, position)
      modifies this
      ensures position <= |input| && Boundary(input, position)
      ensures Blank(input, old(position), t.begin)
      ensures if t.kind == End then t.begin == t.end == position == |input| else IsToken(input, t) && position == t.end
    {
      hide QuotedEnd;
      hide StringFrom;
      hide HasQuote;
      SkipWhile(IsSpace);
      if position >= |input| { return Token(End, |input|, |input|); }
      var begin := position;
      assert Boundary(input, begin);
      if At(input, position, "//") {
        position := position + 2;
        SkipWhile(NotNewline);
        return Token(Comment, begin, position);
      }
      if At(input, position, "/*") {
        position := position + 2;
        SkipComment();
        return Token(Comment, begin, position);
      }
      var found, quote := FindQuote();
      if found {
        var end := ScanString(quote);
        StringToken(input, begin, quote, end);
        return Token(Literal, begin, end);
      }
      if input[position] == '"' || input[position] == '\'' {
        PlainString(input, begin);
        var end := ScanQuoted(position);
        AfterQuoted(input, begin, end);
        return Token(Literal, begin, end);
      }
      t := ScanPlain();
    }

    /** Names, numbers and punctuation. */
    method ScanPlain() returns (t: Token)
      requires position < |input| && !IsSpace(input[position]) && input[position] != '\''
      requires !At(input, position, "//") && !At(input, position, "/*") && !HasQuote(input, position)
      modifies this
      ensures position <= |input| && Boundary(input, position)
      ensures t.begin == old(position) && t.kind != End && IsToken(input, t) && position == t.end
    {
      hide PunctuationEnd;
      var begin := position;
      if IsStart(input[position]) {
        position := position + 1;
        SkipWhile(IsPart);
        return Token(Identifier, begin, position);
      }
      if IsDigit(input[position]) {
        position := position + 1;
        SkipWhile(IsNumberPart);
        return Token(Number, begin, position);
      }
      SkipPunctuation();
      AfterPunctuation(input, begin, position);
      return Token(Punctuation, begin, position);
    }

    /** The literal whose quote has been found. */
    method ScanString(quote: nat) returns (end: nat)
      requires position <= |input| && Prefixed(input, position, quote) && Boundary(input, position)
      modifies this
      ensures end == position && StringFrom(input, old(position), quote, end)
    {
      RawTest(input, position, quote);
      if quote > position && (input[quote - 1] == 'R' || (quote >= 2 && input[quote - 2] == 'R')) {
        end := ScanRaw(quote);
      } else {
        end := ScanQuoted(quote);
      }
    }

    method SkipComment()
      requires position <= |input|
      modifies this
      ensures EndsAfter(input, old(position), position, "*/")
    {
      while position + 1 < |input| && !At(input, position, "*/")
        invariant old(position) <= position <= |input|
        invariant forall j :: old(position) <= j < position ==> !At(input, j, "*/")
      {
        position := position + 1;
      }
      if position + 1 < |input| { position := position + 2; } else { position := |input|; }
    }

    /** `prefixed_quote_position`. */
    method FindQuote() returns (found: bool, quote: nat)
      requires position < |input|
      ensures found <==> HasQuote(input, position)
      ensures found ==> Prefixed(input, position, quote)
    {
      if input[position] == '"' {
        assert Prefixed(input, position, position);
        return true, position;
      }
      for i := 0 to |PREFIXES|
        invariant forall j :: 0 <= j < i ==> !QuoteAfter(input, position, PREFIXES[j])
      {
        var prefix := PREFIXES[i];
        if At(input, position, prefix) && position + |prefix| < |input| && input[position + |prefix|] == '"' {
          assert Prefixed(input, position, position + |prefix|);
          return true, position + |prefix|;
        }
      }
      if HasQuote(input, position) { QuoteFound(input, position); }
      return false, 0;
    }

    /** `scan_quoted`. */
    method ScanQuoted(quote: nat) returns (end: nat)
      requires quote < |input| && input[quote] != '\\'
      modifies this
      ensures end == position && QuotedEnd(input, quote, end)
    {
      position := quote + 1;
      while position < |input|
        invariant quote < position <= |input| && (position < |input| ==> !Escaped(input, quote, position))
        invariant forall k :: quote < k < position ==> !Closes(input, quote, k)
      {
        var c := input[position];
        ghost var at := position;
        position := position + 1;
        assert Escaped(input, quote, position) <==> c == '\\';
        if c == '\\' && position < |input| {
          position := position + 1;
          assert !Escaped(input, quote, position) && !Closes(input, quote, at) && !Closes(input, quote, at + 1);
        } else if c == input[quote] {
          assert Closes(input, quote, at);
          break;
        }
      }
      end := position;
    }

    /** `scan_raw_literal`. */
    method ScanRaw(quote: nat) returns (end: nat)
      requires quote < |input| && input[quote] != '\\'
      modifies this
      ensures end == position && RawEnd(input, quote, end)
    {
      position := quote + 1;
      SkipWhile(NotParenthesis);
      var open := position;
      if open == |input| {
        end := ScanQuoted(quote);
        assert RawFrom(input, quote, open, end);
        return;
      }
      position := open + 1;
      SkipRaw(input[quote + 1..open]);
      end := position;
      assert RawFrom(input, quote, open, end);
    }

    /** The loop of `scan_raw_literal`. */
    method SkipRaw(delimiter: string)
      requires position <= |input|
      modifies this
      ensures EndsAfter(input, old(position), position, ")" + delimiter + "\"")
    {
      while position < |input|
        invariant old(position) <= position <= |input|
        invariant forall j :: old(position) <= j < position ==> !At(input, j, ")" + delimiter + "\"")
      {
        RawClose(input, position, delimiter);
        if input[position] == ')' && At(input, position + 1, delimiter) && position + |delimiter| + 1 < |input|
           && input[position + |delimiter| + 1] == '"' {
          position := position + |delimiter| + 2;
          return;
        }
        position := position + 1;
      }
    }

    method SkipPunctuation()
      requires position < |input|
      modifies this
      ensures PunctuationEnd(input, old(position), position)
    {
      for i := 0 to |PUNCTUATION|
        invariant position == old(position)
        invariant forall j :: 0 <= j < i ==> !At(input, position, PUNCTUATION[j])
      {
        if At(input, position, PUNCTUATION[i]) {
          assert IsPunctuation(input, position, i);
          position := position + |PUNCTUATION[i]|;
          return;
        }
      }
      position := position + 1;
    }
  }

  /** The character two places before the quote matters to the test only if it is in front of the token, where it is
      never an `R`. */
  lemma RawTest(input: string, begin: nat, quote: nat)
    requires Prefixed(input, begin, quote) && Boundary(input, begin)
    ensures quote > begin && quote >= 2 && input[quote - 2] == 'R' ==> input[quote - 1] == 'R'
  {
    if quote > begin {
      var prefix := input[begin..quote];
      assert prefix in PREFIXES && prefix[0] == input[begin] && IsAlphanumeric(prefix[0]);
      assert |prefix| > 1 ==> prefix[|prefix| - 2] == input[quote - 2] && prefix[|prefix| - 2] != 'R';
    }
  }

  lemma RawClose(input: string, at: nat, delimiter: string)
    requires at < |input|
    ensures At(input, at, ")" + delimiter + "\"") <==>
      && input[at] == ')' && At(input, at + 1, delimiter) && at + |delimiter| + 1 < |input|
      && input[at + |delimiter| + 1] == '"'
  {
    var close, end := ")" + delimiter + "\"", at + |delimiter| + 2;
    if end <= |input| {
      var text := input[at..end];
      assert text[1..end - at - 1] == input[at + 1..end - 1] && close[1..end - at - 1] == delimiter;
      assert text == [input[at]] + input[at + 1..end - 1] + [input[end - 1]];
    }
  }

  predicate QuoteAfter(input: string, at: nat, prefix: string) {
    At(input, at, prefix) && at + |prefix| < |input| && input[at + |prefix|] == '"'
  }

  lemma QuoteFound(input: string, at: nat)
    requires at < |input| && input[at] != '"' && HasQuote(input, at)
    ensures exists j :: 0 <= j < |PREFIXES| && QuoteAfter(input, at, PREFIXES[j])
  {
    var q: nat :| Prefixed(input, at, q);
    var j :| 0 <= j < |PREFIXES| && PREFIXES[j] == input[at..q];
    assert QuoteAfter(input, at, PREFIXES[j]);
  }
}
