/** The `@for` directive of the preprocessor: finding its body, and copying it once for each value of the loop
    variable. */
module Unroller {
  import opened Lexer

  const S64_MAX: int := 0x7FFF_FFFF_FFFF_FFFF
  const S64_MIN: int := -0x8000_0000_0000_0000

  /** `std::to_string`. */
  function Decimal(v: int): string {
    if v < 0 then "-" + Digits(-v) else Digits(v)
  }

  function Digits(n: nat): string {
    (if n < 10 then "" else Digits(n / 10)) + ["0123456789"[n % 10]]
  }

  function DigitValue(c: char): nat
    requires '0' <= c <= '9'
  {
    c as nat - '0' as nat
  }

  predicate AllDigits(s: string) { forall k :: 0 <= k < |s| ==> '0' <= s[k] <= '9' }

  /** The number that a string of digits denotes. */
  function Denoted(s: string): nat
    requires AllDigits(s)
  {
    if s == "" then 0 else 10 * Denoted(s[..|s| - 1]) + DigitValue(s[|s| - 1])
  }

  /** The digits denote the number, without leading zeros. */
  lemma {:induction false} DigitsDenote(n: nat)
    ensures Digits(n) != "" && AllDigits(Digits(n)) && Denoted(Digits(n)) == n
    ensures n >= 10 ==> Digits(n)[0] != '0'
    decreases n
  {
    var last := ["0123456789"[n % 10]];
    LastDigit(n % 10);
    if n >= 10 {
      DigitsDenote(n / 10);
      LeadingDigit(n / 10);
      assert Digits(n) == Digits(n / 10) + last;
      assert Digits(n)[..|Digits(n)| - 1] == Digits(n / 10);
    } else {
      assert Digits(n) == last && last[..0] == "";
    }
  }

  lemma LastDigit(d: nat)
    requires d < 10
    ensures '0' <= "0123456789"[d] <= '9' && DigitValue("0123456789"[d]) == d
  {}

  lemma {:induction false} LeadingDigit(n: nat)
    requires n > 0
    ensures Digits(n) != "" && Digits(n)[0] != '0'
    decreases n
  {
    LastDigit(n % 10);
    if n >= 10 { LeadingDigit(n / 10); }
  }

  // ---------------------------------------------------------------- replacing the variable

  ghost predicate InOrder(input: string, from: nat, ts: seq<Token>) {
    from <= |input| && forall k :: 0 <= k < |ts| ==> EndOf(ts, k, from) <= ts[k].begin <= ts[k].end <= |input|
  }

  predicate Names(input: string, t: Token, variable: string)
    requires t.begin <= t.end <= |input|
  {
    t.kind == Identifier && input[t.begin..t.end] == variable
  }

  /** The text up to the last token, with the variable replaced. */
  ghost function Rendered(input: string, from: nat, ts: seq<Token>, variable: string, value: string): string
    requires InOrder(input, from, ts)
  {
    if ts == [] then ""
    else
      var k := |ts| - 1;
      var t := ts[k];
      Rendered(input, from, ts[..k], variable, value) + input[EndOf(ts, k, from)..t.begin]
      + if Names(input, t, variable) then value else input[t.begin..t.end]
  }

  ghost function Replaced(input: string, ts: seq<Token>, variable: string, value: string): string
    requires InOrder(input, 0, ts)
  {
    Rendered(input, 0, ts, variable, value) + input[EndOf(ts, |ts|, 0)..]
  }

  lemma Joined(input: string, a: nat, b: nat, c: nat, d: nat)
    requires a <= b <= c <= d <= |input|
    ensures input[a..b] + input[b..c] + input[c..d] == input[a..d]
  {}

  /** One token more. */
  lemma Prefix(input: string, from: nat, ts: seq<Token>, t: Token)
    ensures InOrder(input, from, ts + [t]) <==>
      InOrder(input, from, ts) && EndOf(ts, |ts|, from) <= t.begin <= t.end <= |input|
    ensures EndOf(ts + [t], |ts|, from) == EndOf(ts, |ts|, from)
    ensures EndOf(ts + [t], |ts| + 1, from) == t.end
  {
    var more := ts + [t];
    assert forall k :: 0 <= k < |ts| ==> more[k] == ts[k] && EndOf(more, k, from) == EndOf(ts, k, from);
    assert more[|ts|] == t;
    if InOrder(input, from, more) {
      assert forall k :: 0 <= k < |ts| ==> EndOf(more, k, from) <= more[k].begin <= more[k].end <= |input|;
    }
  }

  lemma RenderedNext(input: string, from: nat, ts: seq<Token>, t: Token, variable: string, value: string)
    requires InOrder(input, from, ts) && EndOf(ts, |ts|, from) <= t.begin <= t.end <= |input|
    ensures InOrder(input, from, ts + [t])
    ensures Rendered(input, from, ts + [t], variable, value)
      == Rendered(input, from, ts, variable, value) + input[EndOf(ts, |ts|, from)..t.begin]
         + if Names(input, t, variable) then value else input[t.begin..t.end]
  {
    Prefix(input, from, ts, t);
    assert (ts + [t])[..|ts|] == ts;
  }

  lemma LexedNext(input: string, from: nat, ts: seq<Token>, t: Token)
    requires Lexed(input, from, ts) && IsToken(input, t) && Blank(input, EndOf(ts, |ts|, from), t.begin)
    ensures Lexed(input, from, ts + [t])
  {
    hide IsToken;
    var more := ts + [t];
    forall k | 0 <= k < |more|
      ensures IsToken(input, more[k]) && Blank(input, EndOf(more, k, from), more[k].begin)
    {
      assert EndOf(more, k, from) == EndOf(ts, k, from);
      if k < |ts| { assert more[k] == ts[k]; }
    }
  }

  /** White space and tokens make up the whole text: a variable that does not occur leaves it as it is. */
  lemma {:induction false} Lossless(input: string, from: nat, ts: seq<Token>, variable: string, value: string)
    requires InOrder(input, from, ts) && EndOf(ts, |ts|, from) <= |input|
    requires forall k :: 0 <= k < |ts| ==> !Names(input, ts[k], variable)
    ensures from <= EndOf(ts, |ts|, from)
    ensures Rendered(input, from, ts, variable, value) == input[from..EndOf(ts, |ts|, from)]
    decreases |ts|
  {
    hide Rendered;
    if ts == [] {
      NoTokens(input, from, variable, value);
    } else {
      var k := |ts| - 1;
      var before, e, t := ts[..k], EndOf(ts, k, from), ts[k];
      assert ts == before + [t];
      Prefix(input, from, before, t);
      NamesBefore(input, from, before, t, variable);
      Lossless(input, from, before, variable, value);
      RenderedNext(input, from, before, t, variable, value);
      Joined(input, from, e, t.begin, t.end);
    }
  }

  lemma NamesBefore(input: string, from: nat, ts: seq<Token>, t: Token, variable: string)
    requires InOrder(input, from, ts + [t]) && InOrder(input, from, ts)
    requires forall k :: 0 <= k <= |ts| ==> !Names(input, (ts + [t])[k], variable)
    ensures forall k :: 0 <= k < |ts| ==> !Names(input, ts[k], variable)
    ensures t.begin <= t.end <= |input| && !Names(input, t, variable)
  {
    assert (ts + [t])[|ts|] == t;
    assert forall k :: 0 <= k < |ts| ==> (ts + [t])[k] == ts[k];
  }

  lemma NoTokens(input: string, from: nat, variable: string, value: string)
    requires from <= |input|
    ensures Lexed(input, from, []) && InOrder(input, from, []) && Rendered(input, from, [], variable, value) == ""
  {}

  /** `replace_for_variable`. */
  method ReplaceForVariable(body: string, variable: string, value: string)
    returns (result: string, ghost ts: seq<Token>)
    ensures AllLexed(body, 0, ts) && InOrder(body, 0, ts) && result == Replaced(body, ts, variable, value)
  {
    hide IsToken;
    hide Lexed;
    hide InOrder;
    hide Rendered;
    NoTokens(body, 0, variable, value);
    var scanner := new Scanner(body, 0);
    var copied := 0;
    result, ts := "", [];
    while true
      invariant scanner.position <= |body| && Boundary(body, scanner.position) && scanner.input == body
      invariant copied == scanner.position == EndOf(ts, |ts|, 0)
      invariant Lexed(body, 0, ts) && InOrder(body, 0, ts) && result == Rendered(body, 0, ts, variable, value)
      decreases |body| - copied
    {
      var t := scanner.NextToken();
      if t.kind == End { break; }
      Advances(body, t);
      result := result + body[copied..t.begin];
      if t.kind == Identifier && body[t.begin..t.end] == variable {
        result := result + value;
      } else {
        result := result + body[t.begin..t.end];
      }
      RenderedNext(body, 0, ts, t, variable, value);
      LexedNext(body, 0, ts, t);
      copied, ts := t.end, ts + [t];
    }
    result := result + body[copied..];
  }

  // ---------------------------------------------------------------- balanced ranges

  predicate IsCharacter(input: string, t: Token, c: char) {
    t.begin < |input| && t.end == t.begin + 1 && input[t.begin] == c
  }

  /** How many of the opening tokens are still open. */
  function Nesting(input: string, ts: seq<Token>, open: char, close: char): int {
    if ts == [] then 0
    else
      var k := |ts| - 1;
      Nesting(input, ts[..k], open, close)
      + (if IsCharacter(input, ts[k], open) then 1 else if IsCharacter(input, ts[k], close) then -1 else 0)
  }

  /** None of the tokens closes more than was opened before it. */
  ghost predicate StaysOpen(input: string, ts: seq<Token>, open: char, close: char) {
    forall k :: 0 <= k <= |ts| ==> Nesting(input, ts[..k], open, close) >= 0
  }

  /** `scan_balanced`: finds the token that closes what was opened in front of `start`. */
  method ScanBalanced(source: string, start: nat, open: char, close: char)
    returns (complete: bool, at: nat, ghost ts: seq<Token>)
    requires start <= |source| && Boundary(source, start) && open != close
    ensures Lexed(source, start, ts) && StaysOpen(source, ts, open, close)
    ensures if complete then exists t :: ClosedBy(source, start, ts, t, close) && Nesting(source, ts, open, close) == 0
                                         && at == t.begin
      else AllLexed(source, start, ts) && at == |source|
  {
    hide IsToken;
    var scanner := new Scanner(source, start);
    var depth := 1;
    ts := [];
    while true
      invariant scanner.position <= |source| && Boundary(source, scanner.position) && scanner.input == source
      invariant scanner.position == EndOf(ts, |ts|, start) && Lexed(source, start, ts)
      invariant depth == 1 + Nesting(source, ts, open, close) && StaysOpen(source, ts, open, close)
      decreases |source| - scanner.position
    {
      var t := scanner.NextToken();
      if t.kind == End { return false, |source|, ts; }
      Advances(source, t);
      assert (ts + [t])[..|ts|] == ts;
      NestingNext(source, ts, t, open, close);
      if t.end == t.begin + 1 && source[t.begin] == open {
        depth := depth + 1;
      } else if t.end == t.begin + 1 && source[t.begin] == close {
        depth := depth - 1;
        if depth == 0 {
          assert ClosedBy(source, start, ts, t, close);
          return true, t.begin, ts;
        }
      }
      ts := ts + [t];
    }
  }

  ghost predicate ClosedBy(source: string, start: nat, ts: seq<Token>, t: Token, close: char) {
    Lexed(source, start, ts + [t]) && IsCharacter(source, t, close)
  }

  lemma NestingNext(source: string, ts: seq<Token>, t: Token, open: char, close: char)
    requires StaysOpen(source, ts, open, close)
    ensures Nesting(source, ts + [t], open, close) == Nesting(source, ts, open, close)
      + (if IsCharacter(source, t, open) then 1 else if IsCharacter(source, t, close) then -1 else 0)
    ensures Nesting(source, ts + [t], open, close) >= 0 ==> StaysOpen(source, ts + [t], open, close)
  {
    assert (ts + [t])[..|ts|] == ts && (ts + [t])[..|ts| + 1] == ts + [t];
    assert forall k :: 0 <= k <= |ts| ==> (ts + [t])[..k] == ts[..k];
  }

  // ---------------------------------------------------------------- the loop

  datatype Comparator = Less | AtMost | Greater | AtLeast

  predicate Holds(cmp: Comparator, value: int, limit: int) {
    match cmp
    case Less => value < limit
    case AtMost => value <= limit
    case Greater => value > limit
    case AtLeast => value >= limit
  }

  /** The step that the increment of the directive must have. */
  function Step(cmp: Comparator): int {
    if cmp.Less? || cmp.AtMost? then 1 else -1
  }

  function Count(cmp: Comparator, start: int, limit: int): nat {
    var distance := Step(cmp) * (limit - start) + if cmp.AtMost? || cmp.AtLeast? then 1 else 0;
    if distance < 0 then 0 else distance
  }

  /** The loop variable after `n` turns. */
  function ValueAt(cmp: Comparator, start: int, n: nat): int { start + Step(cmp) * n }

  function Values(cmp: Comparator, start: int, limit: int): (vs: seq<int>)
    ensures |vs| == Count(cmp, start, limit)
  {
    seq(Count(cmp, start, limit), k requires k >= 0 => ValueAt(cmp, start, k))
  }

  /** The loop values are the numbers from `start` on, in the direction of the step, that meet the condition. */
  lemma ValuesAre(cmp: Comparator, start: int, limit: int, v: int)
    ensures v in Values(cmp, start, limit) <==>
      match cmp
      case Less => start <= v < limit
      case AtMost => start <= v <= limit
      case Greater => limit < v <= start
      case AtLeast => limit <= v <= start
    ensures |Values(cmp, start, limit)| > 0 ==> Values(cmp, start, limit)[0] == start
    ensures forall k :: 0 < k < |Values(cmp, start, limit)| ==>
      Values(cmp, start, limit)[k] - Values(cmp, start, limit)[k - 1] == if cmp.Less? || cmp.AtMost? then 1 else -1
  {
    var k := Step(cmp) * (v - start);
    if 0 <= k < Count(cmp, start, limit) { assert Values(cmp, start, limit)[k] == v; }
  }

  predicate InS64(v: int) { S64_MIN <= v <= S64_MAX }

  /** The 64-bit loop variable can take the value behind the last one exactly if the condition excludes some value in
      the direction of the step. Otherwise the loop has no end. */
  lemma LoopEndsIff(cmp: Comparator, start: int, limit: int)
    requires InS64(start) && InS64(limit)
    ensures InS64(ValueAt(cmp, start, Count(cmp, start, limit)))
      <==> !(cmp.AtMost? && limit == S64_MAX) && !(cmp.AtLeast? && limit == S64_MIN)
  {}

  /** One copy of the body. */
  ghost function Copy(body: string, ts: seq<Token>, variable: string, v: int, line: nat, indent: string): string
    requires InOrder(body, 0, ts)
  {
    var expanded := Replaced(body, ts, variable, Decimal(v));
    "#line " + Decimal(line) + "\n" + indent + "{" + expanded
    + (if expanded != "" && expanded[|expanded| - 1] == '\n' then indent else "") + "}\n"
  }

  ghost function Copies(body: string, ts: seq<Token>, variable: string, vs: seq<int>, line: nat, indent: string): string
    requires InOrder(body, 0, ts)
  {
    if vs == [] then ""
    else
      Copies(body, ts, variable, vs[..|vs| - 1], line, indent)
      + Copy(body, ts, variable, vs[|vs| - 1], line, indent)
  }

  /** `output` is what the loop has written for these values. */
  ghost predicate Unrolled(body: string, variable: string, vs: seq<int>, line: nat, indent: string, output: string) {
    && (vs == [] ==> output == "")
    && forall ts :: AllLexed(body, 0, ts) && InOrder(body, 0, ts) ==>
         output == Copies(body, ts, variable, vs, line, indent)
  }

  /** One turn of the loop. */
  method AddCopy(output: string, body: string, variable: string, value: int, line: nat, indent: string)
    returns (result: string, ghost ts: seq<Token>)
    ensures AllLexed(body, 0, ts) && InOrder(body, 0, ts)
    ensures result == output + Copy(body, ts, variable, value, line, indent)
  {
    hide AllLexed;
    hide InOrder;
    hide Replaced;
    hide Decimal;
    var expanded;
    expanded, ts := ReplaceForVariable(body, variable, Decimal(value));
    var copy := "#line " + Decimal(line) + "\n";
    copy := copy + indent + "{";
    copy := copy + expanded;
    if expanded != "" && expanded[|expanded| - 1] == '\n' { copy := copy + indent; }
    copy := copy + "}\n";
    assert copy == Copy(body, ts, variable, value, line, indent);
    result := output + copy;
  }

  /** The unrolling loop of `for_state`, for a directive that passes its assertions. */
  method Unroll(body: string, variable: string, cmp: Comparator, start: int, limit: int, line: nat, afterLine: nat,
                indent: string)
    returns (output: string, ghost copies: string)
    requires InS64(start) && InS64(limit)
    requires !(cmp.AtMost? && limit == S64_MAX) && !(cmp.AtLeast? && limit == S64_MIN)
    ensures Unrolled(body, variable, Values(cmp, start, limit), line, indent, copies)
    ensures output == copies + "#line " + Decimal(afterLine) + "\n"
  {
    hide Values;
    hide Step;
    hide Count;
    hide ValueAt;
    hide Holds;
    hide Unrolled;
    hide AllLexed;
    hide InOrder;
    hide Copy;
    output := "";
    var value := start;
    AtStart(cmp, start);
    ghost var vs, n := Values(cmp, start, limit), 0;
    NoCopies(body, variable, line, indent);
    Turn(cmp, start, limit, n);
    while Holds(cmp, value, limit)
      invariant n <= |vs| && value == ValueAt(cmp, start, n) && (Holds(cmp, value, limit) <==> n < |vs|)
      invariant Unrolled(body, variable, vs[..n], line, indent, output)
      decreases |vs| - n
    {
      ghost var before := output;
      ghost var ts;
      output, ts := AddCopy(output, body, variable, value, line, indent);
      OneMoreCopy(body, ts, variable, vs[..n], value, line, indent, before, output);
      Turn(cmp, start, limit, n);
      Turn(cmp, start, limit, n + 1);
      assert vs[..n + 1] == vs[..n] + [value];
      assert InS64(value + Step(cmp));
      value := value + Step(cmp);
      n := n + 1;
    }
    assert vs[..n] == vs;
    copies := output;
    output := output + "#line " + Decimal(afterLine) + "\n";
  }

  lemma AtStart(cmp: Comparator, start: int)
    ensures ValueAt(cmp, start, 0) == start
  {}

  lemma NoCopies(body: string, variable: string, line: nat, indent: string)
    ensures Unrolled(body, variable, [], line, indent, "")
  {}

  /** The `n`-th turn of the loop. */
  lemma Turn(cmp: Comparator, start: int, limit: int, n: nat)
    requires InS64(start) && InS64(limit) && n <= Count(cmp, start, limit)
    requires !(cmp.AtMost? && limit == S64_MAX) && !(cmp.AtLeast? && limit == S64_MIN)
    ensures Holds(cmp, ValueAt(cmp, start, n), limit) <==> n < Count(cmp, start, limit)
    ensures n < Count(cmp, start, limit) ==>
      && Values(cmp, start, limit)[n] == ValueAt(cmp, start, n)
      && ValueAt(cmp, start, n + 1) == ValueAt(cmp, start, n) + Step(cmp) && InS64(ValueAt(cmp, start, n + 1))
  {}

  lemma OneMoreCopy(body: string, ts: seq<Token>, variable: string, vs: seq<int>, v: int, line: nat, indent: string,
                    before: string, output: string)
    requires AllLexed(body, 0, ts) && InOrder(body, 0, ts) && Unrolled(body, variable, vs, line, indent, before)
    requires output == before + Copy(body, ts, variable, v, line, indent)
    ensures Unrolled(body, variable, vs + [v], line, indent, output)
  {
    hide AllLexed;
    forall ts' | AllLexed(body, 0, ts') && InOrder(body, 0, ts')
      ensures output == Copies(body, ts', variable, vs + [v], line, indent)
    {
      OnlyLexing(body, 0, ts, ts');
      assert (vs + [v])[..|vs|] == vs;
    }
  }
}
