/**
 Printing a replacement plan in the host library's `$$` / `${n}` syntax, and reading
 that syntax back from left to right.
 */
module Replacement {
  import opened Common

  datatype Token = Literal(text: string) | Group(number: nat)

  type Plan = seq<Token>

  // ---------- decimal numbers ----------

  function Digit(d: nat): char
    requires d < 10
  {
    '0' + d as char
  }

  predicate IsDigit(c: char) {
    '0' <= c <= '9'
  }

  function DigitValue(c: char): nat
    requires IsDigit(c)
  {
    c as int - '0' as int
  }

  function Decimal(n: nat): (s: string)
    ensures s != [] && forall i :: 0 <= i < |s| ==> IsDigit(s[i])
  {
    if n < 10 then [Digit(n)] else Decimal(n / 10) + [Digit(n % 10)]
  }

  function ParseDecimal(s: string): nat
    requires forall i :: 0 <= i < |s| ==> IsDigit(s[i])
  {
    if s == [] then 0
    else 10 * ParseDecimal(s[..|s| - 1]) + DigitValue(s[|s| - 1])
  }

  lemma {:induction false} ParseInvertsDecimal(n: nat)
    ensures ParseDecimal(Decimal(n)) == n
  {
    if n < 10 {
    } else {
      ParseInvertsDecimal(n / 10);
      assert Decimal(n)[..|Decimal(n)| - 1] == Decimal(n / 10);
    }
  }

  // ---------- printing ----------

  function EscapeChar(c: char): string {
    if c == '$' then ['$', '$'] else [c]
  }

  /** `text.Replace("$", "$$")` */
  function Escape(text: string): string {
    if text == [] then [] else EscapeChar(text[0]) + Escape(text[1..])
  }

  function GroupText(number: nat): string {
    ['$', '{'] + Decimal(number) + ['}']
  }

  function PrintToken(token: Token): string {
    match token
    case Literal(text) => Escape(text)
    case Group(number) => GroupText(number)
  }

  function Print(plan: Plan): string {
    if plan == [] then [] else PrintToken(plan[0]) + Print(plan[1..])
  }

  method ToDotNetReplacementString(plan: Plan) returns (text: string)
    ensures text == Print(plan)
  {
    hide Print, PrintToken, Escape, GroupText;
    text := [];
    PrintNothing();
    for n := 0 to |plan|
      invariant text == Print(plan[..n])
    {
      PrintOneMore(plan, n);
      match plan[n] {
        case Literal(literal) => text := text + Escape(literal);
        case Group(number) => text := text + GroupText(number);
      }
    }
    assert plan[..|plan|] == plan;
  }

  lemma PrintNothing()
    ensures Print([]) == []
  {
  }

  lemma {:induction false} PrintConcat(p: Plan, q: Plan)
    ensures Print(p + q) == Print(p) + Print(q)
  {
    if p == [] {
      assert p + q == q;
    } else {
      assert (p + q)[1..] == p[1..] + q;
      PrintConcat(p[1..], q);
    }
  }

  lemma PrintOneMore(plan: Plan, n: nat)
    requires n < |plan|
    ensures match plan[n]
            case Literal(literal) => Print(plan[..n + 1]) == Print(plan[..n]) + Escape(literal)
            case Group(number) => Print(plan[..n + 1]) == Print(plan[..n]) + GroupText(number)
  {
    assert plan[..n + 1] == plan[..n] + [plan[n]];
    PrintConcat(plan[..n], [plan[n]]);
    assert Print([plan[n]]) == PrintToken(plan[n]) + Print([]);
  }

  // ---------- reading back ----------

  function DigitRun(s: string): (n: nat)
    ensures n <= |s| && (forall i :: 0 <= i < n ==> IsDigit(s[i])) && (n < |s| ==> !IsDigit(s[n]))
  {
    if s == [] || !IsDigit(s[0]) then 0 else 1 + DigitRun(s[1..])
  }

  /** Puts one character in front, joining it to a literal that is already there. */
  function PrependChar(c: char, plan: Plan): Plan {
    if plan != [] && plan[0].Literal? then [Literal([c] + plan[0].text)] + plan[1..]
    else [Literal([c])] + plan
  }

  /**
   `$$` is a dollar sign, `${digits}` a group, any other character itself. A dollar
   sign followed by anything else is outside the syntax the printer uses.
   */
  function Read(s: string): Option<Plan>
    decreases |s|
  {
    if s == [] then Some([])
    else if s[0] != '$' then Prepend(s[0], Read(s[1..]))
    else if |s| >= 2 && s[1] == '$' then Prepend('$', Read(s[2..]))
    else if |s| >= 2 && s[1] == '{' then
      var n := DigitRun(s[2..]);
      if n == 0 || 2 + n == |s| || s[2 + n] != '}' then None
      else
        match Read(s[3 + n..])
        case None => None
        case Some(rest) => Some([Group(ParseDecimal(s[2..2 + n]))] + rest)
    else None
  }

  function Prepend(c: char, plan: Option<Plan>): Option<Plan> {
    match plan
    case None => None
    case Some(p) => Some(PrependChar(c, p))
  }

  // ---------- the plan the text stands for ----------

  function PrependText(text: string, plan: Plan): Plan {
    if text == [] then plan else PrependChar(text[0], PrependText(text[1..], plan))
  }

  /** The plan with adjacent literals joined and empty ones dropped. */
  function Normalize(plan: Plan): Plan {
    if plan == [] then []
    else
      match plan[0]
      case Literal(text) => PrependText(text, Normalize(plan[1..]))
      case Group(_) => [plan[0]] + Normalize(plan[1..])
  }

  /** No literal is empty and no two literals are adjacent. */
  predicate IsNormal(plan: Plan) {
    && (forall i :: 0 <= i < |plan| && plan[i].Literal? ==> plan[i].text != [])
    && (forall i :: 0 <= i < |plan| - 1 ==> plan[i].Group? || plan[i + 1].Group?)
  }

  lemma {:induction false} PrependTextIsNormal(text: string, plan: Plan)
    requires IsNormal(plan)
    ensures IsNormal(PrependText(text, plan))
  {
    if text == [] {
    } else {
      PrependTextIsNormal(text[1..], plan);
    }
  }

  lemma {:induction false} NormalizeIsNormal(plan: Plan)
    ensures IsNormal(Normalize(plan))
  {
    if plan == [] {
    } else {
      NormalizeIsNormal(plan[1..]);
      if plan[0].Literal? {
        PrependTextIsNormal(plan[0].text, Normalize(plan[1..]));
      }
    }
  }

  lemma {:induction false} PrependWholeText(text: string, plan: Plan)
    requires text != [] && (plan == [] || plan[0].Group?)
    ensures PrependText(text, plan) == [Literal(text)] + plan
  {
    if |text| > 1 {
      PrependWholeText(text[1..], plan);
      assert [text[0]] + text[1..] == text;
    } else {
      assert text == [text[0]];
      assert PrependText(text[1..], plan) == plan;
    }
  }

  lemma {:induction false} NormalPlansAreFixed(plan: Plan)
    requires IsNormal(plan)
    ensures Normalize(plan) == plan
  {
    if plan == [] {
    } else {
      assert plan[0].Literal? && |plan| > 1 ==> plan[1].Group?;
      assert IsNormal(plan[1..]) by {
        assert forall i :: 0 <= i < |plan[1..]| ==> plan[1..][i] == plan[i + 1];
      }
      NormalPlansAreFixed(plan[1..]);
      assert plan == [plan[0]] + plan[1..];
      if plan[0].Literal? {
        PrependWholeText(plan[0].text, plan[1..]);
      }
    }
  }

  lemma ReadChar(c: char, tail: string)
    ensures Read(EscapeChar(c) + tail) == Prepend(c, Read(tail))
  {
    var s := EscapeChar(c) + tail;
    assert s[|EscapeChar(c)|..] == tail;
  }

  lemma {:induction false} ReadEscaped(text: string, rest: string)
    requires Read(rest).Some?
    ensures Read(Escape(text) + rest) == Some(PrependText(text, Read(rest).value))
  {
    hide Read, PrependChar;
    if text == [] {
      assert Escape(text) + rest == rest;
    } else {
      var tail := Escape(text[1..]) + rest;
      assert Escape(text) + rest == EscapeChar(text[0]) + tail;
      ReadChar(text[0], tail);
      ReadEscaped(text[1..], rest);
    }
  }

  lemma {:induction false} DigitRunOf(digits: string, rest: string)
    requires forall i :: 0 <= i < |digits| ==> IsDigit(digits[i])
    requires rest == [] || !IsDigit(rest[0])
    ensures DigitRun(digits + rest) == |digits|
  {
    if digits == [] {
      assert digits + rest == rest;
    } else {
      assert (digits + rest)[1..] == digits[1..] + rest;
      DigitRunOf(digits[1..], rest);
    }
  }

  lemma ReadGroup(number: nat, rest: string)
    requires Read(rest).Some?
    ensures Read(GroupText(number) + rest) == Some([Group(number)] + Read(rest).value)
  {
    var digits, s := Decimal(number), GroupText(number) + rest;
    GroupTextParts(digits, rest);
    ParseInvertsDecimal(number);
    hide Decimal, ParseDecimal, DigitRun;
    assert s[0] == '$' && s[1] == '{';
  }

  lemma GroupTextParts(digits: string, rest: string)
    requires forall i :: 0 <= i < |digits| ==> IsDigit(digits[i])
    ensures var s := ['$', '{'] + digits + ['}'] + rest;
            && DigitRun(s[2..]) == |digits|
            && s[2 + |digits|] == '}' && s[2..2 + |digits|] == digits && s[3 + |digits|..] == rest
  {
    var s := ['$', '{'] + digits + ['}'] + rest;
    assert s[2..] == digits + (['}'] + rest);
    DigitRunOf(digits, ['}'] + rest);
  }

  /** Reading back what was printed gives the plan with its adjacent literals merged. */
  lemma {:induction false} ReadInvertsPrint(plan: Plan)
    ensures Read(Print(plan)) == Some(Normalize(plan))
  {
    if plan == [] {
    } else {
      ReadInvertsPrint(plan[1..]);
      match plan[0]
      case Literal(text) => ReadEscaped(text, Print(plan[1..]));
      case Group(number) => ReadGroup(number, Print(plan[1..]));
    }
  }

  /** Two plans print alike exactly when they are the same up to merging literals. */
  lemma PrintsAlikeIff(p: Plan, q: Plan)
    ensures Print(p) == Print(q) <==> Normalize(p) == Normalize(q)
  {
    ReadInvertsPrint(p);
    ReadInvertsPrint(q);
    PrintNormalized(p);
    PrintNormalized(q);
  }

  lemma {:induction false} PrintPrepended(text: string, plan: Plan)
    ensures Print(PrependText(text, plan)) == Escape(text) + Print(plan)
  {
    if text == [] {
      assert Escape(text) + Print(plan) == Print(plan);
    } else {
      var rest := PrependText(text[1..], plan);
      PrintPrepended(text[1..], plan);
      PrintPrependedChar(text[0], rest);
    }
  }

  lemma EscapeCons(c: char, text: string)
    ensures Escape([c] + text) == EscapeChar(c) + Escape(text)
  {
    hide EscapeChar;
    var joined := [c] + text;
    assert joined[0] == c && joined[1..] == text;
  }

  lemma PrintCons(token: Token, plan: Plan)
    ensures Print([token] + plan) == PrintToken(token) + Print(plan)
  {
    hide PrintToken;
    var longer := [token] + plan;
    assert longer[0] == token && longer[1..] == plan;
  }

  lemma PrintPrependedChar(c: char, plan: Plan)
    ensures Print(PrependChar(c, plan)) == EscapeChar(c) + Print(plan)
  {
    hide Print, Escape, EscapeChar, GroupText;
    if plan != [] && plan[0].Literal? {
      var text, rest := plan[0].text, plan[1..];
      assert plan == [Literal(text)] + rest;
      EscapeCons(c, text);
      PrintCons(Literal(text), rest);
      PrintCons(Literal([c] + text), rest);
    } else {
      EscapeCons(c, []);
      EscapeNothing();
      assert [c] + [] == [c];
      PrintCons(Literal([c]), plan);
    }
  }

  lemma EscapeNothing()
    ensures Escape([]) == []
  {
  }

  lemma {:induction false} PrintNormalized(plan: Plan)
    ensures Print(Normalize(plan)) == Print(plan)
  {
    if plan == [] {
    } else {
      PrintNormalized(plan[1..]);
      if plan[0].Literal? {
        PrintPrepended(plan[0].text, Normalize(plan[1..]));
      }
    }
  }

  // ---------- expansion ----------

  type Captures = nat -> string

  function Expand(plan: Plan, captures: Captures): string {
    if plan == [] then []
    else (match plan[0] case Literal(text) => text case Group(n) => captures(n)) + Expand(plan[1..], captures)
  }

  lemma {:induction false} ExpandPrepended(text: string, plan: Plan, captures: Captures)
    ensures Expand(PrependText(text, plan), captures) == text + Expand(plan, captures)
  {
    hide Expand, PrependChar;
    if text == [] {
      assert text + Expand(plan, captures) == Expand(plan, captures);
    } else {
      var rest := PrependText(text[1..], plan);
      ExpandPrepended(text[1..], plan, captures);
      ExpandPrependedChar(text[0], rest, captures);
      assert text == [text[0]] + text[1..];
    }
  }

  lemma ExpandPrependedChar(c: char, plan: Plan, captures: Captures)
    ensures Expand(PrependChar(c, plan), captures) == [c] + Expand(plan, captures)
  {
    if plan != [] && plan[0].Literal? {
      var joined := PrependChar(c, plan);
      assert joined[1..] == plan[1..];
    } else {
      assert PrependChar(c, plan)[1..] == plan;
    }
  }

  lemma {:induction false} NormalizeKeepsExpansion(plan: Plan, captures: Captures)
    ensures Expand(Normalize(plan), captures) == Expand(plan, captures)
  {
    if plan == [] {
    } else {
      NormalizeKeepsExpansion(plan[1..], captures);
      if plan[0].Literal? {
        ExpandPrepended(plan[0].text, Normalize(plan[1..]), captures);
      }
    }
  }

  /** The printed text, read as replacement syntax, expands as the plan for every capture assignment. */
  lemma PrintedTextExpandsAlike(plan: Plan, captures: Captures)
    ensures Read(Print(plan)).Some? && Expand(Read(Print(plan)).value, captures) == Expand(plan, captures)
  {
    ReadInvertsPrint(plan);
    NormalizeKeepsExpansion(plan, captures);
  }
}
