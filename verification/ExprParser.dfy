/** The expression grammar: its trees, how they print, what they are worth, and a parser as functions. */
module ExprGrammar {
  import opened Options

  // ---------- Trees ----------

  /** Trees lean left, as the operators associate; each token keeps the spaces before it. */
  datatype Expr =
    | Sum(term: Term)
    | Plus(left: Expr, spaces: nat, term: Term)
    | Minus(left: Expr, spaces: nat, term: Term)
  datatype Term =
    | Product(factor: Factor)
    | Times(left: Term, spaces: nat, factor: Factor)
    | Over(left: Term, spaces: nat, factor: Factor)
  datatype Factor = Number(spaces: nat, digits: string) | Group(spaces: nat, inner: Expr, closing: nat)

  predicate IsDigit(c: char) {
    '0' <= c <= '9'
  }

  predicate Digits(s: string) {
    forall i :: 0 <= i < |s| ==> IsDigit(s[i])
  }

  predicate ExprOk(e: Expr) {
    match e
    case Sum(t) => TermOk(t)
    case Plus(l, _, t) => ExprOk(l) && TermOk(t)
    case Minus(l, _, t) => ExprOk(l) && TermOk(t)
  }

  predicate TermOk(t: Term) {
    match t
    case Product(f) => FactorOk(f)
    case Times(l, _, f) => TermOk(l) && FactorOk(f)
    case Over(l, _, f) => TermOk(l) && FactorOk(f)
  }

  predicate FactorOk(f: Factor) {
    match f
    case Number(_, digits) => digits != "" && Digits(digits)
    case Group(_, e, _) => ExprOk(e)
  }

  function Spaces(n: nat): string {
    if n == 0 then "" else " " + Spaces(n - 1)
  }

  function ShowExpr(e: Expr): string {
    match e
    case Sum(t) => ShowTerm(t)
    case Plus(l, n, t) => ShowExpr(l) + (Spaces(n) + ("+" + ShowTerm(t)))
    case Minus(l, n, t) => ShowExpr(l) + (Spaces(n) + ("-" + ShowTerm(t)))
  }

  function ShowTerm(t: Term): string {
    match t
    case Product(f) => ShowFactor(f)
    case Times(l, n, f) => ShowTerm(l) + (Spaces(n) + ("*" + ShowFactor(f)))
    case Over(l, n, f) => ShowTerm(l) + (Spaces(n) + ("/" + ShowFactor(f)))
  }

  function ShowFactor(f: Factor): string {
    match f
    case Number(n, digits) => Spaces(n) + digits
    case Group(n, e, m) => Spaces(n) + ("(" + (ShowExpr(e) + (Spaces(m) + ")")))
  }

  // ---------- Values ----------

  function Decimal(digits: string): nat
    requires Digits(digits)
  {
    if digits == "" then 0 else 10 * Decimal(digits[..|digits| - 1]) + (digits[|digits| - 1] - '0') as nat
  }

  /** Division that truncates towards zero. */
  function Quotient(a: int, b: int): int
    requires b != 0
  {
    if (a >= 0) == (b > 0) then Abs(a) / Abs(b) else -(Abs(a) / Abs(b))
  }

  function Abs(x: int): nat {
    if x < 0 then -x else x
  }

  /** None for an expression that divides by zero somewhere. */
  function ExprValue(e: Expr): Option<int>
    requires ExprOk(e)
  {
    match e
    case Sum(t) => TermValue(t)
    case Plus(l, _, t) =>
      if ExprValue(l).Some? && TermValue(t).Some? then Some(ExprValue(l).value + TermValue(t).value) else None
    case Minus(l, _, t) =>
      if ExprValue(l).Some? && TermValue(t).Some? then Some(ExprValue(l).value - TermValue(t).value) else None
  }

  function TermValue(t: Term): Option<int>
    requires TermOk(t)
  {
    match t
    case Product(f) => FactorValue(f)
    case Times(l, _, f) =>
      if TermValue(l).Some? && FactorValue(f).Some? then Some(TermValue(l).value * FactorValue(f).value) else None
    case Over(l, _, f) =>
      if TermValue(l).Some? && FactorValue(f).Some? && FactorValue(f).value != 0
      then Some(Quotient(TermValue(l).value, FactorValue(f).value)) else None
  }

  function FactorValue(f: Factor): Option<int>
    requires FactorOk(f)
  {
    match f
    case Number(_, digits) => Some(Decimal(digits))
    case Group(_, e, _) => ExprValue(e)
  }

  // ---------- The parser as functions of the input that is left ----------

  datatype Reason = DivisionByZero | ExpectedParen | UnexpectedEnd | UnexpectedCharacter | TrailingInput

  /** The value and what is left, or the reason and where it stopped. */
  datatype Parsed = Ok(value: int, rest: string) | Fail(why: Reason, rest: string)

  function Trim(s: string): (t: string)
    ensures |t| <= |s|
    ensures t == "" || t[0] != ' '
  {
    if s != "" && s[0] == ' ' then Trim(s[1..]) else s
  }

  /** The next character, and NUL at the end. */
  function Peek(s: string): char {
    if Trim(s) == "" then '\0' else Trim(s)[0]
  }

  function LeadingDigits(s: string): (n: nat)
    ensures n <= |s| && Digits(s[..n]) && (n < |s| ==> !IsDigit(s[n]))
  {
    if s != "" && IsDigit(s[0]) then
      var m := LeadingDigits(s[1..]);
      assert forall i :: 1 <= i < m + 1 ==> s[i] == s[1..][..m][i - 1];
      m + 1
    else 0
  }

  lemma DigitsCounted(s: string, k: nat)
    requires k <= LeadingDigits(s)
    ensures k < |s| && IsDigit(s[k]) <==> k < LeadingDigits(s)
  {
    var d := LeadingDigits(s);
    if k < d {
      assert s[..d][k] == s[k];
    }
  }

  function ParseExpr(s: string): (r: Parsed)
    ensures |r.rest| <= |s| && (r.Ok? ==> |r.rest| < |s|)
    decreases |s|, 4
  {
    match ParseTerm(s)
    case Ok(v, rest) => ExprLoop(v, rest)
    case Fail(_, _) => ParseTerm(s)
  }

  function ExprLoop(v: int, s: string): (r: Parsed)
    ensures |r.rest| <= |s|
    decreases |s|, 3
  {
    var t := Trim(s);
    if t == "" || (t[0] != '+' && t[0] != '-') then Ok(v, t)
    else match ParseTerm(t[1..])
      case Fail(_, _) => ParseTerm(t[1..])
      case Ok(w, rest) => ExprLoop(if t[0] == '+' then v + w else v - w, rest)
  }

  function ParseTerm(s: string): (r: Parsed)
    ensures |r.rest| <= |s| && (r.Ok? ==> |r.rest| < |s|)
    decreases |s|, 2
  {
    match ParseFactor(s)
    case Ok(v, rest) => TermLoop(v, rest)
    case Fail(_, _) => ParseFactor(s)
  }

  function TermLoop(v: int, s: string): (r: Parsed)
    ensures |r.rest| <= |s|
    decreases |s|, 1
  {
    var t := Trim(s);
    if t == "" || (t[0] != '*' && t[0] != '/') then Ok(v, t)
    else match ParseFactor(t[1..])
      case Fail(_, _) => ParseFactor(t[1..])
      case Ok(w, rest) =>
        if t[0] == '*' then TermLoop(v * w, rest)
        else if w == 0 then Fail(DivisionByZero, rest)
        else TermLoop(Quotient(v, w), rest)
  }

  function ParseFactor(s: string): (r: Parsed)
    ensures |r.rest| <= |s| && (r.Ok? ==> |r.rest| < |s|)
    decreases |s|, 0
  {
    var t := Trim(s);
    if t != "" && t[0] == '(' then
      match ParseExpr(t[1..])
      case Fail(_, _) => ParseExpr(t[1..])
      case Ok(v, rest) =>
        if Trim(rest) != "" && Trim(rest)[0] == ')' then Ok(v, Trim(rest)[1..]) else Fail(ExpectedParen, Trim(rest))
    else if t != "" && IsDigit(t[0]) then
      var n := LeadingDigits(t);
      Ok(Decimal(t[..n]), t[n..])
    else if t == "" || t[0] == '\0' then Fail(UnexpectedEnd, t)
    else Fail(UnexpectedCharacter, t)
  }

  /** Nothing, or a NUL, may follow the expression. */
  function Evaluate(s: string): Parsed {
    match ParseExpr(s)
    case Fail(_, _) => ParseExpr(s)
    case Ok(v, rest) => if Peek(rest) == '\0' then Ok(v, Trim(rest)) else Fail(TrailingInput, Trim(rest))
  }

  // ---------- What is printed parses ----------

  predicate NoDigit(r: string) {
    r == "" || !IsDigit(r[0])
  }

  lemma {:induction false} TrimSpaces(n: nat, x: string)
    ensures Trim(Spaces(n) + x) == Trim(x)
  {
    if n == 0 {
      assert Spaces(0) + x == x;
    } else {
      TrimSpaces(n - 1, x);
      assert (Spaces(n) + x)[1..] == Spaces(n - 1) + x;
    }
  }

  lemma {:induction false} TrimTwice(s: string)
    ensures Trim(Trim(s)) == Trim(s)
  {
    if s != "" && s[0] == ' ' {
      TrimTwice(s[1..]);
    }
  }

  /** A token after some spaces: trimming leads to it, and it stops a number. */
  lemma TokenAfterSpaces(n: nat, c: char, x: string)
    requires c != ' ' && !IsDigit(c)
    ensures Trim(Spaces(n) + ([c] + x)) == [c] + x && NoDigit(Spaces(n) + ([c] + x))
  {
    TrimSpaces(n, [c] + x);
  }

  lemma {:induction false} DigitsEnd(digits: string, r: string)
    requires Digits(digits) && NoDigit(r)
    ensures LeadingDigits(digits + r) == |digits|
  {
    if digits == "" {
      assert digits + r == r;
    } else {
      DigitsEnd(digits[1..], r);
      assert (digits + r)[1..] == digits[1..] + r;
    }
  }

  lemma Regroup(a: string, spaces: string, op: char, x: string, r: string)
    ensures a + (spaces + ([op] + x)) + r == a + (spaces + ([op] + (x + r)))
  {
    var y := spaces + ([op] + (x + r));
    assert (spaces + ([op] + x)) + r == y;
  }

  /** A value, or the failure to divide. */
  predicate Yields(r: Parsed, v: Option<int>, ok: Parsed) {
    if v.Some? then r == ok else r.Fail? && r.why == DivisionByZero
  }

  lemma {:induction false} FactorParses(f: Factor, r: string)
    requires FactorOk(f) && NoDigit(r)
    ensures Yields(ParseFactor(ShowFactor(f) + r), FactorValue(f), Ok(FactorValue(f).GetOr(0), r))
    decreases f, 0
  {
    var s := ShowFactor(f) + r;
    match f
    case Number(n, digits) =>
      assert s == Spaces(n) + (digits + r);
      TrimSpaces(n, digits + r);
      assert Trim(digits + r) == digits + r;
      DigitsEnd(digits, r);
    case Group(n, e, m) =>
      var after := Spaces(m) + (")" + r);
      TokenAfterSpaces(m, ')', r);
      ExprParses(e, after);
      TokenAfterSpaces(n, '(', ShowExpr(e) + after);
      assert s == Spaces(n) + ("(" + (ShowExpr(e) + after));
      assert ([')'] + r)[1..] == r;
  }

  /** One more operator and factor take the loop one turn further. */
  lemma TermTurn(v: int, n: nat, op: char, f: Factor, r: string)
    requires (op == '*' || op == '/') && FactorOk(f) && NoDigit(r)
    ensures var s := Spaces(n) + ([op] + (ShowFactor(f) + r));
      NoDigit(s) &&
      (if FactorValue(f).None? || (op == '/' && FactorValue(f).value == 0)
       then TermLoop(v, s).Fail? && TermLoop(v, s).why == DivisionByZero
       else var w := FactorValue(f).value;
         TermLoop(v, s) == TermLoop(if op == '*' then v * w else Quotient(v, w), r))
    decreases f, 1
  {
    var x := ShowFactor(f) + r;
    TokenAfterSpaces(n, op, x);
    FactorParses(f, r);
    assert ([op] + x)[1..] == x;
  }

  lemma {:induction false} TermParses(t: Term, r: string)
    requires TermOk(t) && NoDigit(r)
    ensures Yields(ParseTerm(ShowTerm(t) + r), TermValue(t), TermLoop(TermValue(t).GetOr(0), r))
    decreases t, 2
  {
    if t.Product? {
      FactorParses(t.factor, r);
    } else {
      var op := if t.Times? then '*' else '/';
      var s := Spaces(t.spaces) + ([op] + (ShowFactor(t.factor) + r));
      TermTurn(TermValue(t.left).GetOr(0), t.spaces, op, t.factor, r);
      TermParses(t.left, s);
      Regroup(ShowTerm(t.left), Spaces(t.spaces), op, ShowFactor(t.factor), r);
    }
  }

  lemma ExprTurn(v: int, n: nat, op: char, t: Term, r: string)
    requires (op == '+' || op == '-') && TermOk(t) && NoDigit(r) && Peek(r) != '*' && Peek(r) != '/'
    ensures var s := Spaces(n) + ([op] + (ShowTerm(t) + r));
      NoDigit(s) && Peek(s) == op &&
      (if TermValue(t).None? then ExprLoop(v, s).Fail? && ExprLoop(v, s).why == DivisionByZero
       else var w := TermValue(t).value;
         ExprLoop(v, s) == ExprLoop(if op == '+' then v + w else v - w, r))
    decreases t, 3
  {
    var x := ShowTerm(t) + r;
    TokenAfterSpaces(n, op, x);
    TermParses(t, r);
    TrimTwice(r);
    assert ([op] + x)[1..] == x;
  }

  lemma FirstTermParses(t: Term, r: string)
    requires TermOk(t) && NoDigit(r) && Peek(r) != '*' && Peek(r) != '/'
    ensures Yields(ParseExpr(ShowTerm(t) + r), TermValue(t), ExprLoop(TermValue(t).GetOr(0), r))
    decreases t, 3
  {
    TermParses(t, r);
    TrimTwice(r);
  }

  lemma {:induction false} ExprParses(e: Expr, r: string)
    requires ExprOk(e) && NoDigit(r) && Peek(r) != '*' && Peek(r) != '/'
    ensures Yields(ParseExpr(ShowExpr(e) + r), ExprValue(e), ExprLoop(ExprValue(e).GetOr(0), r))
    decreases e, 4
  {
    if e.Sum? {
      FirstTermParses(e.term, r);
    } else {
      var op := if e.Plus? then '+' else '-';
      var s := Spaces(e.spaces) + ([op] + (ShowTerm(e.term) + r));
      ExprTurn(ExprValue(e.left).GetOr(0), e.spaces, op, e.term, r);
      ExprParses(e.left, s);
      Regroup(ShowExpr(e.left), Spaces(e.spaces), op, ShowTerm(e.term), r);
    }
  }

  /** The end of the input, or a NUL, which ends it too. */
  predicate Ends(tail: string) {
    tail == "" || tail[0] == '\0'
  }

  /** Evaluating what an expression prints gives its value, or fails exactly when it divides by zero. */
  lemma PrintedEvaluates(e: Expr, k: nat, tail: string)
    requires ExprOk(e) && Ends(tail)
    ensures Yields(Evaluate(ShowExpr(e) + (Spaces(k) + tail)), ExprValue(e), Ok(ExprValue(e).GetOr(0), tail))
  {
    var r := Spaces(k) + tail;
    TrimSpaces(k, tail);
    TrimTwice(tail);
    ExprParses(e, r);
  }

  /** No string prints two expressions of different value. */
  lemma ValueIsUnambiguous(e: Expr, f: Expr)
    requires ExprOk(e) && ExprOk(f) && ShowExpr(e) == ShowExpr(f)
    ensures ExprValue(e) == ExprValue(f)
  {
    PrintedEvaluates(e, 0, "");
    PrintedEvaluates(f, 0, "");
  }

  // ---------- What parses was printed ----------

  lemma {:induction false} SpacesJoin(m: nat, n: nat, x: string)
    ensures Spaces(m) + (Spaces(n) + x) == Spaces(m + n) + x
  {
    if m > 0 {
      SpacesJoin(m - 1, n, x);
      assert Spaces(m) + (Spaces(n) + x) == " " + (Spaces(m - 1) + (Spaces(n) + x));
    } else {
      assert Spaces(0) + (Spaces(n) + x) == Spaces(n) + x;
    }
  }

  lemma {:induction false} TrimmedSpaces(s: string) returns (n: nat)
    ensures s == Spaces(n) + Trim(s)
  {
    n := 0;
    if s != "" && s[0] == ' ' {
      n := TrimmedSpaces(s[1..]);
      n := n + 1;
      assert s == " " + s[1..];
    } else {
      assert Spaces(0) + s == s;
    }
  }

  lemma GroupShown(s: string, n: nat, t: string, e: Expr, m: nat, after: string)
    requires s == Spaces(n) + t && t != "" && t[0] == '(' && after != "" && after[0] == ')'
    requires t[1..] == ShowExpr(e) + (Spaces(m) + after)
    ensures s == ShowFactor(Group(n, e, m)) + after[1..]
  {
    var r, inner := after[1..], ShowExpr(e) + (Spaces(m) + ")");
    assert after == ")" + r && t == "(" + t[1..];
    Associate(Spaces(m), ")", r);
    Associate(ShowExpr(e), Spaces(m) + ")", r);
    Associate("(", inner, r);
    Associate(Spaces(n), "(" + inner, r);
  }

  lemma Associate(a: string, b: string, c: string)
    ensures (a + b) + c == a + (b + c)
  {
  }

  lemma {:induction false} GroupSound(s: string, n: nat) returns (f: Factor)
    requires s == Spaces(n) + Trim(s) && Trim(s) != "" && Trim(s)[0] == '(' && ParseFactor(s).Ok?
    ensures FactorOk(f) && FactorValue(f) == Some(ParseFactor(s).value) && s == ShowFactor(f) + ParseFactor(s).rest
    decreases |s|, 0
  {
    var t := Trim(s);
    var e, j := ExprSound(t[1..]);
    var rest := ParseExpr(t[1..]).rest;
    var m := TrimmedSpaces(rest);
    SpacesJoin(j, m, Trim(rest));
    f := Group(n, e, j + m);
    GroupShown(s, n, t, e, j + m, Trim(rest));
  }

  lemma {:induction false} FactorSound(s: string) returns (f: Factor)
    requires ParseFactor(s).Ok?
    ensures FactorOk(f) && FactorValue(f) == Some(ParseFactor(s).value) && s == ShowFactor(f) + ParseFactor(s).rest
    decreases |s|, 1
  {
    var n := TrimmedSpaces(s);
    var t := Trim(s);
    if t[0] == '(' {
      f := GroupSound(s, n);
    } else {
      var d := LeadingDigits(t);
      f := Number(n, t[..d]);
      assert t == t[..d] + t[d..];
    }
  }

  lemma TermGrown(s0: string, t: Term, m: nat, x: string, f: Factor, rest: string)
    requires s0 == ShowTerm(t) + (Spaces(m) + x) && x != "" && x[1..] == ShowFactor(f) + rest
    ensures x[0] == '*' ==> s0 == ShowTerm(Times(t, m, f)) + (Spaces(0) + rest)
    ensures x[0] == '/' ==> s0 == ShowTerm(Over(t, m, f)) + (Spaces(0) + rest)
  {
    Regroup(ShowTerm(t), Spaces(m), x[0], ShowFactor(f), rest);
    assert x == [x[0]] + x[1..] && Spaces(0) + rest == rest;
  }

  /** The loop extends the term before it, printed so far with j spaces after it. */
  lemma {:induction false} TermLoopSound(s0: string, t: Term, j: nat, s: string) returns (u: Term, k: nat)
    requires TermOk(t) && TermValue(t).Some? && s0 == ShowTerm(t) + (Spaces(j) + s) &&
        TermLoop(TermValue(t).value, s).Ok?
    ensures var r := TermLoop(TermValue(t).value, s);
      TermOk(u) && TermValue(u) == Some(r.value) && s0 == ShowTerm(u) + (Spaces(k) + r.rest)
    decreases |s|, 2
  {
    var n := TrimmedSpaces(s);
    var x := Trim(s);
    SpacesJoin(j, n, x);
    if x == "" || (x[0] != '*' && x[0] != '/') {
      u, k := t, j + n;
    } else {
      var f := FactorSound(x[1..]);
      var rest := ParseFactor(x[1..]).rest;
      var more := if x[0] == '*' then Times(t, j + n, f) else Over(t, j + n, f);
      TermGrown(s0, t, j + n, x, f, rest);
      u, k := TermLoopSound(s0, more, 0, rest);
    }
  }

  lemma {:induction false} TermSound(s: string) returns (t: Term, k: nat)
    requires ParseTerm(s).Ok?
    ensures TermOk(t) && TermValue(t) == Some(ParseTerm(s).value) &&
        s == ShowTerm(t) + (Spaces(k) + ParseTerm(s).rest)
    decreases |s|, 3
  {
    var f := FactorSound(s);
    var rest := ParseFactor(s).rest;
    assert s == ShowTerm(Product(f)) + (Spaces(0) + rest);
    t, k := TermLoopSound(s, Product(f), 0, rest);
  }

  lemma ExprGrown(s0: string, e: Expr, m: nat, x: string, t: Term, rest: string)
    requires s0 == ShowExpr(e) + (Spaces(m) + x) && x != "" && x[1..] == ShowTerm(t) + rest
    ensures x[0] == '+' ==> s0 == ShowExpr(Plus(e, m, t)) + rest
    ensures x[0] == '-' ==> s0 == ShowExpr(Minus(e, m, t)) + rest
  {
    Regroup(ShowExpr(e), Spaces(m), x[0], ShowTerm(t), rest);
    assert x == [x[0]] + x[1..];
  }

  /** One more operator and term belong to the expression, and the loop goes on behind them. */
  lemma ExprMore(s0: string, e: Expr, m: nat, s: string) returns (more: Expr, i: nat, rest: string)
    requires ExprOk(e) && ExprValue(e).Some? && s0 == ShowExpr(e) + (Spaces(m) + Trim(s))
    requires Trim(s) != "" && (Trim(s)[0] == '+' || Trim(s)[0] == '-') && ParseTerm(Trim(s)[1..]).Ok?
    ensures ExprOk(more) && ExprValue(more).Some? && s0 == ShowExpr(more) + (Spaces(i) + rest) && |rest| < |s|
    ensures ExprLoop(ExprValue(e).value, s) == ExprLoop(ExprValue(more).value, rest)
    decreases |s|, 4
  {
    var x := Trim(s);
    var t;
    t, i := TermSound(x[1..]);
    rest := ParseTerm(x[1..]).rest;
    more := if x[0] == '+' then Plus(e, m, t) else Minus(e, m, t);
    ExprGrown(s0, e, m, x, t, Spaces(i) + rest);
  }

  lemma {:induction false} ExprLoopSound(s0: string, e: Expr, j: nat, s: string) returns (u: Expr, k: nat)
    requires ExprOk(e) && ExprValue(e).Some? && s0 == ShowExpr(e) + (Spaces(j) + s) &&
        ExprLoop(ExprValue(e).value, s).Ok?
    ensures var r := ExprLoop(ExprValue(e).value, s);
      ExprOk(u) && ExprValue(u) == Some(r.value) && s0 == ShowExpr(u) + (Spaces(k) + r.rest)
    decreases |s|, 5
  {
    var n := TrimmedSpaces(s);
    var x := Trim(s);
    SpacesJoin(j, n, x);
    if x == "" || (x[0] != '+' && x[0] != '-') {
      u, k := e, j + n;
    } else {
      var more, i, rest := ExprMore(s0, e, j + n, s);
      u, k := ExprLoopSound(s0, more, i, rest);
    }
  }

  lemma {:induction false} ExprSound(s: string) returns (e: Expr, k: nat)
    requires ParseExpr(s).Ok?
    ensures ExprOk(e) && ExprValue(e) == Some(ParseExpr(s).value) &&
        s == ShowExpr(e) + (Spaces(k) + ParseExpr(s).rest)
    decreases |s|, 6
  {
    var t, i := TermSound(s);
    var rest := ParseTerm(s).rest;
    e, k := ExprLoopSound(s, Sum(t), i, rest);
  }

  /** s is an expression of value v, with spaces after it, up to the end or a NUL. */
  ghost predicate Denotes(s: string, v: int) {
    exists e: Expr, k: nat, tail: string {:trigger ShowExpr(e) + (Spaces(k) + tail)} ::
      ExprOk(e) && Ends(tail) && s == ShowExpr(e) + (Spaces(k) + tail) && ExprValue(e) == Some(v)
  }

  /** Evaluation succeeds with v exactly on what the grammar says is worth v. */
  lemma EvaluateIffDenotes(s: string, v: int)
    ensures Evaluate(s).Ok? && Evaluate(s).value == v <==> Denotes(s, v)
  {
    if Denotes(s, v) {
      var e: Expr, k: nat, tail: string :|
        ExprOk(e) && Ends(tail) && s == ShowExpr(e) + (Spaces(k) + tail) && ExprValue(e) == Some(v);
      PrintedEvaluates(e, k, tail);
    }
    if Evaluate(s).Ok? && Evaluate(s).value == v {
      var e, k := ExprSound(s);
      var rest := ParseExpr(s).rest;
      var n := TrimmedSpaces(rest);
      SpacesJoin(k, n, Trim(rest));
      assert s == ShowExpr(e) + (Spaces(k + n) + Trim(rest));
    }
  }

  /** s is an expression of value v with spaces after it. */
  ghost predicate IsExpression(s: string, v: int) {
    exists e: Expr, k: nat {:trigger ShowExpr(e) + Spaces(k)} ::
      ExprOk(e) && s == ShowExpr(e) + Spaces(k) && ExprValue(e) == Some(v)
  }

  // ---------- Inputs with a NUL in them ----------

  /** The text before the first NUL, or all of it. */
  function BeforeNul(s: string): string {
    if Ends(s) then "" else [s[0]] + BeforeNul(s[1..])
  }

  predicate NoNul(s: string) {
    '\0' !in s
  }

  lemma {:induction false} BeforeNulSplits(s: string)
    ensures NoNul(BeforeNul(s)) && BeforeNul(s) <= s && Ends(s[|BeforeNul(s)|..])
    ensures BeforeNul(s) == s <==> NoNul(s)
  {
    if !Ends(s) {
      BeforeNulSplits(s[1..]);
      assert s == [s[0]] + s[1..];
      assert s[|BeforeNul(s)|..] == s[1..][|BeforeNul(s[1..])|..];
    }
  }

  lemma {:induction false} BeforeTail(a: string, tail: string)
    requires NoNul(a) && Ends(tail)
    ensures BeforeNul(a + tail) == a
  {
    if a == "" {
      assert a + tail == tail;
    } else {
      BeforeTail(a[1..], tail);
      assert (a + tail)[1..] == a[1..] + tail;
    }
  }

  lemma {:induction false} SpacesNoNul(n: nat)
    ensures NoNul(Spaces(n))
  {
    if n > 0 {
      SpacesNoNul(n - 1);
    }
  }

  lemma {:induction false} ExprNoNul(e: Expr)
    requires ExprOk(e)
    ensures NoNul(ShowExpr(e))
  {
    if e.Sum? {
      TermNoNul(e.term);
    } else {
      ExprNoNul(e.left);
      SpacesNoNul(e.spaces);
      TermNoNul(e.term);
    }
  }

  lemma {:induction false} TermNoNul(t: Term)
    requires TermOk(t)
    ensures NoNul(ShowTerm(t))
  {
    if t.Product? {
      FactorNoNul(t.factor);
    } else {
      TermNoNul(t.left);
      SpacesNoNul(t.spaces);
      FactorNoNul(t.factor);
    }
  }

  lemma {:induction false} FactorNoNul(f: Factor)
    requires FactorOk(f)
    ensures NoNul(ShowFactor(f))
  {
    SpacesNoNul(f.spaces);
    if f.Group? {
      ExprNoNul(f.inner);
      SpacesNoNul(f.closing);
    }
  }

  /** No expression has a NUL in it. */
  lemma NulIsNoExpression(s: string, v: int)
    requires IsExpression(s, v)
    ensures NoNul(s)
  {
    var e: Expr, k: nat :| ExprOk(e) && s == ShowExpr(e) + Spaces(k) && ExprValue(e) == Some(v);
    ExprNoNul(e);
    SpacesNoNul(k);
  }

  /** What evaluation accepts is an expression up to the first NUL. */
  lemma DenotesBeforeNul(s: string, v: int)
    ensures Denotes(s, v) <==> IsExpression(BeforeNul(s), v)
  {
    if Denotes(s, v) {
      var e: Expr, k: nat, tail: string :|
        ExprOk(e) && Ends(tail) && s == ShowExpr(e) + (Spaces(k) + tail) && ExprValue(e) == Some(v);
      Associate(ShowExpr(e), Spaces(k), tail);
      ExprNoNul(e);
      SpacesNoNul(k);
      BeforeTail(ShowExpr(e) + Spaces(k), tail);
    }
    if IsExpression(BeforeNul(s), v) {
      var e: Expr, k: nat :| ExprOk(e) && BeforeNul(s) == ShowExpr(e) + Spaces(k) && ExprValue(e) == Some(v);
      BeforeNulSplits(s);
      var tail := s[|BeforeNul(s)|..];
      Associate(ShowExpr(e), Spaces(k), tail);
      assert s == ShowExpr(e) + (Spaces(k) + tail);
    }
  }

  /** Without a NUL in it, the whole input is the expression and the spaces after it. */
  lemma WithoutNulAllIsExpression(s: string, v: int)
    requires NoNul(s)
    ensures Denotes(s, v) <==> IsExpression(s, v)
  {
    BeforeNulSplits(s);
    DenotesBeforeNul(s, v);
  }

  /** Evaluation agrees with the grammar on s: it succeeds with the value of s, or fails if s has none. */
  ghost predicate MeetsGrammar(s: string) {
    forall v {:trigger IsExpression(s, v)} :: Evaluate(s).Ok? && Evaluate(s).value == v <==> IsExpression(s, v)
  }

  /** It does exactly if s holds no NUL, or what stands before the first NUL is refused as well. */
  lemma MeetsGrammarIff(s: string)
    ensures MeetsGrammar(s) <==> NoNul(s) || !Evaluate(BeforeNul(s)).Ok?
  {
    var b := BeforeNul(s);
    BeforeNulSplits(s);
    forall v
      ensures Evaluate(s).Ok? && Evaluate(s).value == v <==> IsExpression(b, v)
      ensures Evaluate(b).Ok? && Evaluate(b).value == v <==> IsExpression(b, v)
      ensures IsExpression(s, v) ==> NoNul(s)
    {
      EvaluateIffDenotes(s, v);
      DenotesBeforeNul(s, v);
      EvaluateIffDenotes(b, v);
      WithoutNulAllIsExpression(b, v);
      if IsExpression(s, v) {
        NulIsNoExpression(s, v);
      }
    }
    if Evaluate(b).Ok? {
      var v := Evaluate(b).value;
      assert IsExpression(b, v) && Evaluate(s).Ok?;
      assert IsExpression(s, v) ==> NoNul(s);
    }
  }

  /** The remainder is smaller than the divisor and has the sign of the dividend. */
  lemma QuotientTruncates(a: int, b: int)
    requires b != 0
    ensures Abs(a - b * Quotient(a, b)) < Abs(b)
    ensures if a >= 0 then a - b * Quotient(a, b) >= 0 else a - b * Quotient(a, b) <= 0
  {
  }

  /** Whatever follows a NUL, the value of what stands before it comes back, for an input that is no expression. */
  lemma NulEndsInput(e: Expr, k: nat, junk: string)
    requires ExprOk(e) && ExprValue(e).Some?
    ensures var s := ShowExpr(e) + (Spaces(k) + ("\0" + junk));
      Evaluate(s) == Ok(ExprValue(e).value, "\0" + junk) && forall v :: !IsExpression(s, v)
  {
    var s := ShowExpr(e) + (Spaces(k) + ("\0" + junk));
    PrintedEvaluates(e, k, "\0" + junk);
    assert s[|ShowExpr(e)| + |Spaces(k)|] == '\0';
    forall v ensures !IsExpression(s, v) {
      if IsExpression(s, v) {
        NulIsNoExpression(s, v);
      }
    }
  }

  // ---------- Numbers as they are written ----------

  /** The usual decimal notation. */
  function Numeral(n: nat): string {
    (if n < 10 then "" else Numeral(n / 10)) + ["0123456789"[n % 10]]
  }

  lemma DigitIff(c: char)
    ensures IsDigit(c) <==> c in "0123456789"
  {
    if IsDigit(c) {
      assert "0123456789"[c as int - '0' as int] == c;
    }
  }

  /** A numeral consists of digits and is worth its number. */
  lemma {:induction false} NumeralWorth(n: nat)
    ensures Digits(Numeral(n)) && Decimal(Numeral(n)) == n && Numeral(n) != ""
  {
    var last := "0123456789"[n % 10];
    assert IsDigit(last) && (last - '0') as int == n % 10;
    var front := if n < 10 then "" else Numeral(n / 10);
    if n >= 10 {
      NumeralWorth(n / 10);
    }
    assert (front + [last])[..|front|] == front;
  }

  /** So a numeral evaluates to its number, wherever it came from. */
  lemma NumeralEvaluates(n: nat)
    ensures Evaluate(Numeral(n)) == Ok(n, "")
  {
    NumeralWorth(n);
    var s := Numeral(n);
    var f := Number(0, s);
    var e := Sum(Product(f));
    assert Spaces(0) == "" && "" + s == s && s + ("" + "") == s;
    assert ShowFactor(f) == s;
    assert ShowExpr(e) == ShowTerm(Product(f)) == s;
    assert FactorOk(f) && FactorValue(f) == Some(n);
    assert TermOk(Product(f)) && TermValue(Product(f)) == Some(n);
    PrintedEvaluates(e, 0, "");
  }

  // ---------- Why and where evaluation fails ----------

  /** r is what is left of s. */
  predicate LeftOf(s: string, r: string) {
    |r| <= |s| && s[|s| - |r|..] == r
  }

  lemma LeftOfLeft(s: string, t: string, r: string)
    requires LeftOf(s, t) && LeftOf(t, r)
    ensures LeftOf(s, r)
  {
    assert s[|s| - |r|..] == t[|t| - |r|..];
  }

  lemma {:induction false} TrimIsLeft(s: string)
    ensures LeftOf(s, Trim(s))
  {
    if s != "" && s[0] == ' ' {
      TrimIsLeft(s[1..]);
      LeftOfLeft(s, s[1..], Trim(s));
    }
  }

  /** s[i..at] is an expression that has a value, with spaces after it. */
  ghost predicate ExpressionFrom(s: string, i: nat, at: nat) {
    i <= at <= |s| && exists v :: IsExpression(s[i..at], v)
  }

  /** s[i..at] is a factor that is worth 0. */
  ghost predicate ZeroFrom(s: string, i: nat, at: nat) {
    i <= at <= |s| && exists f :: FactorOk(f) && FactorValue(f) == Some(0) && s[i..at] == ShowFactor(f)
  }

  /** What stands at a place where an expression ends: no space, and nothing that would carry it on. */
  predicate EndsExpression(s: string, at: nat) {
    at < |s| ==>
      && s[at] != ' ' && s[at] != '+' && s[at] != '-' && s[at] != '*' && s[at] != '/'
      && (at > 0 && '0' <= s[at] <= '9' ==> !('0' <= s[at - 1] <= '9'))
  }

  /** A factor has to follow. */
  predicate Demands(c: char) {
    c == '+' || c == '-' || c == '*' || c == '/' || c == '('
  }

  /** There are only spaces from a place where a factor is missing up to at. Whether the beginning is such a
      place depends on what s is a part of. */
  ghost predicate FactorMissing(s: string, at: nat, beginning: bool) {
    exists i: nat {:trigger OnlySpaces(s, i, at)} ::
      OnlySpaces(s, i, at) && if i == 0 then beginning else Demands(s[i - 1])
  }

  predicate OnlySpaces(s: string, i: nat, at: nat) {
    i <= at <= |s| && forall k :: i <= k < at ==> s[k] == ' '
  }

  /** What each failure says of the text and the place reported. */
  ghost predicate Explains(s: string, why: Reason, at: nat, beginning: bool) {
    at <= |s| &&
    match why
    case UnexpectedEnd => (at == |s| || s[at] == '\0') && FactorMissing(s, at, beginning)
    case UnexpectedCharacter =>
      && at < |s| && s[at] != ' ' && s[at] != '\0' && s[at] != '(' && !('0' <= s[at] <= '9')
      && FactorMissing(s, at, beginning)
    case ExpectedParen =>
      && (at < |s| ==> s[at] != ')') && EndsExpression(s, at)
      && exists i: nat {:trigger ExpressionFrom(s, i + 1, at)} :: i < at && s[i] == '(' && ExpressionFrom(s, i + 1, at)
    case DivisionByZero =>
      exists i: nat {:trigger ZeroFrom(s, i + 1, at)} :: i < at && s[i] == '/' && ZeroFrom(s, i + 1, at)
    case TrailingInput => at < |s| && s[at] != '\0' && EndsExpression(s, at) && ExpressionFrom(s, 0, at)
  }

  /** A failure in what is left of s, as seen from s. Only the whole input can have something trailing. */
  ghost predicate FailsWell(s: string, r: Parsed, beginning: bool) {
    Accounted(s, r, beginning)
  }

  ghost predicate Accounted(s: string, r: Parsed, beginning: bool) {
    r.Fail? ==> LeftOf(s, r.rest) && r.why != TrailingInput && Explains(s, r.why, |s| - |r.rest|, beginning)
  }

  lemma SameText(s: string, t: string, i: nat, at: nat)
    requires LeftOf(s, t) && i <= at <= |t|
    ensures var d := |s| - |t|; t[i..at] == s[i + d..at + d]
  {
    var d := |s| - |t|;
    assert t == s[d..];
  }

  lemma SameAt(s: string, t: string, at: nat)
    requires LeftOf(s, t) && at < |t|
    ensures t[at] == s[at + (|s| - |t|)]
  {
  }

  lemma EndsExpressionLonger(s: string, t: string, at: nat)
    requires LeftOf(s, t) && 0 < at <= |t| && EndsExpression(t, at)
    ensures EndsExpression(s, at + (|s| - |t|))
  {
    SameAt(s, t, at - 1);
    if at < |t| {
      SameAt(s, t, at);
    }
  }

  lemma ParenExplainsLonger(s: string, t: string, at: nat)
    requires LeftOf(s, t) && Explains(t, ExpectedParen, at, true)
    ensures Explains(s, ExpectedParen, at + (|s| - |t|), false)
  {
    var d := |s| - |t|;
    var i: nat :| i < at && t[i] == '(' && ExpressionFrom(t, i + 1, at);
    SameText(s, t, i + 1, at);
    SameAt(s, t, i);
    EndsExpressionLonger(s, t, at);
    if at < |t| {
      SameAt(s, t, at);
    }
    var j: nat := i + d;
    assert s[j] == '(' && ExpressionFrom(s, j + 1, at + d);
  }

  lemma ZeroExplainsLonger(s: string, t: string, at: nat)
    requires LeftOf(s, t) && Explains(t, DivisionByZero, at, true)
    ensures Explains(s, DivisionByZero, at + (|s| - |t|), false)
  {
    var d := |s| - |t|;
    var i: nat :| i < at && t[i] == '/' && ZeroFrom(t, i + 1, at);
    SameText(s, t, i + 1, at);
    SameAt(s, t, i);
    var j: nat := i + d;
    assert s[j] == '/' && ZeroFrom(s, j + 1, at + d);
  }

  lemma MissingLonger(s: string, t: string, at: nat, beginning: bool)
    requires LeftOf(s, t) && at <= |t| && FactorMissing(t, at, beginning)
    requires beginning ==> |t| < |s| && Demands(s[|s| - |t| - 1])
    ensures FactorMissing(s, at + (|s| - |t|), false)
  {
    var d := |s| - |t|;
    var i: nat :| OnlySpaces(t, i, at) && if i == 0 then beginning else Demands(t[i - 1]);
    SameText(s, t, i, at);
    forall k | i + d <= k < at + d ensures s[k] == ' ' {
      SameAt(s, t, k - d);
    }
    if i > 0 {
      SameAt(s, t, i - 1);
    }
    assert OnlySpaces(s, i + d, at + d);
  }

  lemma ExplainsLonger(s: string, t: string, why: Reason, at: nat, beginning: bool)
    requires LeftOf(s, t) && why != TrailingInput && Explains(t, why, at, beginning)
    requires beginning ==> |t| < |s| && Demands(s[|s| - |t| - 1])
    ensures Explains(s, why, at + (|s| - |t|), false)
  {
    match why
    case ExpectedParen => ParenExplainsLonger(s, t, at);
    case DivisionByZero => ZeroExplainsLonger(s, t, at);
    case _ =>
      MissingLonger(s, t, at, beginning);
      if at < |t| {
        SameAt(s, t, at);
      }
  }

  /** Seen from further back, the failure stands behind a beginning that demands a factor, or does not depend on
      where the text begins. */
  lemma FailsWellLonger(s: string, t: string, r: Parsed, beginning: bool)
    requires LeftOf(s, t) && FailsWell(t, r, beginning)
    requires beginning ==> |t| < |s| && Demands(s[|s| - |t| - 1])
    ensures FailsWell(s, r, false)
  {
    if r.Fail? {
      LeftOfLeft(s, t, r.rest);
      ExplainsLonger(s, t, r.why, |t| - |r.rest|, beginning);
    }
  }

  lemma Weaker(s: string, r: Parsed)
    requires FailsWell(s, r, false)
    ensures FailsWell(s, r, true)
  {
  }

  /** Something of s is used up, and no digits are torn apart. */
  predicate AfterToken(s: string, r: string) {
    LeftOf(s, r) && |r| < |s| && (r != "" && IsDigit(r[0]) ==> !IsDigit(s[|s| - |r| - 1]))
  }

  /** Neither spaces nor a multiplication can be taken from r. */
  predicate EndsTerm(r: string) {
    Trim(r) == r && (r != "" ==> r[0] != '*' && r[0] != '/')
  }

  lemma AfterTokenLonger(s: string, t: string, r: string)
    requires LeftOf(s, t) && AfterToken(t, r)
    ensures AfterToken(s, r)
  {
    LeftOfLeft(s, t, r);
    assert t[|t| - |r| - 1] == s[|s| - |r| - 1];
  }

  lemma {:induction false} TrimTrimmed(s: string)
    ensures Trim(Trim(s)) == Trim(s)
    ensures |Trim(s)| < |s| ==> s[|s| - |Trim(s)| - 1] == ' '
  {
    if s != "" && s[0] == ' ' {
      TrimTrimmed(s[1..]);
    }
  }

  lemma AfterTokenTrim(s: string, r: string)
    requires AfterToken(s, r)
    ensures AfterToken(s, Trim(r))
  {
    TrimIsLeft(r);
    TrimTrimmed(r);
    LeftOfLeft(s, r, Trim(r));
    if |Trim(r)| < |r| {
      assert s[|s| - |Trim(r)| - 1] == r[|r| - |Trim(r)| - 1];
    }
  }

  lemma BehindText(s: string, a: string, r: string)
    requires s == a + r
    ensures LeftOf(s, r) && s[..|s| - |r|] == a
  {
  }

  lemma GroupStops(s: string, t: string)
    requires LeftOf(s, t) && t != "" && t[0] == '(' && ParseExpr(t[1..]).Ok?
    requires var r := Trim(ParseExpr(t[1..]).rest); r != "" && r[0] == ')'
    ensures AfterToken(s, Trim(ParseExpr(t[1..]).rest)[1..])
  {
    var u, r := t[1..], ParseExpr(t[1..]).rest;
    var e, k := ExprSound(u);
    Associate(ShowExpr(e), Spaces(k), r);
    BehindText(u, ShowExpr(e) + Spaces(k), r);
    TrimIsLeft(r);
    LeftOfLeft(u, r, Trim(r));
    LeftOfLeft(t, u, Trim(r));
    LeftOfLeft(s, t, Trim(r));
    OneCharOff(s, Trim(r));
  }

  lemma OneCharOff(s: string, r: string)
    requires LeftOf(s, r) && r != "" && !IsDigit(r[0])
    ensures AfterToken(s, r[1..])
  {
    LeftOfLeft(s, r, r[1..]);
    SameAt(s, r, 0);
  }

  lemma FactorStops(s: string)
    requires ParseFactor(s).Ok?
    ensures AfterToken(s, ParseFactor(s).rest)
  {
    var t := Trim(s);
    TrimIsLeft(s);
    if t[0] == '(' {
      GroupStops(s, t);
    } else {
      LeftOfLeft(s, t, t[LeadingDigits(t)..]);
    }
  }

  lemma {:induction false} TermLoopStops(s0: string, v: int, s: string)
    requires TermLoop(v, s).Ok? && AfterToken(s0, s)
    ensures var r := TermLoop(v, s).rest; AfterToken(s0, r) && EndsTerm(r)
    decreases |s|
  {
    var t := Trim(s);
    AfterTokenTrim(s0, s);
    if t == "" || (t[0] != '*' && t[0] != '/') {
      TrimTrimmed(s);
    } else {
      var w, rest := ParseFactor(t[1..]).value, ParseFactor(t[1..]).rest;
      FactorStops(t[1..]);
      LeftOfLeft(s0, t, t[1..]);
      AfterTokenLonger(s0, t[1..], rest);
      TermLoopStops(s0, if t[0] == '*' then v * w else Quotient(v, w), rest);
    }
  }

  lemma TermStops(s: string)
    requires ParseTerm(s).Ok?
    ensures var r := ParseTerm(s).rest; AfterToken(s, r) && EndsTerm(r)
  {
    FactorStops(s);
    TermLoopStops(s, ParseFactor(s).value, ParseFactor(s).rest);
  }

  /** One turn of the loop. */
  lemma ExprLoopTurns(v: int, s: string) returns (next: int)
    requires Trim(s) != "" && (Trim(s)[0] == '+' || Trim(s)[0] == '-') && ParseTerm(Trim(s)[1..]).Ok?
    ensures ExprLoop(v, s) == ExprLoop(next, ParseTerm(Trim(s)[1..]).rest)
  {
    var w := ParseTerm(Trim(s)[1..]).value;
    next := if Trim(s)[0] == '+' then v + w else v - w;
  }

  predicate EndsSum(r: string) {
    EndsTerm(r) && (r != "" ==> r[0] != '+' && r[0] != '-')
  }

  lemma {:induction false} ExprLoopStops(s0: string, v: int, s: string, r: Parsed)
    requires r == ExprLoop(v, s) && r.Ok? && AfterToken(s0, s) && EndsTerm(s)
    ensures AfterToken(s0, r.rest) && EndsSum(r.rest)
    decreases |s|
  {
    if s != "" && (s[0] == '+' || s[0] == '-') {
      var u := s[1..];
      TermStops(u);
      LeftOfLeft(s0, s, u);
      AfterTokenLonger(s0, u, ParseTerm(u).rest);
      var next := ExprLoopTurns(v, s);
      ExprLoopStops(s0, next, ParseTerm(u).rest, r);
    }
  }

  /** Where an expression stops it cannot go on. */
  lemma ExprStops(s: string)
    requires ParseExpr(s).Ok?
    ensures var r := ParseExpr(s).rest; LeftOf(s, r) && |r| < |s| && Trim(r) == r && EndsExpression(s, |s| - |r|)
  {
    TermStops(s);
    var r := ParseTerm(s).rest;
    ExprLoopStops(s, ParseTerm(s).value, r, ParseExpr(s));
    var rest := ParseExpr(s).rest;
    assert rest != "" ==> s[|s| - |rest|] == rest[0];
  }

  /** And what stands before is an expression. */
  lemma ExprBefore(s: string)
    requires ParseExpr(s).Ok?
    ensures var r := ParseExpr(s).rest; LeftOf(s, r) && ExpressionFrom(s, 0, |s| - |r|)
  {
    var r := ParseExpr(s).rest;
    var e, k := ExprSound(s);
    Associate(ShowExpr(e), Spaces(k), r);
    BehindText(s, ShowExpr(e) + Spaces(k), r);
    assert s[0..|s| - |r|] == ShowExpr(e) + Spaces(k);
    assert IsExpression(s[0..|s| - |r|], ParseExpr(s).value);
  }

  lemma NoClosingParen(t: string)
    requires t != "" && t[0] == '(' && ParseExpr(t[1..]).Ok?
    requires var r := Trim(ParseExpr(t[1..]).rest); r != "" ==> r[0] != ')'
    ensures FailsWell(t, Fail(ExpectedParen, Trim(ParseExpr(t[1..]).rest)), false)
  {
    var u, r := t[1..], ParseExpr(t[1..]).rest;
    ExprStops(u);
    ExprBefore(u);
    LeftOfLeft(t, u, r);
    var at := |t| - |r|;
    assert u[0..at - 1] == t[1..at];
    EndsExpressionLonger(t, u, at - 1);
    if at < |t| {
      SameAt(t, r, 0);
    }
    var open: nat := 0;
    assert t[open] == '(' && ExpressionFrom(t, open + 1, at);
  }

  lemma NoFactorAs(s: string)
    requires var t := Trim(s); t == "" || (t[0] != '(' && !IsDigit(t[0]))
    ensures var t := Trim(s);
      ParseFactor(s) == Fail(if t == "" || t[0] == '\0' then UnexpectedEnd else UnexpectedCharacter, t)
  {
  }

  lemma MissingAtStart(s: string)
    ensures LeftOf(s, Trim(s)) && FactorMissing(s, |s| - |Trim(s)|, true)
  {
    TrimIsLeft(s);
    TrimmedAway(s);
    assert OnlySpaces(s, 0, |s| - |Trim(s)|);
  }

  lemma NoFactor(s: string, t: string, r: Parsed)
    requires LeftOf(s, t) && FactorMissing(s, |s| - |t|, true) && Trim(t) == t
    requires t == "" || (t[0] != '(' && !IsDigit(t[0]))
    requires r == Fail(if t == "" || t[0] == '\0' then UnexpectedEnd else UnexpectedCharacter, t)
    ensures FailsWell(s, r, true)
  {
    if t != "" {
      SameAt(s, t, 0);
    }
  }

  /** How the parsing of a group can fail. */
  lemma GroupFailsAs(s: string)
    requires Trim(s) != "" && Trim(s)[0] == '('
    ensures var inner := ParseExpr(Trim(s)[1..]);
      if inner.Fail? then ParseFactor(s) == inner
      else ParseFactor(s).Fail? ==>
        var r := Trim(inner.rest); ParseFactor(s) == Fail(ExpectedParen, r) && (r != "" ==> r[0] != ')')
  {
  }

  lemma InnerFails(t: string, r: Parsed)
    requires t != "" && t[0] == '(' && FailsWell(t[1..], r, true)
    ensures FailsWell(t, r, false)
  {
    FailsWellLonger(t, t[1..], r, true);
  }

  lemma {:induction false} GroupFails(s: string, r: Parsed)
    requires Trim(s) != "" && Trim(s)[0] == '(' && r == ParseFactor(s)
    ensures FailsWell(s, r, false)
    decreases |s|, 0
  {
    var t := Trim(s);
    GroupFailsAs(s);
    TrimIsLeft(s);
    if ParseExpr(t[1..]).Fail? {
      ExprFails(t[1..]);
      InnerFails(t, r);
      FailsWellLonger(s, t, r, false);
    } else if r.Fail? {
      NoClosingParen(t);
      FailsWellLonger(s, t, r, false);
    }
  }

  lemma {:induction false} FactorFails(s: string)
    ensures FailsWell(s, ParseFactor(s), true)
    decreases |s|, 1
  {
    var t := Trim(s);
    if t != "" && t[0] == '(' {
      GroupFails(s, ParseFactor(s));
      Weaker(s, ParseFactor(s));
    } else if t == "" || !IsDigit(t[0]) {
      NoFactorAs(s);
      MissingAtStart(s);
      TrimTrimmed(s);
      NoFactor(s, t, ParseFactor(s));
    }
  }

  lemma {:induction false} TrimmedAway(s: string)
    ensures forall k :: 0 <= k < |s| - |Trim(s)| ==> s[k] == ' '
  {
    if s != "" && s[0] == ' ' {
      TrimmedAway(s[1..]);
    }
  }

  lemma DividedByZero(t: string)
    requires t != "" && t[0] == '/' && ParseFactor(t[1..]).Ok? && ParseFactor(t[1..]).value == 0
    ensures var r := ParseFactor(t[1..]).rest; FailsWell(t, Fail(DivisionByZero, r), false)
  {
    var r := ParseFactor(t[1..]).rest;
    var f := FactorSound(t[1..]);
    BehindText(t[1..], ShowFactor(f), r);
    LeftOfLeft(t, t[1..], r);
    assert t[1..|t| - |r|] == t[1..][..|t| - 1 - |r|] == ShowFactor(f);
    var slash: nat := 0;
    assert t[slash] == '/' && ZeroFrom(t, slash + 1, |t| - |r|);
  }

  lemma {:induction false} TermLoopFails(v: int, s: string, r: Parsed)
    requires r == TermLoop(v, s)
    ensures FailsWell(s, r, false)
    decreases |s|, 2
  {
    var t := Trim(s);
    if t != "" && (t[0] == '*' || t[0] == '/') {
      var u := t[1..];
      TrimIsLeft(s);
      LeftOfLeft(s, t, u);
      SameAt(s, t, 0);
      FactorFails(u);
      match ParseFactor(u)
      case Fail(_, _) =>
        FailsWellLonger(s, u, r, true);
      case Ok(w, rest) =>
        FactorStops(u);
        LeftOfLeft(s, u, rest);
        if t[0] == '/' && w == 0 {
          DividedByZero(t);
          FailsWellLonger(s, t, r, false);
        } else {
          TermLoopFails(if t[0] == '*' then v * w else Quotient(v, w), rest, r);
          FailsWellLonger(s, rest, r, false);
        }
    }
  }

  lemma {:induction false} TermFails(s: string)
    ensures FailsWell(s, ParseTerm(s), true)
    decreases |s|, 3
  {
    FactorFails(s);
    if ParseFactor(s).Ok? {
      var rest := ParseFactor(s).rest;
      FactorStops(s);
      TermLoopFails(ParseFactor(s).value, rest, ParseTerm(s));
      FailsWellLonger(s, rest, ParseTerm(s), false);
      Weaker(s, ParseTerm(s));
    }
  }

  lemma {:induction false} ExprLoopFails(v: int, s: string, r: Parsed)
    requires r == ExprLoop(v, s)
    ensures FailsWell(s, r, false)
    decreases |s|, 4
  {
    var t := Trim(s);
    if t != "" && (t[0] == '+' || t[0] == '-') {
      var u := t[1..];
      TrimIsLeft(s);
      LeftOfLeft(s, t, u);
      SameAt(s, t, 0);
      TermFails(u);
      if ParseTerm(u).Fail? {
        FailsWellLonger(s, u, r, true);
      } else {
        var rest := ParseTerm(u).rest;
        TermStops(u);
        LeftOfLeft(s, u, rest);
        var next := ExprLoopTurns(v, s);
        ExprLoopFails(next, rest, r);
        FailsWellLonger(s, rest, r, false);
      }
    }
  }

  lemma {:induction false} ExprFails(s: string)
    ensures FailsWell(s, ParseExpr(s), true)
    decreases |s|, 5
  {
    TermFails(s);
    if ParseTerm(s).Ok? {
      var rest := ParseTerm(s).rest;
      TermStops(s);
      ExprLoopFails(ParseTerm(s).value, rest, ParseExpr(s));
      FailsWellLonger(s, rest, ParseExpr(s), false);
      Weaker(s, ParseExpr(s));
    }
  }

  /** Whatever fails, the text explains it at the place reported. */
  lemma FailureExplained(s: string)
    ensures Evaluate(s).Fail? ==> Explains(s, Evaluate(s).why, |s| - |Evaluate(s).rest|, true)
  {
    match ParseExpr(s)
    case Fail(_, _) => ExprFails(s);
    case Ok(_, rest) =>
      ExprStops(s);
      ExprBefore(s);
      assert rest != "" ==> s[|s| - |rest|] == rest[0];
  }
}

/** The parser itself: a position that every method advances, and a failure that stops them all. */
module ExprParsers {
  import opened ExprGrammar

  /** A value, or a failure and its position, that every level passes on. */
  datatype Reply<T> = Got(value: T) | Failed(why: Reason, at: nat) {
    predicate IsFailure() {
      Failed?
    }

    function PropagateFailure<U>(): Reply<U>
      requires IsFailure()
    {
      Failed(why, at)
    }

    function Extract(): T
      requires !IsFailure()
    {
      value
    }
  }

  class ExprParser {
    const input: string
    var pos: nat

    predicate Valid()
      reads this
    {
      pos <= |input|
    }

    /** What is left of the input. */
    function Rest(): string
      reads this
      requires Valid()
    {
      input[pos..]
    }

    /** The method did what the function says: same value or failure, same place. */
    ghost predicate Did(r: Reply<int>, parsed: Parsed)
      reads this
    {
      && Valid() && Rest() == parsed.rest
      && r == match parsed case Ok(v, _) => Got(v) case Fail(why, _) => Failed(why, pos)
    }

    constructor (input: string)
      ensures Valid() && Rest() == input && this.input == input
    {
      this.input := input;
      pos := 0;
      new;
      assert input[0..] == input;
    }

    /** Skips spaces; the next character, or NUL at the end. */
    method PeekNext() returns (c: char)
      requires Valid()
      modifies this
      ensures Valid() && pos >= old(pos) && Rest() == Trim(old(Rest())) && c == Peek(old(Rest()))
    {
      while pos < |input| && input[pos] == ' '
        invariant Valid() && pos >= old(pos) && Trim(Rest()) == Trim(old(Rest()))
      {
        assert Rest()[1..] == input[pos + 1..];
        pos := pos + 1;
      }
      if pos >= |input| {
        return '\0';
      }
      c := input[pos];
    }

    lemma Advance()
      requires Valid() && pos < |input|
      ensures Rest()[1..] == input[pos + 1..]
    {
    }

    method Expr() returns (r: Reply<int>)
      requires Valid()
      modifies this
      ensures Did(r, ParseExpr(old(Rest()))) && pos >= old(pos) && (r.Got? ==> pos > old(pos))
      decreases |input| - pos, 2
    {
      ghost var goal := ParseExpr(Rest());
      var v :- Term();
      while true
        invariant Valid() && pos > old(pos) && goal == ExprLoop(v, Rest())
        decreases |input| - pos
      {
        var c := PeekNext();
        if c == '+' {
          var w :- TermAfter();
          v := v + w;
        } else if c == '-' {
          var w :- TermAfter();
          v := v - w;
        } else {
          return Got(v);
        }
      }
    }

    /** Steps over the operator and parses what follows it. */
    method TermAfter() returns (r: Reply<int>)
      requires Valid() && pos < |input|
      modifies this
      ensures Did(r, ParseTerm(old(Rest())[1..])) && pos > old(pos)
      decreases |input| - pos, 0
    {
      Advance();
      pos := pos + 1;
      r := Term();
    }

    method Term() returns (r: Reply<int>)
      requires Valid()
      modifies this
      ensures Did(r, ParseTerm(old(Rest()))) && pos >= old(pos) && (r.Got? ==> pos > old(pos))
      decreases |input| - pos, 1
    {
      ghost var goal := ParseTerm(Rest());
      var v :- Factor();
      while true
        invariant Valid() && pos > old(pos) && goal == TermLoop(v, Rest())
        decreases |input| - pos
      {
        var c := PeekNext();
        if c == '*' {
          var w :- FactorAfter();
          v := v * w;
        } else if c == '/' {
          var w :- FactorAfter();
          if w == 0 {
            return Failed(DivisionByZero, pos);
          }
          v := Quotient(v, w);
        } else {
          return Got(v);
        }
      }
    }

    method FactorAfter() returns (r: Reply<int>)
      requires Valid() && pos < |input|
      modifies this
      ensures Did(r, ParseFactor(old(Rest())[1..])) && pos > old(pos)
      decreases |input| - pos, 0
    {
      Advance();
      pos := pos + 1;
      r := Factor();
    }

    /** The digits from here on. */
    method Number() returns (n: nat)
      requires Valid()
      modifies this
      ensures Valid()
      ensures var s, d := old(Rest()), LeadingDigits(old(Rest()));
        n == Decimal(s[..d]) && Rest() == s[d..] && pos == old(pos) + d
    {
      var start := pos;
      ghost var s := Rest();
      ghost var d := LeadingDigits(s);
      while pos < |input| && IsDigit(input[pos])
        invariant start <= pos <= start + d
      {
        DigitsCounted(s, pos - start);
        pos := pos + 1;
      }
      DigitsCounted(s, pos - start);
      assert input[start..pos] == s[..d];
      n := Decimal(input[start..pos]);
    }

    method Factor() returns (r: Reply<int>)
      requires Valid()
      modifies this
      ensures Did(r, ParseFactor(old(Rest()))) && pos >= old(pos) && (r.Got? ==> pos > old(pos))
      decreases |input| - pos, 0
    {
      var c := PeekNext();
      if c == '(' {
        Advance();
        pos := pos + 1;
        var v :- Expr();
        c := PeekNext();
        if c != ')' {
          return Failed(ExpectedParen, pos);
        }
        Advance();
        pos := pos + 1;
        return Got(v);
      }
      if IsDigit(c) {
        var n := Number();
        return Got(n);
      }
      if c == '\0' {
        return Failed(UnexpectedEnd, pos);
      }
      return Failed(UnexpectedCharacter, pos);
    }

    /** An expression, and nothing else but spaces. */
    method Whole() returns (r: Reply<int>)
      requires Valid()
      modifies this
      ensures Did(r, Evaluate(old(Rest())))
    {
      var v :- Expr();
      var c := PeekNext();
      if c != '\0' {
        return Failed(TrailingInput, pos);
      }
      return Got(v);
    }
  }

  /** The entry point: succeeds with v exactly on what the grammar says is worth v, and fails where and for
      the reason the grammar function says. */
  method Eval(input: string) returns (r: Reply<int>)
    ensures r == match Evaluate(input)
                 case Ok(v, _) => Got(v)
                 case Fail(why, rest) => Failed(why, |input| - |rest|)
    ensures r.Failed? ==> Explains(input, r.why, r.at, true)
    ensures forall v :: r == Got(v) <==> Denotes(input, v)
    ensures forall v :: r == Got(v) <==> IsExpression(BeforeNul(input), v)
  {
    forall v
      ensures Evaluate(input).Ok? && Evaluate(input).value == v <==> Denotes(input, v)
      ensures Denotes(input, v) <==> IsExpression(BeforeNul(input), v)
    {
      EvaluateIffDenotes(input, v);
      DenotesBeforeNul(input, v);
    }
    FailureExplained(input);
    var p := new ExprParser(input);
    r := p.Whole();
    assert |p.Rest()| == |input| - p.pos;
  }
}
