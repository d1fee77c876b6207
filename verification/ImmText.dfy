/** Printing and parsing immediate expressions, and exactly which expressions survive the round trip. */
module ImmText {
  import opened Wrappers
  import opened RuleAst
  import opened Numerals

  // ---- printing ----

  function Integer(v: int): string { if v < 0 then "-" + Decimal(-v) else Decimal(v) }

  function Print(e: ImmExpr): string {
    match e
    case ImmRef(id) => "imm" + Integer(id)
    case IntLit(v) => Integer(v)
    case Neg(a) => "-" + Print(a)
    case BitOr(l, r) => Print(l) + " | " + Print(r)
    case ShiftLeft(l, r) => "(" + Print(l) + " << " + Print(r) + ")"
    case Log2(a) => "log2(" + Print(a) + ")"
    case RawImm(t) => t
  }

  // ---- parsing ----

  /** The ASCII characters Python strips. */
  predicate IsSpace(c: char) { c == ' ' || '\t' <= c <= '\r' || '\U{1C}' <= c <= '\U{1F}' }

  function TrimLeft(s: string): (t: string)
    ensures |t| <= |s|
  {
    if s != "" && IsSpace(s[0]) then TrimLeft(s[1..]) else s
  }

  function TrimRight(s: string): (t: string)
    ensures |t| <= |s|
  {
    if s != "" && IsSpace(s[|s| - 1]) then TrimRight(s[..|s| - 1]) else s
  }

  function Strip(s: string): (t: string)
    ensures |t| <= |s|
  {
    TrimRight(TrimLeft(s))
  }

  /** The text inside an enclosing dollar-brace pair. */
  function Unwrap(s: string): (t: string)
    ensures |t| <= |s|
  {
    if |s| >= 3 && s[0] == '$' && s[1] == '{' && s[|s| - 1] == '}' then Strip(s[2..|s| - 1]) else s
  }

  predicate Opens(c: char) { c in "([{" }

  predicate Closes(c: char) { c in ")]}" }

  /** The first bar at depth zero, starting at depth `d`. */
  function TopBar(s: string, d: int): (i: Option<nat>)
    ensures i.Some? ==> i.value < |s|
  {
    if s == "" then None
    else if s[0] == '|' && d == 0 then Some(0)
    else
      var rest := TopBar(s[1..], if Opens(s[0]) then d + 1 else if Closes(s[0]) then d - 1 else d);
      if rest.None? then None else Some(rest.value + 1)
  }

  predicate ShiftAt(s: string, i: nat) { 2 <= i && i + 3 < |s| && s[i] == '<' && s[i + 1] == '<' }

  /** The last shift sign, at or before `i`, with something on both sides inside the parentheses. */
  function LastShift(s: string, i: nat): (k: Option<nat>)
    ensures k.Some? ==> k.value <= i && ShiftAt(s, k.value)
  {
    if ShiftAt(s, i) then Some(i) else if i == 0 then None else LastShift(s, i - 1)
  }

  function Both(l: Option<ImmExpr>, r: Option<ImmExpr>, f: (ImmExpr, ImmExpr) -> ImmExpr): Option<ImmExpr> {
    if l.Some? && r.Some? then Some(f(l.value, r.value)) else None
  }

  predicate IsReference(s: string) { |s| > 3 && s[..3] == "imm" && Digits(s[3..]) }

  predicate IsParenthesized(s: string) { |s| >= 2 && s[0] == '(' && s[|s| - 1] == ')' }

  predicate IsLog(s: string) { |s| >= 7 && s[..5] == "log2(" && s[|s| - 1] == ')' }

  /** The alternative of the grammar a stripped text belongs to, with the texts of its parts. */
  datatype Form =
    | Reference(n: nat)
    | Number(n: nat)
    | Signed(arg: string)
    | Bar(left: string, right: string)
    | Shift(left: string, right: string)
    | Log(arg: string)
    | Malformed

  function FormOf(s: string): (f: Form)
    ensures f.Signed? || f.Log? ==> |f.arg| < |s|
    ensures f.Bar? || f.Shift? ==> |f.left| < |s| && |f.right| < |s|
  {
    if IsReference(s) then Reference(ParseDecimal(s[3..]))
    else if Digits(s) then Number(ParseDecimal(s))
    else if s != "" && s[0] == '-' then Signed(Strip(s[1..]))
    else
      var bar := TopBar(s, 0);
      if bar.Some? then Bar(Strip(s[..bar.value]), Strip(s[bar.value + 1..]))
      else if IsParenthesized(s) && LastShift(s, |s|).Some? then
        Shift(s[1..LastShift(s, |s|).value], s[LastShift(s, |s|).value + 2..|s| - 1])
      else if IsLog(s) then Log(s[5..|s| - 1])
      else Malformed
  }

  function Parse(text: string): Option<ImmExpr>
    decreases |text|, 1
  {
    ParseForm(Unwrap(Strip(text)), FormOf(Unwrap(Strip(text))))
  }

  function ParseForm(s: string, f: Form): Option<ImmExpr>
    requires f == FormOf(s)
    decreases |s|, 0
  {
    match f
    case Reference(n) => Some(ImmRef(n))
    case Number(n) => Some(IntLit(n))
    case Signed(a) => if Parse(a).None? then None else Some(Neg(Parse(a).value))
    case Bar(l, r) => Both(Parse(l), Parse(r), (x, y) => BitOr(x, y))
    case Shift(l, r) => Both(Parse(l), Parse(r), (x, y) => ShiftLeft(x, y))
    case Log(a) => if Parse(a).None? then None else Some(Log2(Parse(a).value))
    case Malformed => None
  }

  // ---- the expressions that survive ----

  predicate NoShift(e: ImmExpr) {
    match e
    case Neg(a) => NoShift(a)
    case BitOr(l, r) => NoShift(l) && NoShift(r)
    case ShiftLeft(_, _) => false
    case Log2(a) => NoShift(a)
    case _ => true
  }

  /** Nothing negative or raw; no disjunction or negation on the left of a bar; no shift inside a shift's right side. */
  predicate Printable(e: ImmExpr) {
    match e
    case ImmRef(id) => id >= 0
    case IntLit(v) => v >= 0
    case Neg(a) => Printable(a)
    case BitOr(l, r) => Printable(l) && Printable(r) && !l.BitOr? && !l.Neg?
    case ShiftLeft(l, r) => Printable(l) && Printable(r) && NoShift(r)
    case Log2(a) => Printable(a)
    case RawImm(_) => false
  }

  predicate NoRaw(e: ImmExpr) {
    match e
    case Neg(a) => NoRaw(a)
    case BitOr(l, r) => NoRaw(l) && NoRaw(r)
    case ShiftLeft(l, r) => NoRaw(l) && NoRaw(r)
    case Log2(a) => NoRaw(a)
    case RawImm(_) => false
    case _ => true
  }

  // ---- stripping ----

  /** Nothing to strip. */
  predicate Tight(s: string) { s != "" && !IsSpace(s[0]) && !IsSpace(s[|s| - 1]) }

  lemma TightStays(s: string)
    requires Tight(s)
    ensures Strip(s) == s && Strip(s + " ") == s && Strip(" " + s) == s
  {
    var a, b := s + " ", " " + s;
    assert a[..|a| - 1] == s && b[1..] == s;
    assert TrimLeft(a) == a && TrimLeft(b) == s;
  }

  /** The forms whose text does not begin with a sign. */
  predicate Unsigned(e: ImmExpr) { e.ImmRef? || e.IntLit? || e.ShiftLeft? || e.Log2? }

  lemma {:induction false} PrintIsTight(e: ImmExpr)
    requires Printable(e)
    ensures Tight(Print(e)) && Print(e)[0] != '$' && (Unsigned(e) ==> Print(e)[0] != '-')
    decreases e
  {
    match e
    case ImmRef(id) => DecimalReadsBack(id);
    case IntLit(v) => DecimalReadsBack(v);
    case Neg(a) => PrintIsTight(a);
    case BitOr(l, r) =>
      PrintIsTight(l);
      PrintIsTight(r);
    case _ =>
  }

  // ---- depth ----

  function Moved(i: Option<nat>, n: nat): Option<nat> { if i.None? then None else Some(i.value + n) }

  function Scan(d: int): string -> Option<nat> { (s: string) => TopBar(s, d) }

  ghost predicate PassedBy(f: string -> Option<nat>, s: string) {
    forall rest: string {:trigger f(s + rest)} :: f(s + rest) == Moved(f(rest), |s|)
  }

  /** A text the bar scan passes over from depth `d`, returning to depth `d`. */
  ghost predicate Passed(s: string, d: int) { PassedBy(Scan(d), s) }

  lemma ConcatPassedBy(f: string -> Option<nat>, a: string, b: string)
    requires PassedBy(f, a) && PassedBy(f, b)
    ensures PassedBy(f, a + b)
  {
    forall rest: string ensures f((a + b) + rest) == Moved(f(rest), |a + b|) {
      assert (a + b) + rest == a + (b + rest);
    }
  }

  lemma PassConcat(a: string, b: string, d: int)
    requires Passed(a, d) && Passed(b, d)
    ensures Passed(a + b, d)
  {
    ConcatPassedBy(Scan(d), a, b);
  }

  lemma StepOver(c: char, rest: string, d: int)
    requires !Opens(c) && !Closes(c) && (c != '|' || d != 0)
    ensures TopBar([c] + rest, d) == Moved(TopBar(rest, d), 1)
  {
    assert ([c] + rest)[1..] == rest;
  }

  lemma PassChar(c: char, d: int)
    requires !Opens(c) && !Closes(c) && (c != '|' || d != 0)
    ensures Passed([c], d)
  {
    forall rest: string ensures Scan(d)([c] + rest) == Moved(Scan(d)(rest), 1) { StepOver(c, rest, d); }
  }

  lemma StepIn(s: string, rest: string, d: int)
    ensures TopBar("(" + s + rest, d) == Moved(TopBar(s + rest, d + 1), 1)
    ensures TopBar(")" + rest, d + 1) == Moved(TopBar(rest, d), 1)
  {
    assert ("(" + s + rest)[1..] == s + rest && (")" + rest)[1..] == rest;
  }

  lemma PassParens(s: string, d: int)
    requires Passed(s, d + 1)
    ensures Passed("(" + s + ")", d)
  {
    forall rest: string ensures Scan(d)(("(" + s + ")") + rest) == Moved(Scan(d)(rest), |"(" + s + ")"|) {
      assert ("(" + s + ")") + rest == "(" + s + (")" + rest);
      StepIn(s, ")" + rest, d);
      StepIn(s, rest, d);
      assert Scan(d + 1)(s + (")" + rest)) == Moved(Scan(d + 1)(")" + rest), |s|);
    }
  }

  predicate PlainText(s: string) { forall i :: 0 <= i < |s| ==> !Opens(s[i]) && !Closes(s[i]) && s[i] != '|' }

  lemma {:induction false} PassPlain(s: string, d: int)
    requires PlainText(s)
    ensures Passed(s, d)
  {
    if s == "" {
      forall rest: string ensures Scan(d)(s + rest) == Moved(Scan(d)(rest), 0) { assert s + rest == rest; }
    } else {
      PassChar(s[0], d);
      PassPlain(s[1..], d);
      PassConcat([s[0]], s[1..], d);
      assert [s[0]] + s[1..] == s;
    }
  }

  lemma BarPasses(l: string, r: string, d: int)
    requires Passed(l, d) && Passed(r, d) && d > 0
    ensures Passed(l + " | " + r, d)
  {
    PassPlain(" ", d);
    PassChar('|', d);
    PassConcat(" ", "|", d);
    PassConcat(" " + "|", " ", d);
    assert " " + "|" + " " == " | ";
    PassConcat(l, " | ", d);
    PassConcat(l + " | ", r, d);
  }

  lemma ShiftPasses(l: string, r: string, d: int)
    requires Passed(l, d + 1) && Passed(r, d + 1)
    ensures Passed("(" + l + " << " + r + ")", d)
  {
    PassPlain(" << ", d + 1);
    PassConcat(l, " << ", d + 1);
    PassConcat(l + " << ", r, d + 1);
    PassParens(l + " << " + r, d);
    assert "(" + l + " << " + r + ")" == "(" + (l + " << " + r) + ")";
  }

  lemma LogPasses(s: string, d: int)
    requires Passed(s, d + 1)
    ensures Passed("log2(" + s + ")", d)
  {
    PassPlain("log2", d);
    PassParens(s, d);
    PassConcat("log2", "(" + s + ")", d);
    assert "log2(" + s + ")" == "log2" + ("(" + s + ")");
  }

  /** A bar outside every pair of parentheses. */
  predicate OpenBar(e: ImmExpr) { e.BitOr? || (e.Neg? && OpenBar(e.arg)) }

  lemma IntegerIsPlain(v: nat)
    ensures PlainText(Integer(v)) && PlainText("imm" + Integer(v))
  {
    DecimalReadsBack(v);
  }

  lemma {:induction false} PrintPasses(e: ImmExpr, d: int)
    requires Printable(e) && d >= 0 && (OpenBar(e) ==> d > 0)
    ensures Passed(Print(e), d)
    decreases e
  {
    match e
    case ImmRef(id) =>
      IntegerIsPlain(id);
      PassPlain(Print(e), d);
    case IntLit(v) =>
      IntegerIsPlain(v);
      PassPlain(Print(e), d);
    case Neg(a) =>
      PassPlain("-", d);
      PrintPasses(a, d);
      PassConcat("-", Print(a), d);
    case BitOr(l, r) =>
      PrintPasses(l, d);
      PrintPasses(r, d);
      BarPasses(Print(l), Print(r), d);
    case ShiftLeft(l, r) =>
      PrintPasses(l, d + 1);
      PrintPasses(r, d + 1);
      ShiftPasses(Print(l), Print(r), d);
    case Log2(a) =>
      PrintPasses(a, d + 1);
      LogPasses(Print(a), d);
  }

  lemma PassedHasNoBar(s: string, d: int)
    requires Passed(s, d)
    ensures TopBar(s, d).None?
  {
    assert s + "" == s;
    assert Scan(d)(s + "") == Moved(Scan(d)(""), |s|);
  }

  // ---- parsing what was printed ----

  lemma {:induction false} NoAngle(e: ImmExpr)
    requires Printable(e) && NoShift(e)
    ensures '<' !in Print(e)
    decreases e
  {
    match e
    case ImmRef(id) => DecimalReadsBack(id);
    case IntLit(v) => DecimalReadsBack(v);
    case Neg(a) => NoAngle(a);
    case BitOr(l, r) =>
      NoAngle(l);
      NoAngle(r);
    case Log2(a) => NoAngle(a);
    case _ =>
  }

  lemma BarFound(l: string, r: string)
    requires Passed(l, 0)
    ensures TopBar(l + " | " + r, 0) == Some(|l| + 1)
  {
    var rest := " | " + r;
    assert l + " | " + r == l + rest;
    assert Scan(0)(l + rest) == Moved(Scan(0)(rest), |l|);
    assert rest == " " + ("| " + r);
    StepOver(' ', "| " + r, 0);
    assert TopBar("| " + r, 0) == Some(0);
  }

  /** Stripped or padded, a tight text is parsed by its form. */
  lemma TightParse(s: string)
    requires Tight(s) && s[0] != '$'
    ensures Parse(s) == ParseForm(s, FormOf(s)) && Parse(s + " ") == Parse(s) && Parse(" " + s) == Parse(s)
  {
    TightStays(s);
  }

  /** The value of a text, part by part. */
  lemma ByForm(s: string)
    requires Tight(s) && s[0] != '$'
    ensures FormOf(s).Bar? ==> Parse(s) == Both(Parse(FormOf(s).left), Parse(FormOf(s).right), (x, y) => BitOr(x, y))
    ensures FormOf(s).Shift? ==>
              Parse(s) == Both(Parse(FormOf(s).left), Parse(FormOf(s).right), (x, y) => ShiftLeft(x, y))
    ensures FormOf(s).Log? ==> Parse(s) == if Parse(FormOf(s).arg).None? then None
            else Some(Log2(Parse(FormOf(s).arg).value))
    ensures FormOf(s).Signed? ==> Parse(s) == if Parse(FormOf(s).arg).None? then None
            else Some(Neg(Parse(FormOf(s).arg).value))
    ensures FormOf(s).Reference? ==> Parse(s) == Some(ImmRef(FormOf(s).n))
    ensures FormOf(s).Number? ==> Parse(s) == Some(IntLit(FormOf(s).n))
  {
    TightParse(s);
  }

  lemma BarShape(l: string, r: string)
    requires Tight(l) && Tight(r)
    ensures var s := l + " | " + r;
            Tight(s) && s[0] == l[0] && !IsReference(s) && !Digits(s) && s[..|l| + 1] == l + " "
                && s[|l| + 2..] == " " + r
  {
    var s := l + " | " + r;
    assert s[|l|] == ' ' && s[|l| + 2] == ' ';
    if |s| > 3 { assert s[3..][|l| + 2 - 3] == ' '; }
  }

  lemma BarParses(l: string, r: string)
    requires Tight(l) && Tight(r) && l[0] != '-' && l[0] != '$' && r[0] != '$' && Passed(l, 0)
    ensures Parse(l + " | " + r) == Both(Parse(l), Parse(r), (x, y) => BitOr(x, y))
  {
    BarShape(l, r);
    BarFound(l, r);
    TightStays(l);
    TightStays(r);
    assert FormOf(l + " | " + r) == Bar(l, r);
    ByForm(l + " | " + r);
  }

  lemma {:induction false} LastShiftIs(s: string, k: nat, i: nat)
    requires ShiftAt(s, k) && k <= i && forall j: nat :: k < j <= i ==> !ShiftAt(s, j)
    ensures LastShift(s, i) == Some(k)
    decreases i
  {
    if i > k { LastShiftIs(s, k, i - 1); }
  }

  lemma ShiftFound(l: string, r: string)
    requires l != "" && r != "" && '<' !in r
    ensures var s := "(" + l + " << " + r + ")"; LastShift(s, |s|) == Some(|l| + 2)
  {
    var s := "(" + l + " << " + r + ")";
    var k := |l| + 2;
    assert s[k] == '<' && s[k + 1] == '<' && s[k + 2] == ' ' && |s| == |l| + |r| + 6;
    forall j: nat | k < j <= |s| ensures !ShiftAt(s, j) {
      if j > k + 2 && j < |s| - 1 { assert s[j] == r[j - k - 3]; }
    }
    LastShiftIs(s, k, |s|);
  }

  lemma ShiftShape(l: string, r: string)
    ensures var s := "(" + l + " << " + r + ")";
            Tight(s) && s[0] == '(' && IsParenthesized(s) && s[1..|l| + 2] == l + " " && s[|l| + 4..|s| - 1] == " " + r
  {}

  lemma ShiftForm(l: string, r: string)
    requires Tight(l) && Tight(r) && '<' !in r && Passed("(" + l + " << " + r + ")", 0)
    ensures var s := "(" + l + " << " + r + ")"; Tight(s) && s[0] == '(' && FormOf(s) == Shift(l + " ", " " + r)
  {
    var s := "(" + l + " << " + r + ")";
    ShiftShape(l, r);
    ShiftFound(l, r);
    PassedHasNoBar(s, 0);
    assert !IsReference(s) && !Digits(s);
  }

  lemma ShiftParses(l: string, r: string)
    requires Tight(l) && Tight(r) && l[0] != '$' && r[0] != '$' && '<' !in r && Passed("(" + l + " << " + r + ")", 0)
    ensures Parse("(" + l + " << " + r + ")") == Both(Parse(l), Parse(r), (x, y) => ShiftLeft(x, y))
  {
    ShiftForm(l, r);
    ByForm("(" + l + " << " + r + ")");
    TightParse(l);
    TightParse(r);
  }

  lemma LogForm(a: string)
    requires a != "" && Passed("log2(" + a + ")", 0)
    ensures var s := "log2(" + a + ")"; Tight(s) && s[0] == 'l' && FormOf(s) == Log(a)
  {
    var s := "log2(" + a + ")";
    PassedHasNoBar(s, 0);
    assert s[..5] == "log2(" && s[5..|s| - 1] == a;
    assert s[0] == 'l' && !IsReference(s) && !Digits(s) && !IsParenthesized(s);
  }

  lemma LogParses(a: string)
    requires a != "" && Passed("log2(" + a + ")", 0)
    ensures Parse("log2(" + a + ")") == if Parse(a).None? then None else Some(Log2(Parse(a).value))
  {
    LogForm(a);
    ByForm("log2(" + a + ")");
  }

  lemma SignForm(a: string)
    requires Tight(a)
    ensures var s := "-" + a; Tight(s) && s[0] == '-' && FormOf(s) == Signed(a)
  {
    var s := "-" + a;
    TightStays(a);
    assert s[1..] == a && !IsDigit(s[0]);
  }

  lemma SignParses(a: string)
    requires Tight(a)
    ensures Parse("-" + a) == if Parse(a).None? then None else Some(Neg(Parse(a).value))
  {
    SignForm(a);
    ByForm("-" + a);
  }

  lemma ReferenceParses(n: nat)
    ensures Parse("imm" + Decimal(n)) == Some(ImmRef(n))
  {
    DecimalReadsBack(n);
    var s := "imm" + Decimal(n);
    assert s[3..] == Decimal(n) && s[..3] == "imm";
    assert FormOf(s) == Reference(n);
    ByForm(s);
  }

  lemma NumberParses(n: nat)
    ensures Parse(Decimal(n)) == Some(IntLit(n))
  {
    DecimalReadsBack(n);
    var s := Decimal(n);
    assert s[0] != 'i';
    assert FormOf(s) == Number(n);
    ByForm(s);
  }

  /** A printable expression reads back as itself. */
  lemma {:induction false} PrintReadsBack(e: ImmExpr)
    requires Printable(e)
    ensures Parse(Print(e)) == Some(e)
    decreases e
  {
    match e
    case ImmRef(id) => ReferenceParses(id);
    case IntLit(v) => NumberParses(v);
    case Neg(a) =>
      PrintIsTight(a);
      SignParses(Print(a));
      PrintReadsBack(a);
    case BitOr(l, r) =>
      PrintIsTight(l);
      PrintIsTight(r);
      PrintPasses(l, 0);
      BarParses(Print(l), Print(r));
      PrintReadsBack(l);
      PrintReadsBack(r);
    case ShiftLeft(l, r) =>
      PrintIsTight(l);
      PrintIsTight(r);
      NoAngle(r);
      PrintPasses(e, 0);
      ShiftParses(Print(l), Print(r));
      PrintReadsBack(l);
      PrintReadsBack(r);
    case Log2(a) =>
      PrintIsTight(a);
      PrintPasses(e, 0);
      LogParses(Print(a));
      PrintReadsBack(a);
  }

  /** So does its text inside a dollar-brace pair, the form operands use. */
  lemma WrappedReadsBack(e: ImmExpr)
    requires Printable(e)
    ensures Parse("${" + Print(e) + "}") == Some(e)
  {
    var s := "${" + Print(e) + "}";
    PrintReadsBack(e);
    PrintIsTight(e);
    TightStays(s);
    TightStays(Print(e));
    assert s[2..|s| - 1] == Print(e);
  }

  // ---- what the parser can produce ----

  lemma {:induction false} TrimLeftPart(s: string) returns (i: nat)
    ensures i <= |s| && TrimLeft(s) == s[i..] && (i < |s| ==> !IsSpace(s[i]))
  {
    if s != "" && IsSpace(s[0]) {
      var k := TrimLeftPart(s[1..]);
      i := k + 1;
    } else { i := 0; }
  }

  lemma {:induction false} TrimRightPart(s: string) returns (j: nat)
    ensures j <= |s| && TrimRight(s) == s[..j] && (j > 0 ==> !IsSpace(s[j - 1]))
  {
    if s != "" && IsSpace(s[|s| - 1]) {
      j := TrimRightPart(s[..|s| - 1]);
    } else {
      j := |s|;
      assert s[..j] == s;
    }
  }

  /** Stripping keeps a contiguous part that is tight or empty. */
  lemma StripPart(s: string) returns (i: nat, j: nat)
    ensures i <= j <= |s| && Strip(s) == s[i..j] && (Strip(s) == "" || Tight(Strip(s)))
    ensures s != "" && !IsSpace(s[0]) ==> i == 0
  {
    i := TrimLeftPart(s);
    if s != "" && !IsSpace(s[0]) { i := 0; assert TrimLeft(s) == s[0..]; }
    var k := TrimRightPart(s[i..]);
    j := i + k;
    assert s[i..][..k] == s[i..j];
  }

  lemma StripAgain(s: string)
    ensures Strip(Strip(s)) == Strip(s)
  {
    var i, j := StripPart(s);
    if Strip(s) != "" { TightStays(Strip(s)); }
  }

  /** No shift sign with anything after it. */
  predicate FreeOfShift(s: string) { forall j :: 0 <= j && j + 3 <= |s| ==> !(s[j] == '<' && s[j + 1] == '<') }

  lemma SliceFree(s: string, i: nat, j: nat)
    requires i <= j <= |s| && FreeOfShift(s)
    ensures FreeOfShift(s[i..j])
  {}

  lemma {:induction false} PrefixHasNoBar(s: string, d: int, i: nat, k: nat)
    requires TopBar(s, d) == Some(i) && k <= i
    ensures TopBar(s[..k], d).None?
    decreases |s|
  {
    if k > 0 {
      assert s[..k][1..] == s[1..][..k - 1];
      PrefixHasNoBar(s[1..], if Opens(s[0]) then d + 1 else if Closes(s[0]) then d - 1 else d, i - 1, k - 1);
    }
  }

  lemma {:induction false} LastShiftIsLast(s: string, n: nat)
    requires LastShift(s, n).Some?
    ensures forall j: nat :: LastShift(s, n).value < j <= n ==> !ShiftAt(s, j)
    decreases n
  {
    if !ShiftAt(s, n) { LastShiftIsLast(s, n - 1); }
  }

  lemma NoDollarForm(u: string)
    requires '$' !in u
    ensures Parse(u) == ParseForm(Strip(u), FormOf(Strip(u)))
  {
    var i, j := StripPart(u);
    assert Unwrap(Strip(u)) == Strip(u);
  }

  /** The left side of a bar is neither a disjunction nor a negation. */
  lemma LeftForm(s: string, i: nat)
    requires Tight(s) && s[0] != '-' && TopBar(s, 0) == Some(i)
    ensures !FormOf(Strip(s[..i])).Bar? && !FormOf(Strip(s[..i])).Signed?
  {
    var u := Strip(s[..i]);
    var a, b := StripPart(s[..i]);
    if i == 0 {
      assert s[..0] == "" && u == "";
    } else {
      assert u == s[..b];
      PrefixHasNoBar(s, 0, i, b);
    }
  }

  lemma LeftOfBar(s: string, i: nat)
    requires Tight(s) && '$' !in s && s[0] != '-' && TopBar(s, 0) == Some(i) && Parse(Strip(s[..i])).Some?
    ensures !Parse(Strip(s[..i])).value.BitOr? && !Parse(Strip(s[..i])).value.Neg?
  {
    LeftForm(s, i);
    var a, b := StripPart(s[..i]);
    StripAgain(s[..i]);
    NoDollarForm(Strip(s[..i]));
  }

  /** Nothing after the last shift sign looks like another shift. */
  lemma RightOfShift(s: string, i: nat)
    requires LastShift(s, |s|) == Some(i)
    ensures FreeOfShift(s[i + 2..|s| - 1])
  {
    LastShiftIsLast(s, |s|);
    var r := s[i + 2..|s| - 1];
    forall j | 0 <= j && j + 3 <= |r| ensures !(r[j] == '<' && r[j + 1] == '<') {
      assert !ShiftAt(s, i + 2 + j);
      assert r[j] == s[i + 2 + j] && r[j + 1] == s[i + 2 + j + 1];
    }
  }

  ghost predicate ParsesWell(t: string) {
    Parse(t).Some? ==> Printable(Parse(t).value) && (FreeOfShift(t) ==> NoShift(Parse(t).value))
  }

  lemma FormFree(s: string)
    requires '$' !in s && Tight(s)
    ensures var f := FormOf(s);
            && (f.Signed? || f.Log? ==> '$' !in f.arg && (FreeOfShift(s) ==> FreeOfShift(f.arg)))
            && (f.Bar? || f.Shift? ==> '$' !in f.left && '$' !in f.right)
            && (f.Bar? || f.Shift? ==> FreeOfShift(s) ==> FreeOfShift(f.left) && FreeOfShift(f.right))
            && (f.Shift? ==> FreeOfShift(f.right) && !FreeOfShift(s))
  {
    var f := FormOf(s);
    match f
    case Signed(_) => PartFree(s, 1, |s|);
    case Log(_) => PartFree(s, 5, |s| - 1);
    case Bar(_, _) =>
      PartFree(s, 0, TopBar(s, 0).value);
      PartFree(s, TopBar(s, 0).value + 1, |s|);
    case Shift(_, _) =>
      var k := LastShift(s, |s|).value;
      PartFree(s, 1, k);
      PartFree(s, k + 2, |s| - 1);
      RightOfShift(s, k);
    case _ =>
  }

  lemma PartFree(s: string, i: nat, j: nat)
    requires '$' !in s && i <= j <= |s|
    ensures '$' !in s[i..j] && '$' !in Strip(s[i..j])
    ensures FreeOfShift(s) ==> FreeOfShift(s[i..j]) && FreeOfShift(Strip(s[i..j]))
    ensures j == |s| ==> s[i..j] == s[i..]
    ensures i == 0 ==> s[i..j] == s[..j]
  {
    var part := s[i..j];
    var a, b := StripPart(part);
    if FreeOfShift(s) {
      SliceFree(s, i, j);
      SliceFree(part, a, b);
    }
  }

  /** Every result of the parser on text without `$` is printable. */
  lemma {:induction false} ParsedIsPrintable(t: string)
    requires '$' !in t
    ensures ParsesWell(t)
    decreases |t|
  {
    var s := Strip(t);
    PartFree(t, 0, |t|);
    var i, j := StripPart(t);
    NoDollarForm(t);
    if s != "" {
      FormFree(s);
      FormParsesWell(s, FormOf(s));
    }
  }

  lemma {:induction false} FormParsesWell(s: string, f: Form)
    requires Tight(s) && '$' !in s && f == FormOf(s)
    requires f.Signed? || f.Log? ==> '$' !in f.arg && (FreeOfShift(s) ==> FreeOfShift(f.arg))
    requires f.Bar? || f.Shift? ==> '$' !in f.left && '$' !in f.right
    requires f.Bar? || f.Shift? ==> FreeOfShift(s) ==> FreeOfShift(f.left) && FreeOfShift(f.right)
    requires f.Shift? ==> FreeOfShift(f.right) && !FreeOfShift(s)
    ensures ParseForm(s, f).Some? ==> Printable(ParseForm(s, f).value)
    ensures ParseForm(s, f).Some? ==> FreeOfShift(s) ==> NoShift(ParseForm(s, f).value)
    decreases |s|, 0
  {
    match f
    case Signed(a) => ParsedIsPrintable(a);
    case Log(a) => ParsedIsPrintable(a);
    case Bar(l, r) =>
      ParsedIsPrintable(l);
      ParsedIsPrintable(r);
      if Parse(l).Some? { LeftOfBar(s, TopBar(s, 0).value); }
    case Shift(l, r) =>
      ParsedIsPrintable(l);
      ParsedIsPrintable(r);
    case _ =>
  }

  lemma {:induction false} ParsedHasNoRaw(t: string)
    ensures Parse(t).Some? ==> NoRaw(Parse(t).value)
    decreases |t|, 1
  {
    FormHasNoRaw(Unwrap(Strip(t)), FormOf(Unwrap(Strip(t))));
  }

  lemma {:induction false} FormHasNoRaw(s: string, f: Form)
    requires f == FormOf(s)
    ensures ParseForm(s, f).Some? ==> NoRaw(ParseForm(s, f).value)
    decreases |s|, 0
  {
    match f
    case Signed(a) => ParsedHasNoRaw(a);
    case Log(a) => ParsedHasNoRaw(a);
    case Bar(l, r) =>
      ParsedHasNoRaw(l);
      ParsedHasNoRaw(r);
    case Shift(l, r) =>
      ParsedHasNoRaw(l);
      ParsedHasNoRaw(r);
    case _ =>
  }

  lemma NoDollarInteger(v: int)
    ensures '$' !in Integer(v)
  {
    DecimalReadsBack(if v < 0 then -v else v);
  }

  lemma {:induction false} NoDollarPrinted(e: ImmExpr)
    requires NoRaw(e)
    ensures '$' !in Print(e)
    decreases e
  {
    match e
    case ImmRef(id) => NoDollarInteger(id);
    case IntLit(v) => NoDollarInteger(v);
    case Neg(a) => NoDollarPrinted(a);
    case BitOr(l, r) =>
      NoDollarPrinted(l);
      NoDollarPrinted(r);
    case ShiftLeft(l, r) =>
      NoDollarPrinted(l);
      NoDollarPrinted(r);
    case Log2(a) => NoDollarPrinted(a);
    case _ =>
  }

  /** Printing and parsing is the identity exactly on the printable expressions. */
  lemma RoundTripIffPrintable(e: ImmExpr)
    ensures Parse(Print(e)) == Some(e) <==> Printable(e)
  {
    if Printable(e) { PrintReadsBack(e); }
    if Parse(Print(e)) == Some(e) {
      ParsedHasNoRaw(Print(e));
      NoDollarPrinted(e);
      ParsedIsPrintable(Print(e));
    }
  }

  /** A negative integer prints like the negation of its magnitude, and reads back as that. */
  lemma NegativeReadsAsNegation(n: nat)
    requires n > 0
    ensures Parse(Print(IntLit(-(n as int)))) == Some(Neg(IntLit(n)))
  {
    assert Print(IntLit(-(n as int))) == Print(Neg(IntLit(n)));
    RoundTripIffPrintable(Neg(IntLit(n)));
  }

  /** The depth scan counts the three kinds of brackets. */
  lemma BracketsArePaired(c: char)
    ensures Opens(c) <==> c == '(' || c == '[' || c == '{'
    ensures Closes(c) <==> c == ')' || c == ']' || c == '}'
  {}
}
