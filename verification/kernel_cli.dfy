/**
 * The mini-kernel's command line: the `/calc` expression evaluator and its number
 * formatting, the line editor, prefix dispatch of commands, and the VGA palette and
 * screen-clear helpers used by the graphics commands.
 */
module KernelCli {
  import opened Common
  import StringLib

  const INPUT_BUF_SIZE: int := 256
  const VGA_WIDTH: int := 320
  const VGA_HEIGHT: int := 200

  // ---------------------------------------------------------------------------
  // eval_expr

  /** The three parts `eval_expr` reads: two unsigned numbers and the operator between them. */
  datatype Expr = Expr(a: nat, op: CChar, b: nat)

  predicate AllDigits(t: seq<CChar>) {
    forall k :: 0 <= k < |t| ==> IsDigit(t[k])
  }

  /** The characters counted by `DigitRun` are digits. */
  lemma RunIsDigits(s: seq<CChar>, i: nat, q: nat)
    requires i <= q <= i + StringLib.DigitRun(s, i) && q <= |s|
    ensures AllDigits(s[i..q])
  {
    forall k | 0 <= k < q - i
      ensures IsDigit(s[i..q][k])
    {
      assert s[i..q][k] == At(s, i + k);
    }
  }

  /** Value of the run of digits at `i`; an empty run reads as 0. */
  function NumberAt(s: seq<CChar>, i: nat): nat {
    var n := StringLib.DigitRun(s, i);
    if n == 0 then 0
    else
      RunIsDigits(s, i, i + n);
      DigitsValue(s[i..i + n])
  }

  /**
   * Spaces, digits, spaces, one operator character, spaces, digits. Reading past the
   * buffer gives NUL, which stops every run.
   */
  function ParseExpr(e: seq<CChar>): Expr {
    var p0 := StringLib.SkipSpaces(e, 0);
    var p1 := StringLib.SkipSpaces(e, p0 + StringLib.DigitRun(e, p0));
    var p2 := StringLib.SkipSpaces(e, p1 + 1);
    Expr(NumberAt(e, p0), At(e, p1), NumberAt(e, p2))
  }

  /**
   * The four operations on the parsed operands. Both operands are non-negative, so
   * truncating and floor division agree; division by zero and any other operator give 0.
   */
  function Apply(op: CChar, a: nat, b: nat): int {
    if op == '+' then a + b
    else if op == '-' then a - b
    else if op == '*' then a * b
    else if op == '/' then (if b != 0 then a / b else 0)
    else 0
  }

  /** The operands and the result fit an `int`; otherwise the C code overflows. */
  predicate EvalDefined(e: seq<CChar>) {
    var x := ParseExpr(e);
    InInt32(x.a) && InInt32(x.b) && InInt32(Apply(x.op, x.a, x.b))
  }

  /** Reads a run of digits starting at `p` and accumulates its value. */
  method ReadNumber(e: seq<CChar>, p: nat) returns (value: nat, q: nat)
    ensures q == p + StringLib.DigitRun(e, p) && value == NumberAt(e, p)
  {
    var n := StringLib.DigitRun(e, p);
    value, q := 0, p;
    while IsDigit(At(e, q))
      invariant p <= q <= p + n && (q > p ==> p + n <= |e|)
      invariant q == p ==> value == 0
      invariant q > p ==> AllDigits(e[p..q]) && value == DigitsValue(e[p..q])
      decreases p + n - q
    {
      RunIsDigits(e, p, q + 1);
      assert e[p..q + 1][..q - p] == e[p..q];
      value := value * 10 + DigitValue(e[q]);
      q := q + 1;
    }
  }

  /** Skips spaces from `p`. */
  method SkipBlanks(e: seq<CChar>, p: nat) returns (q: nat)
    ensures q == StringLib.SkipSpaces(e, p)
  {
    q := p;
    while At(e, q) == ' '
      invariant p <= q && StringLib.SkipSpaces(e, q) == StringLib.SkipSpaces(e, p)
      decreases |e| - q
    {
      q := q + 1;
    }
  }

  /** The evaluator: parse, then apply the operator. */
  method EvalExpr(e: seq<CChar>) returns (r: int)
    requires EvalDefined(e)
    ensures r == Apply(ParseExpr(e).op, ParseExpr(e).a, ParseExpr(e).b)
    ensures InInt32(r)
  {
    ghost var x := ParseExpr(e);
    var p := SkipBlanks(e, 0);
    var a;
    a, p := ReadNumber(e, p);
    assert a == x.a;
    p := SkipBlanks(e, p);
    var op := At(e, p);
    assert op == x.op;
    p := SkipBlanks(e, p + 1);
    var b;
    b, p := ReadNumber(e, p);
    assert b == x.b;
    r := Apply(op, a, b);
  }

  /** An operand written as its decimal digits, directly followed by a non-digit, reads back as itself. */
  lemma {:induction false} NumberAtDigits(p: seq<CChar>, n: nat, rest: seq<CChar>)
    requires !IsDigit(At(rest, 0))
    ensures StringLib.DigitRun(p + Digits(n) + rest, |p|) == |Digits(n)|
    ensures NumberAt(p + Digits(n) + rest, |p|) == n
  {
    var d := Digits(n);
    var s := p + d + rest;
    assert s == p + (d + rest);
    StringLib.DigitRunOfDigits(d, rest, 0);
    StringLib.DigitRunShift(p, d + rest, 0);
    assert StringLib.DigitRun(s, |p|) == |d|;
    assert s[|p|..|p| + |d|] == d;
    DigitsValueOfDigits(n);
    assert NumberAt(s, |p|) == DigitsValue(d);
  }

  /** The first operand: digits at the very start, followed by a non-digit, non-space character. */
  lemma FirstNumber(e: seq<CChar>, a: nat, tail: seq<CChar>)
    requires e == Digits(a) + tail && !IsDigit(At(tail, 0)) && At(tail, 0) != ' '
    ensures var n := |Digits(a)|;
      StringLib.SkipSpaces(e, 0) == 0 && StringLib.DigitRun(e, 0) == n && NumberAt(e, 0) == a &&
      StringLib.SkipSpaces(e, n) == n && At(e, n) == At(tail, 0)
  {
    var da := Digits(a);
    assert At(e, 0) == da[0];
    assert At(e, |da|) == At(tail, 0);
    NumberAtDigits([], a, tail);
    assert [] + da + tail == e;
  }

  /** The second operand: digits after a prefix, running to the end of the text. */
  lemma LastNumber(e: seq<CChar>, head: seq<CChar>, b: nat)
    requires e == head + Digits(b)
    ensures StringLib.SkipSpaces(e, |head|) == |head| && NumberAt(e, |head|) == b
  {
    assert At(e, |head|) == Digits(b)[0];
    NumberAtDigits(head, b, []);
    assert head + Digits(b) + [] == e;
  }

  /** The parser's steps on "a op b" written without spaces. */
  lemma FormattedSteps(e: seq<CChar>, a: nat, op: CChar, b: nat)
    requires op != ' ' && !IsDigit(op)
    requires e == Digits(a) + [op] + Digits(b)
    ensures var n := |Digits(a)|;
      StringLib.SkipSpaces(e, 0) == 0 && StringLib.DigitRun(e, 0) == n && NumberAt(e, 0) == a &&
      StringLib.SkipSpaces(e, n) == n && At(e, n) == op &&
      StringLib.SkipSpaces(e, n + 1) == n + 1 && NumberAt(e, n + 1) == b
  {
    var da, db := Digits(a), Digits(b);
    assert e == da + ([op] + db);
    FirstNumber(e, a, [op] + db);
    LastNumber(e, da + [op], b);
  }

  /**
   * "a op b" written without spaces evaluates to the operation applied to a and b; in
   * particular an unknown operator gives 0.
   */
  lemma EvalOfFormatted(e: seq<CChar>, a: nat, op: CChar, b: nat)
    requires op != ' ' && !IsDigit(op)
    requires e == Digits(a) + [op] + Digits(b)
    ensures ParseExpr(e) == Expr(a, op, b)
  {
    FormattedSteps(e, a, op, b);
    ParseExprAt(e, |Digits(a)|, |Digits(a)|, |Digits(a)| + 1, a, op, b);
  }

  /**
   * A missing first operand reads as 0: when no digit follows the leading spaces, the
   * operand is 0 and the operator is the first character after those spaces ("+5" is 0 + 5).
   */
  lemma MissingOperandIsZero(e: seq<CChar>)
    requires !IsDigit(At(e, StringLib.SkipSpaces(e, 0)))
    ensures ParseExpr(e).a == 0 && ParseExpr(e).op == At(e, StringLib.SkipSpaces(e, 0))
  {
    var p0 := StringLib.SkipSpaces(e, 0);
    assert StringLib.DigitRun(e, p0) == 0;
    assert StringLib.SkipSpaces(e, p0) == p0;
  }

  /**
   * A missing second operand reads as 0: after "a op" and any spaces, a character that is
   * not a digit leaves the second operand 0.
   */
  lemma MissingSecondOperandIsZero(e: seq<CChar>, a: nat, op: CChar, k: nat, rest: seq<CChar>)
    requires op != ' ' && !IsDigit(op)
    requires At(rest, 0) != ' ' && !IsDigit(At(rest, 0))
    requires e == Digits(a) + [op] + (StringLib.Spaces(k) + rest)
    ensures ParseExpr(e) == Expr(a, op, 0)
  {
    var n := |Digits(a)|;
    assert e == Digits(a) + ([op] + (StringLib.Spaces(k) + rest));
    FirstNumber(e, a, [op] + (StringLib.Spaces(k) + rest));
    NoSecondNumber(e, a, op, k, rest);
    ParseExprAt(e, n, n, n + 1 + k, a, op, 0);
  }

  /** After "a op" and `k` spaces, a non-digit: the second operand starts there and reads as 0. */
  lemma NoSecondNumber(e: seq<CChar>, a: nat, op: CChar, k: nat, rest: seq<CChar>)
    requires At(rest, 0) != ' ' && !IsDigit(At(rest, 0))
    requires e == Digits(a) + [op] + (StringLib.Spaces(k) + rest)
    ensures StringLib.SkipSpaces(e, |Digits(a)| + 1) == |Digits(a)| + 1 + k
    ensures NumberAt(e, |Digits(a)| + 1 + k) == 0
  {
    var p := |Digits(a)| + 1 + k;
    StringLib.SkipSpacesRun(Digits(a) + [op], k, rest);
    assert e == (Digits(a) + [op] + StringLib.Spaces(k)) + rest;
    assert At(e, p) == At(rest, 0);
    assert StringLib.DigitRun(e, p) == 0;
  }

  /** The parser's result assembled from where each of its steps ends. */
  lemma ParseExprAt(e: seq<CChar>, n: nat, p1: nat, p2: nat, a: nat, op: CChar, b: nat)
    requires StringLib.SkipSpaces(e, 0) == 0 && StringLib.DigitRun(e, 0) == n && NumberAt(e, 0) == a
    requires StringLib.SkipSpaces(e, n) == p1 && At(e, p1) == op
    requires StringLib.SkipSpaces(e, p1 + 1) == p2 && NumberAt(e, p2) == b
    ensures ParseExpr(e) == Expr(a, op, b)
  {
  }

  // ---------------------------------------------------------------------------
  // /calc result formatting

  /** Reverses a buffer in place by swapping mirror positions up to the middle. */
  method ReverseInPlace(buf: seq<CChar>) returns (r: seq<CChar>)
    ensures r == Reverse(buf)
  {
    r := buf;
    var len := |buf|;
    var i := 0;
    while i < len / 2
      invariant 0 <= i <= len / 2 && |r| == len
      invariant forall k :: 0 <= k < i ==> r[k] == buf[len - 1 - k] && r[len - 1 - k] == buf[k]
      invariant forall k :: i <= k < len - i ==> r[k] == buf[k]
    {
      var tmp := r[i];
      r := r[i := r[len - 1 - i]];
      r := r[len - 1 - i := tmp];
      i := i + 1;
    }
  }

  /**
   * The calculator's own integer formatting: digits lowest first, a '-' for negative
   * results, then an in-place reversal. The text is the decimal form of the result.
   */
  method FormatCalc(result: int) returns (output: seq<CChar>)
    requires StringLib.Formattable(result)
    ensures output == Decimal(result)
  {
    var negative := false;
    var value: nat;
    if result < 0 {
      negative := true;
      value := -result;
    } else {
      value := result;
    }
    ghost var digits := Digits(value);
    var out: seq<CChar> := [];
    StringLib.PushDigit(digits, value, out);
    out := out + [DigitChar(value % 10)];
    value := value / 10;
    while value > 0
      invariant value == 0 ==> digits == Reverse(out)
      invariant value != 0 ==> digits == Digits(value) + Reverse(out)
    {
      StringLib.PushDigit(digits, value, out);
      out := out + [DigitChar(value % 10)];
      value := value / 10;
    }
    if negative {
      StringLib.ReverseSnoc(out, '-');
      out := out + ['-'];
    }
    output := ReverseInPlace(out);
  }

  /** The printed result reads back as the result; `INT_MIN` never occurs as a result. */
  lemma CalcOutputReadsBack(e: seq<CChar>, r: int)
    requires EvalDefined(e) && r == Apply(ParseExpr(e).op, ParseExpr(e).a, ParseExpr(e).b)
    ensures StringLib.Formattable(r) && StringLib.ScanInt(Decimal(r) + [NUL], 0) == StringLib.Number(r, |Decimal(r)|)
  {
    var x := ParseExpr(e);
    ApplyAboveIntMin(x.op, x.a, x.b);
    StringLib.ScanIntOfDecimal(r, [NUL]);
  }

  /** Non-negative operands within `int` never produce `INT_MIN`. */
  lemma ApplyAboveIntMin(op: CChar, a: nat, b: nat)
    requires InInt32(a) && InInt32(b)
    ensures Apply(op, a, b) > INT_MIN
  {
    if op == '/' && b != 0 {
      assert a / b >= 0;
    } else if op == '*' {
      assert a * b >= 0;
    }
  }

  // ---------------------------------------------------------------------------
  // Command dispatch

  datatype Command =
    | Hello(text: seq<CChar>)
    | Art
    | ClearScreen
    | Help
    | GfxMode
    | GfxClear
    | Calc(expr: seq<CChar>)
    | Unknown

  predicate StartsWith(line: seq<CChar>, p: seq<CChar>) {
    |p| <= |line| && line[..|p|] == p
  }

  /** The command a line selects: the first prefix that matches, in the fixed order. */
  function CommandOf(line: seq<CChar>): Command {
    if StartsWith(line, "hello ") then Hello(line[6..])
    else if StartsWith(line, "/art") then Art
    else if StartsWith(line, "/clear") then ClearScreen
    else if StartsWith(line, "/help") then Help
    else if StartsWith(line, "/gfxmode") then GfxMode
    else if StartsWith(line, "/gfxclear") then GfxClear
    else if StartsWith(line, "/calc ") then Calc(line[6..])
    else Unknown
  }

  /** `strncmp(line, p, |p|) == 0` is exactly the test that `p` starts the line. */
  lemma {:induction false} StrncmpTestsPrefix(line: seq<CChar>, p: seq<CChar>)
    requires NoNul(line) && NoNul(p)
    ensures StringLib.Upto(line + [NUL], |p|) == StringLib.Upto(p + [NUL], |p|) <==> StartsWith(line, p)
  {
    var bl, bp := line + [NUL], p + [NUL];
    assert bp[..|p|] == p;
    StringLib.UptoFull(bp, |p|);
    var u := StringLib.Upto(bl, |p|);
    if StartsWith(line, p) {
      assert bl[..|p|] == p;
      StringLib.UptoFull(bl, |p|);
    }
    assert |u| <= |line| by {
      assert forall i :: 0 <= i < |u| ==> bl[i] == u[i] && u[i] != NUL;
      assert bl[|line|] == NUL;
    }
    if u == p && |p| <= |line| {
      assert bl[..|p|] == line[..|p|];
    }
  }

  /** Compares the terminated line with the NUL-terminated literal `p` over `|p|` characters. */
  method Matches(line: seq<CChar>, p: seq<CChar>) returns (m: bool)
    requires NoNul(line) && NoNul(p)
    ensures m <==> StartsWith(line, p)
  {
    assert (p + [NUL])[|p|] == NUL;
    assert (line + [NUL])[|line|] == NUL;
    var r := StringLib.Strncmp(line + [NUL], p + [NUL], |p|);
    StrncmpTestsPrefix(line, p);
    m := r == 0;
  }

  /** The dispatch chain of the Enter handler, one `strncmp` per command. */
  method Dispatch(line: seq<CChar>) returns (cmd: Command)
    requires NoNul(line)
    ensures cmd == CommandOf(line)
  {
    var m := Matches(line, "hello ");
    if m { return Hello(line[6..]); }
    m := Matches(line, "/art");
    if m { return Art; }
    m := Matches(line, "/clear");
    if m { return ClearScreen; }
    m := Matches(line, "/help");
    if m { return Help; }
    m := Matches(line, "/gfxmode");
    if m { return GfxMode; }
    m := Matches(line, "/gfxclear");
    if m { return GfxClear; }
    m := Matches(line, "/calc ");
    if m { return Calc(line[6..]); }
    return Unknown;
  }

  /** Lines with the same prefix as an earlier command never reach a later one. */
  lemma EarlierPrefixWins(line: seq<CChar>)
    requires StartsWith(line, "/art")
    ensures CommandOf(line) == Art
  {
    assert line[0] == '/';
  }

  // ---------------------------------------------------------------------------
  // The line editor

  /** The editor's state: the characters typed since the last Enter, and the graphics flag. */
  datatype Cli = Cli(line: seq<CChar>, vgaMode: bool)
  {
    /** The line always leaves room for its terminator and never holds a NUL. */
    predicate Valid() {
      |line| < INPUT_BUF_SIZE && NoNul(line)
    }
  }

  const INIT: Cli := Cli([], false)

  /** What a command does to the screen. */
  datatype Effect = Effect(lines: seq<string>, clearText: bool, enterVga: bool, clearVga: bool)

  /** The response of a command: lines printed and screen actions, and the new graphics flag. */
  function Run(cmd: Command, vgaMode: bool): (r: (Effect, bool))
    requires cmd.Calc? ==> EvalDefined(cmd.expr)
    ensures r.1 == (vgaMode || cmd == GfxMode)
    ensures r.0.clearVga <==> cmd == GfxMode || (cmd == GfxClear && vgaMode)
  {
    match cmd
    case Hello(text) => (Effect([text], false, false, false), vgaMode)
    case Art => (Effect(["   /\\_/\\  ", "  ( o.o ) ", "   > ^ <  "], false, false, false), vgaMode)
    case ClearScreen => (Effect([], true, false, false), vgaMode)
    case Help => (Effect(HELP, false, false, false), vgaMode)
    case GfxMode => (Effect(["Switched to VGA mode 13h."], false, true, true), true)
    case GfxClear =>
      if vgaMode then (Effect(["Graphics screen cleared."], false, false, true), vgaMode)
      else (Effect(["Graphics mode not active."], false, false, false), vgaMode)
    case Calc(expr) =>
      var x := ParseExpr(expr);
      (Effect([Decimal(Apply(x.op, x.a, x.b))], false, false, false), vgaMode)
    case Unknown => (Effect(["Unknown command."], false, false, false), vgaMode)
  }

  const HELP: seq<string> := [
    "Available commands:",
    "  hello <text>  - Echo text",
    "  /art          - Display ASCII art",
    "  /clear        - Clear the screen",
    "  /help         - Show this help message",
    "  /shutdown     - Shutdown the machine",
    "  /restart      - Restart the machine",
    "  /gfxmode      - Switch to VGA 320x200 mode",
    "  /gfxclear     - Clear graphics screen",
    "  /calc <expr>  - Evaluate math (e.g., 3+4, 10-5, 6*7, 20/4)"
  ]

  /** What one key does on the screen. */
  datatype Reaction = Ignored | Erased | Echoed(c: CChar) | Ran(cmd: Command, effect: Effect)

  /** Enter on this line runs a `/calc` whose operands and result fit an `int`, or another command. */
  predicate EnterDefined(s: Cli) {
    var cmd := CommandOf(s.line);
    cmd.Calc? ==> EvalDefined(cmd.expr)
  }

  const BACKSPACE: CChar := 8 as char

  predicate IsEnter(c: CChar) {
    c == '\n' || c == '\r'
  }

  /** One key of the command loop. */
  function Step(s: Cli, c: CChar): (r: (Cli, Reaction))
    requires s.Valid() && (IsEnter(c) ==> EnterDefined(s))
    ensures r.0.Valid()
    ensures c == BACKSPACE ==> (r.1 == Erased <==> |s.line| > 0) && r.0.vgaMode == s.vgaMode
    ensures c == BACKSPACE && |s.line| > 0 ==> r.0.line == s.line[..|s.line| - 1]
    ensures IsEnter(c) ==> r.0.line == [] && r.1 == Ran(CommandOf(s.line), Run(CommandOf(s.line), s.vgaMode).0)
    ensures c != NUL && c != BACKSPACE && !IsEnter(c) ==>
      r.0.vgaMode == s.vgaMode &&
      (r.1 == Echoed(c) <==> |s.line| < INPUT_BUF_SIZE - 1) &&
      (r.1 == Echoed(c) ==> r.0.line == s.line + [c]) &&
      (r.1 != Echoed(c) ==> r.0 == s)
    ensures !s.vgaMode && r.0.vgaMode ==> r.1 == Ran(GfxMode, Run(GfxMode, false).0)
    ensures c == NUL ==> r == (s, Ignored)
    ensures IsEnter(c) ==> r.0.vgaMode == (s.vgaMode || CommandOf(s.line) == GfxMode)
    ensures s.vgaMode ==> r.0.vgaMode
  {
    if c == NUL then (s, Ignored)
    else if c == BACKSPACE then
      if |s.line| > 0 then (s.(line := s.line[..|s.line| - 1]), Erased) else (s, Ignored)
    else if IsEnter(c) then
      var cmd := CommandOf(s.line);
      var (effect, vga) := Run(cmd, s.vgaMode);
      (Cli([], vga), Ran(cmd, effect))
    else if |s.line| < INPUT_BUF_SIZE - 1 then (s.(line := s.line + [c]), Echoed(c))
    else (s, Ignored)
  }

  /** Every Enter in `keys`, typed from `s`, meets a line whose `/calc` fits an `int`. */
  predicate RunDefined(s: Cli, keys: seq<CChar>)
    requires s.Valid()
    decreases |keys|
  {
    |keys| == 0 ||
    ((IsEnter(keys[0]) ==> EnterDefined(s)) && RunDefined(Step(s, keys[0]).0, keys[1..]))
  }

  /** The command loop fed a run of keys: the editor state after the last one. */
  function Steps(s: Cli, keys: seq<CChar>): (r: Cli)
    requires s.Valid() && RunDefined(s, keys)
    ensures r.Valid()
    decreases |keys|
  {
    if |keys| == 0 then s else Steps(Step(s, keys[0]).0, keys[1..])
  }

  /** Once graphics mode is on, no run of keys turns it off: nothing in the loop resets the flag. */
  lemma {:induction false} VgaModeStays(s: Cli, keys: seq<CChar>)
    requires s.Valid() && RunDefined(s, keys) && s.vgaMode
    ensures Steps(s, keys).vgaMode
    decreases |keys|
  {
    if |keys| > 0 {
      VgaModeStays(Step(s, keys[0]).0, keys[1..]);
    }
  }

  /** From the start-up state, graphics mode is on only after some Enter ran `/gfxmode`. */
  lemma {:induction false} VgaModeNeedsGfxMode(s: Cli, keys: seq<CChar>)
    requires s.Valid() && RunDefined(s, keys) && !s.vgaMode
    requires Steps(s, keys).vgaMode
    ensures exists k :: 0 <= k < |keys| && IsEnter(keys[k]) && RunDefined(s, keys[..k]) &&
                        CommandOf(Steps(s, keys[..k]).line) == GfxMode
    decreases |keys|
  {
    var t := Step(s, keys[0]).0;
    if t.vgaMode {
      assert keys[..0] == [];
      assert IsEnter(keys[0]) && RunDefined(s, keys[..0]) && CommandOf(Steps(s, keys[..0]).line) == GfxMode;
    } else {
      VgaModeNeedsGfxMode(t, keys[1..]);
      var k :| 0 <= k < |keys[1..]| && IsEnter(keys[1..][k]) && RunDefined(t, keys[1..][..k]) &&
               CommandOf(Steps(t, keys[1..][..k]).line) == GfxMode;
      StepsPrefix(s, keys, k + 1);
      assert keys[..k + 1][1..] == keys[1..][..k];
      assert IsEnter(keys[k + 1]) && RunDefined(s, keys[..k + 1]) &&
             CommandOf(Steps(s, keys[..k + 1]).line) == GfxMode;
    }
  }

  /** A run that is well defined stays well defined on every prefix. */
  lemma {:induction false} StepsPrefix(s: Cli, keys: seq<CChar>, k: nat)
    requires s.Valid() && RunDefined(s, keys) && 0 < k <= |keys|
    ensures RunDefined(s, keys[..k])
    ensures RunDefined(Step(s, keys[0]).0, keys[1..][..k - 1])
    ensures Steps(s, keys[..k]) == Steps(Step(s, keys[0]).0, keys[1..][..k - 1])
    decreases k
  {
    assert keys[..k][0] == keys[0];
    assert keys[..k][1..] == keys[1..][..k - 1];
    if k > 1 {
      StepsPrefix(Step(s, keys[0]).0, keys[1..], k - 1);
    }
  }

  // ---------------------------------------------------------------------------
  // VGA helpers

  /** The grey ramp loaded into the 6-bit DAC: entry `i` scaled from 0..255 to 0..63. */
  function PaletteValue(i: int): (v: int)
    requires 0 <= i < 256
    ensures 0 <= v <= 63
    ensures i == 0 ==> v == 0
    ensures i == 255 ==> v == 63
  {
    i * 63 / 255
  }

  lemma PaletteMonotone(i: int, j: int)
    requires 0 <= i <= j < 256
    ensures PaletteValue(i) <= PaletteValue(j)
  {
    MulMonotone(i, j, 63);
  }

  /** The 768 DAC data writes: red, green and blue of each entry, all three the same value. */
  method VgaSetPalette() returns (dac: seq<Byte>)
    ensures |dac| == 3 * 256
    ensures forall k :: 0 <= k < |dac| ==> dac[k] == PaletteValue(k / 3)
  {
    dac := [];
    var i := 0;
    while i < 256
      invariant 0 <= i <= 256 && |dac| == 3 * i
      invariant forall k :: 0 <= k < |dac| ==> dac[k] == PaletteValue(k / 3)
    {
      var val := i * 63 / 255;
      MulDivMod(i, 0, 3);
      MulDivMod(i, 1, 3);
      MulDivMod(i, 2, 3);
      dac := dac + [val, val, val];
      i := i + 1;
    }
  }

  /** Fills the whole 320 x 200 frame buffer with one colour. */
  method VgaClearScreen(vram: seq<Byte>, color: Byte) returns (v: seq<Byte>)
    requires |vram| == VGA_WIDTH * VGA_HEIGHT
    ensures |v| == VGA_WIDTH * VGA_HEIGHT
    ensures forall k :: 0 <= k < |v| ==> v[k] == color
  {
    v := vram;
    var i := 0;
    while i < VGA_WIDTH * VGA_HEIGHT
      invariant 0 <= i <= VGA_WIDTH * VGA_HEIGHT && |v| == |vram|
      invariant forall k :: 0 <= k < i ==> v[k] == color
    {
      v := v[i := color];
      i := i + 1;
    }
  }
}
