/**
 * The desktop calculator's input logic: the expression being typed, the rule that an
 * operator may not start the expression or follow another, and the per-key rate limit
 * whose window grows with each quick repeat. Evaluation itself is an input.
 */
module Calculator {
  import opened Common

  /** Seconds a key must wait per recorded press count. */
  const PRESS_DELAY: real := 0.1

  predicate IsOperator(c: char) {
    c == '+' || c == '-' || c == '*' || c == '/'
  }

  /**
   * The calculator's variables: the expression, whether it ends in an operator, the
   * text on the display, and for each non-operator key its last accepted press time and
   * its press count (the `count_` entries of the same dictionary in the program).
   */
  datatype Calc = Calc(expression: string, lastOperator: bool, display: string,
                       pressTime: map<char, real>, pressCount: map<char, int>)

  const INIT: Calc := Calc("", false, "", map[], map[])

  /** The press count of a key, 1 when none is recorded. */
  function CountOf(c: Calc, key: char): int {
    if key in c.pressCount then c.pressCount[key] else 1
  }

  /**
   * `can_press_number`: a key pressed before is refused while fewer than
   * `PRESS_DELAY * count` seconds have passed since its last accepted press; otherwise
   * its count goes up by one (or starts at 1) and its time becomes `now`.
   */
  function CanPressNumber(c: Calc, key: char, now: real): (r: (bool, Calc))
    ensures !r.0 <==> key in c.pressTime && now - c.pressTime[key] < PRESS_DELAY * CountOf(c, key) as real
    ensures !r.0 ==> r.1 == c
    ensures r.0 ==> r.1.pressTime == c.pressTime[key := now]
    ensures r.0 ==> r.1.pressCount == c.pressCount[key := if key in c.pressTime then CountOf(c, key) + 1 else 1]
    ensures r.1.expression == c.expression && r.1.lastOperator == c.lastOperator && r.1.display == c.display
  {
    if key in c.pressTime then
      var diff := now - c.pressTime[key];
      if diff < PRESS_DELAY * CountOf(c, key) as real then (false, c)
      else (true, c.(pressTime := c.pressTime[key := now], pressCount := c.pressCount[key := CountOf(c, key) + 1]))
    else (true, c.(pressTime := c.pressTime[key := now], pressCount := c.pressCount[key := 1]))
  }

  /** Every recorded count set back to 1. */
  function ResetCounts(counts: map<char, int>): (r: map<char, int>)
    ensures r.Keys == counts.Keys && forall k :: k in r ==> r[k] == 1
  {
    map k | k in counts :: 1
  }

  /**
   * `press`: an operator is appended only to a non-empty expression that does not already
   * end in one, and it resets all press counts; any other key is appended when the rate
   * limit allows. An accepted key is shown on the display.
   */
  function Press(c: Calc, key: char, now: real): (r: Calc)
    ensures r.expression == c.expression || r.expression == c.expression + [key]
    ensures IsOperator(key) ==>
      (r.expression == c.expression + [key] <==> c.expression != "" && !c.lastOperator)
    ensures IsOperator(key) && r.expression != c.expression ==>
      r.lastOperator && r.pressTime == c.pressTime && r.pressCount == ResetCounts(c.pressCount)
    ensures !IsOperator(key) ==> (r.expression == c.expression + [key] <==> CanPressNumber(c, key, now).0)
    ensures !IsOperator(key) && r.expression != c.expression ==>
      !r.lastOperator &&
      r.pressTime == CanPressNumber(c, key, now).1.pressTime && r.pressTime[key] == now &&
      r.pressCount == CanPressNumber(c, key, now).1.pressCount &&
      r.pressCount[key] == (if key in c.pressTime then CountOf(c, key) + 1 else 1)
    ensures r.expression == c.expression ==> r == c
    ensures r.expression != c.expression ==> r.display == r.expression
  {
    if IsOperator(key) then
      if c.expression == "" || c.lastOperator then c
      else c.(expression := c.expression + [key], lastOperator := true, display := c.expression + [key],
              pressCount := ResetCounts(c.pressCount))
    else
      var (ok, c1) := CanPressNumber(c, key, now);
      if !ok then c
      else c1.(expression := c.expression + [key], lastOperator := false, display := c.expression + [key])
  }

  /**
   * `equalpress` with the evaluation's printed result as input (None when evaluation
   * raises): the result becomes the expression, or the display shows "Error" and the
   * expression empties; either way the operator flag and all press records are cleared.
   */
  function EqualPress(c: Calc, total: Option<string>): (r: Calc)
    ensures !r.lastOperator && r.pressTime == map[] && r.pressCount == map[]
    ensures total.Some? ==> r.expression == total.value && r.display == total.value
    ensures total.None? ==> r.expression == "" && r.display == "Error"
  {
    match total
    case Some(t) => Calc(t, false, t, map[], map[])
    case None => Calc("", false, "Error", map[], map[])
  }

  /** `clear`: back to the initial state, from which presses keep the expression well formed. */
  function Clear(c: Calc): (r: Calc)
    ensures r == INIT && WellFormed(r)
  {
    Calc("", false, "", map[], map[])
  }

  /**
   * What `press` maintains: the expression does not start with an operator, has no two
   * operators in a row, and the flag says whether it ends in one.
   */
  predicate WellFormed(c: Calc) {
    (|c.expression| > 0 ==> !IsOperator(c.expression[0])) &&
    (forall i :: 0 < i < |c.expression| && IsOperator(c.expression[i]) ==> !IsOperator(c.expression[i - 1])) &&
    (c.lastOperator <==> |c.expression| > 0 && IsOperator(c.expression[|c.expression| - 1]))
  }

  lemma PressKeepsWellFormed(c: Calc, key: char, now: real)
    requires WellFormed(c)
    ensures WellFormed(Press(c, key, now))
  {
    var r := Press(c, key, now);
    if r.expression != c.expression {
      assert forall i :: 0 <= i < |c.expression| ==> r.expression[i] == c.expression[i];
    }
  }

  /** A run of button presses: each key with the time it is pressed. */
  function PressAll(c: Calc, keys: seq<(char, real)>): Calc
    decreases |keys|
  {
    if |keys| == 0 then c else PressAll(Press(c, keys[0].0, keys[0].1), keys[1..])
  }

  /** Starting from a cleared calculator, no run of presses produces a leading or doubled operator. */
  lemma {:induction false} PressesStayWellFormed(c: Calc, keys: seq<(char, real)>)
    requires WellFormed(c)
    ensures WellFormed(PressAll(c, keys))
    decreases |keys|
  {
    if |keys| > 0 {
      PressKeepsWellFormed(c, keys[0].0, keys[0].1);
      PressesStayWellFormed(Press(c, keys[0].0, keys[0].1), keys[1..]);
    }
  }

  /**
   * After a key is accepted at time `t`, pressing it again sooner than `PRESS_DELAY`
   * times its new count is refused; the count started at 1 or has grown by one.
   */
  lemma RepeatWithinWindowRefused(c: Calc, key: char, t: real, t2: real)
    requires !IsOperator(key) && CanPressNumber(c, key, t).0
    requires t2 - t < PRESS_DELAY * CountOf(Press(c, key, t), key) as real
    ensures var c1 := Press(c, key, t);
      CountOf(c1, key) == (if key in c.pressTime then CountOf(c, key) + 1 else 1) && Press(c1, key, t2) == c1
  {
  }

  /**
   * After a key is accepted at time `t`, pressing it again once `PRESS_DELAY` times its
   * new count has passed is accepted: the key is appended, its time becomes `t2` and its
   * count grows by one.
   */
  lemma RepeatAfterWindowAccepted(c: Calc, key: char, t: real, t2: real)
    requires !IsOperator(key) && CanPressNumber(c, key, t).0
    requires t2 - t >= PRESS_DELAY * CountOf(Press(c, key, t), key) as real
    ensures var c1 := Press(c, key, t);
      var c2 := Press(c1, key, t2);
      c2.expression == c1.expression + [key] && c2.pressTime[key] == t2 &&
      CountOf(c2, key) == CountOf(c1, key) + 1
  {
  }
}
