/**
 The pocket calculator: a hierarchical state machine whose context holds two operands, an
 operator and the weight of the next decimal place.

 Numbers are exact, with the sign bit apart, so that a minus sign entered before a zero is kept
 as copysign keeps it on -0.0. The hfsm2 rules used (FSM/HFSM2_demo/include/hfsm2/machine.hpp):
 changing to another leaf exits the old one and enters the new; changing to the active leaf runs
 its reenter only; changing to the active composite On runs its reenter and returns it to its
 first leaf, Begin, which is a plain reenter if Begin was active.
 */
module Calculator {

  // ---- Numbers ----

  datatype Number = Number(neg: bool, mag: real)

  type Num = n: Number | n.mag >= 0.0 witness Number(false, 0.0)

  const ZERO: Num := Number(false, 0.0)

  function Real(n: Num): real { if n.neg then -n.mag else n.mag }

  function Negate(n: Num): Num { Number(!n.neg, n.mag) }

  function CopySign(d: real, n: Num): Num
    requires d >= 0.0
  {
    Number(n.neg, d)
  }

  /** The sum; a sum of zero is -0 only if both numbers carry the minus sign. */
  function Add(a: Num, b: Num): (r: Num)
    ensures Real(r) == Real(a) + Real(b)
    ensures r.mag == 0.0 ==> (r.neg <==> a.neg && b.neg)
  {
    if a.neg == b.neg then Number(a.neg, a.mag + b.mag)
    else if a.mag > b.mag then Number(a.neg, a.mag - b.mag)
    else if a.mag < b.mag then Number(b.neg, b.mag - a.mag)
    else ZERO
  }

  function Mul(a: Num, b: Num): (r: Num)
    ensures Real(r) == Real(a) * Real(b) && (r.neg <==> a.neg != b.neg)
  {
    Number(a.neg != b.neg, a.mag * b.mag)
  }

  function Div(a: Num, b: Num): (r: Num)
    requires b.mag != 0.0
    ensures Real(r) == Real(a) / Real(b) && (r.neg <==> a.neg != b.neg)
  {
    QuotientSign(a.mag, b.mag);
    Number(a.neg != b.neg, a.mag / b.mag)
  }

  lemma QuotientSign(x: real, y: real)
    requires x >= 0.0 && y > 0.0
    ensures x / y >= 0.0
    ensures -x / y == -(x / y) && x / -y == -(x / y) && -x / -y == x / y
  {
    var q := x / y;
    assert q * y == x;
    assert (-q) * y == -x && (-q) * (-y) == x && q * (-y) == -x;
  }

  // ---- Context ----

  datatype MathOperator = IDLE | PLUS | MINUS | MULTIPLY | DIVIDE

  datatype Context = Context(operand1: Num, op: MathOperator, operand2: Num, factor: real)

  function Reset(c: Context): Context { Context(ZERO, IDLE, ZERO, 1.0) }

  /** Appending a digit to a number: behind the point if the weight says so. */
  function Insert(n: Num, factor: real, digit: nat): (Num, real)
    requires factor >= 1.0
  {
    if factor > 1.0 then (Add(n, CopySign(digit as real / factor, n)), factor * 10.0)
    else
      var shifted := Number(n.neg, n.mag * 10.0);
      (Add(shifted, CopySign(digit as real, shifted)), factor)
  }

  function Insert1(c: Context, digit: nat): Context
    requires c.factor >= 1.0
  {
    var (n, f) := Insert(c.operand1, c.factor, digit);
    c.(operand1 := n, factor := f)
  }

  function Insert2(c: Context, digit: nat): Context
    requires c.factor >= 1.0
  {
    var (n, f) := Insert(c.operand2, c.factor, digit);
    c.(operand2 := n, factor := f)
  }

  /** The operation carried out, if there is one and it is not a division by zero. */
  function Performed(c: Context): (r: bool)
    ensures r <==> c.op != IDLE && (c.op == DIVIDE ==> c.operand2.mag != 0.0)
  {
    c.op in {PLUS, MINUS, MULTIPLY} || (c.op == DIVIDE && c.operand2.mag != 0.0)
  }

  function Perform(c: Context): Context {
    match c.op
    case PLUS => c.(operand1 := Add(c.operand1, c.operand2))
    case MINUS => c.(operand1 := Add(c.operand1, Negate(c.operand2)))
    case MULTIPLY => c.(operand1 := Mul(c.operand1, c.operand2))
    case DIVIDE => if c.operand2.mag != 0.0 then c.(operand1 := Div(c.operand1, c.operand2)) else c
    case IDLE => c
  }

  // ---- States and events ----

  datatype State =
    | Off | Begin | Result | Negated1 | Zero1 | Int1 | Frac1 | Error
    | OpEntered | Negated2 | Zero2 | Int2 | Frac2

  type Digit19 = d: nat | 1 <= d <= 9 witness 1

  /** The operators the keyboard sends. */
  type KeyOperator = o: MathOperator | o != IDLE witness PLUS

  datatype Event =
    | TurnOn | Clear | TurnOff | ClearEntry | Digit0 | Digit(d: Digit19) | Point
    | Operator(op: KeyOperator) | Equals

  datatype Machine = Machine(state: State, ctx: Context)

  function Entered(s: State, c: Context): Context
    requires c.factor >= 1.0
  {
    match s
    case Begin => c.(operand1 := ZERO)
    case Negated1 => c.(operand1 := Negate(c.operand1))
    case Zero1 => Insert1(c, 0)
    case OpEntered => c.(operand2 := ZERO)
    case Negated2 => c.(operand2 := Negate(c.operand2))
    case Zero2 => Insert2(c, 0)
    case Frac1 | Frac2 => c.(factor := 10.0)
    case _ => c
  }

  function Reentered(s: State, c: Context): Context
    requires c.factor >= 1.0
  {
    match s
    case Negated1 => c.(operand1 := Negate(c.operand1))
    case Zero1 => Insert1(c, 0)
    case OpEntered => c.(operand2 := ZERO)
    case Negated2 => c.(operand2 := Negate(c.operand2))
    case Zero2 => Insert2(c, 0)
    case _ => c
  }

  function Exited(s: State, c: Context): Context {
    if s == Frac1 || s == Frac2 then c.(factor := 1.0) else c
  }

  /** changeTo a leaf, with the context the reaction has left. */
  function ChangeTo(s: State, t: State, c: Context): Machine
    requires c.factor >= 1.0
  {
    Machine(t, if s == t then Reentered(t, c) else Entered(t, Exited(s, c)))
  }

  predicate InOperand1(s: State) { s in {Zero1, Int1, Frac1} }

  predicate InOperand2(s: State) { s in {Zero2, Int2, Frac2} }

  /** A digit key: zero has its own event and its own states. */
  function OnDigit(s: State, c: Context, d: nat): Machine
    requires c.factor >= 1.0 && d <= 9
  {
    match s
    case Begin | Result => ChangeTo(s, if d == 0 then Zero1 else Int1, Insert1(c.(operand1 := ZERO), d))
    case Negated1 | Zero1 => if d == 0 then ChangeTo(s, Zero1, c) else ChangeTo(s, Int1, Insert1(c, d))
    case Int1 | Frac1 => ChangeTo(s, s, Insert1(c, d))
    case OpEntered => ChangeTo(s, if d == 0 then Zero2 else Int2, Insert2(c, d))
    case Negated2 | Zero2 => if d == 0 then ChangeTo(s, Zero2, c) else ChangeTo(s, Int2, Insert2(c, d))
    case Int2 | Frac2 => ChangeTo(s, s, Insert2(c, d))
    case Off | Error => Machine(s, c)
  }

  function OnPoint(s: State, c: Context): Machine
    requires c.factor >= 1.0
  {
    if s == Begin || s == Result then ChangeTo(s, Frac1, c.(operand1 := ZERO))
    else if s in {Negated1, Zero1, Int1} then ChangeTo(s, Frac1, c)
    else if s in {OpEntered, Negated2, Zero2, Int2} then ChangeTo(s, Frac2, c)
    else Machine(s, c)
  }

  function OnOperator(s: State, c: Context, op: KeyOperator): Machine
    requires c.factor >= 1.0
  {
    if s == Begin && op == MINUS then ChangeTo(s, Negated1, c)
    else if s == Begin || s == Result || InOperand1(s) then ChangeTo(s, OpEntered, c.(op := op))
    else if s == Negated1 then (if op == MINUS then ChangeTo(s, Negated1, c) else Machine(s, c))
    else if s == OpEntered then
      (if op == MINUS then ChangeTo(s, Negated2, c) else ChangeTo(s, OpEntered, c.(op := op)))
    else if s == Negated2 then (if op == MINUS then ChangeTo(s, Negated2, c) else Machine(s, c))
    else if InOperand2(s) then
      (if Performed(c) then ChangeTo(s, OpEntered, Perform(c).(op := op)) else ChangeTo(s, Error, Perform(c)))
    else Machine(s, c)
  }

  function OnEquals(s: State, c: Context): Machine
    requires c.factor >= 1.0
  {
    if s == Result then ChangeTo(s, Result, Perform(c))
    else if InOperand2(s) then ChangeTo(s, if Performed(c) then Result else Error, Perform(c))
    else Machine(s, c)
  }

  function OnClearEntry(s: State, c: Context): Machine
    requires c.factor >= 1.0
  {
    if s == Negated1 then ChangeTo(s, Begin, c)
    else if InOperand1(s) then ChangeTo(s, Begin, c.(operand1 := ZERO))
    else if s == Negated2 then ChangeTo(s, OpEntered, c)
    else if InOperand2(s) then ChangeTo(s, OpEntered, c.(operand2 := ZERO))
    else Machine(s, c)
  }

  /** C: On is active already, so it is reentered and goes back to its first leaf. */
  function OnClear(s: State, c: Context): Machine {
    if s == Off then Machine(s, c)
    else if s == Begin then Machine(Begin, Reset(c))
    else Machine(Begin, Entered(Begin, Exited(s, Reset(c))))
  }

  function Step(m: Machine, e: Event): Machine
    requires m.ctx.factor >= 1.0
  {
    match e
    case TurnOn => if m.state == Off then Machine(Begin, Entered(Begin, Reset(m.ctx))) else m
    case TurnOff => if m.state == Off then m else Machine(Off, Exited(m.state, m.ctx))
    case Clear => OnClear(m.state, m.ctx)
    case ClearEntry => OnClearEntry(m.state, m.ctx)
    case Digit0 => OnDigit(m.state, m.ctx, 0)
    case Digit(d) => OnDigit(m.state, m.ctx, d)
    case Point => OnPoint(m.state, m.ctx)
    case Operator(op) => OnOperator(m.state, m.ctx, op)
    case Equals => OnEquals(m.state, m.ctx)
  }

  const INITIAL: Machine := Machine(Off, Context(ZERO, IDLE, ZERO, 1.0))

  // ---- The object ----

  class Calc {
    var operand1: Num
    var mathOperator: MathOperator
    var operand2: Num
    var decimalFactor: real
    var state: State

    ghost function Ctx(): Context
      reads this
    {
      Context(operand1, mathOperator, operand2, decimalFactor)
    }

    ghost function Value(): Machine
      reads this
    {
      Machine(state, Ctx())
    }

    constructor ()
      ensures Value() == INITIAL
    {
      operand1, mathOperator, operand2, decimalFactor, state := ZERO, IDLE, ZERO, 1.0, Off;
    }

    method ResetContext()
      modifies this`operand1, this`operand2, this`mathOperator, this`decimalFactor
      ensures Ctx() == Reset(old(Ctx()))
    {
      operand1 := ZERO;
      operand2 := ZERO;
      mathOperator := IDLE;
      decimalFactor := 1.0;
    }

    method InsertInOperand1(digit: nat)
      requires decimalFactor >= 1.0
      modifies this`operand1, this`decimalFactor
      ensures Ctx() == Insert1(old(Ctx()), digit)
    {
      if decimalFactor > 1.0 {
        operand1 := Add(operand1, CopySign(digit as real / decimalFactor, operand1));
        decimalFactor := decimalFactor * 10.0;
      } else {
        operand1 := Number(operand1.neg, operand1.mag * 10.0);
        operand1 := Add(operand1, CopySign(digit as real, operand1));
      }
    }

    /** The test here is for a weight other than one. */
    method InsertInOperand2(digit: nat)
      requires decimalFactor >= 1.0
      modifies this`operand2, this`decimalFactor
      ensures Ctx() == Insert2(old(Ctx()), digit)
    {
      if decimalFactor != 1.0 {
        operand2 := Add(operand2, CopySign(digit as real / decimalFactor, operand2));
        decimalFactor := decimalFactor * 10.0;
      } else {
        operand2 := Number(operand2.neg, operand2.mag * 10.0);
        operand2 := Add(operand2, CopySign(digit as real, operand2));
      }
    }

    method PerformOp() returns (ok: bool)
      modifies this`operand1
      ensures ok == Performed(old(Ctx())) && Ctx() == Perform(old(Ctx()))
    {
      match mathOperator {
        case PLUS => operand1 := Add(operand1, operand2); return true;
        case MINUS => operand1 := Add(operand1, Negate(operand2)); return true;
        case MULTIPLY => operand1 := Mul(operand1, operand2); return true;
        case DIVIDE =>
          if operand2.mag != 0.0 {
            operand1 := Div(operand1, operand2);
            return true;
          }
          return false;
        case IDLE => return false;
      }
    }

    method Enter(s: State)
      requires decimalFactor >= 1.0
      modifies this`operand1, this`operand2, this`decimalFactor
      ensures Ctx() == Entered(s, old(Ctx()))
    {
      match s {
        case Begin => operand1 := ZERO;
        case Negated1 => operand1 := Negate(operand1);
        case Zero1 => InsertInOperand1(0);
        case OpEntered => operand2 := ZERO;
        case Negated2 => operand2 := Negate(operand2);
        case Zero2 => InsertInOperand2(0);
        case Frac1 | Frac2 => decimalFactor := 10.0;
        case _ =>
      }
    }

    method Reenter(s: State)
      requires decimalFactor >= 1.0
      modifies this`operand1, this`operand2, this`decimalFactor
      ensures Ctx() == Reentered(s, old(Ctx()))
    {
      match s {
        case Negated1 => operand1 := Negate(operand1);
        case Zero1 => InsertInOperand1(0);
        case OpEntered => operand2 := ZERO;
        case Negated2 => operand2 := Negate(operand2);
        case Zero2 => InsertInOperand2(0);
        case _ =>
      }
    }

    method Exit(s: State)
      modifies this`decimalFactor
      ensures Ctx() == Exited(s, old(Ctx()))
    {
      if s == Frac1 || s == Frac2 { decimalFactor := 1.0; }
    }

    method Change(t: State)
      requires decimalFactor >= 1.0
      modifies this
      ensures Value() == ChangeTo(old(state), t, old(Ctx()))
    {
      if state == t {
        Reenter(t);
      } else {
        Exit(state);
        state := t;
        Enter(t);
      }
    }

    method ReactDigit(d: nat)
      requires decimalFactor >= 1.0 && d <= 9
      modifies this
      ensures Value() == OnDigit(old(state), old(Ctx()), d)
    {
      match state {
        case Begin | Result =>
          operand1 := ZERO;
          InsertInOperand1(d);
          Change(if d == 0 then Zero1 else Int1);
        case Negated1 | Zero1 =>
          if d == 0 {
            Change(Zero1);
          } else {
            InsertInOperand1(d);
            Change(Int1);
          }
        case Int1 | Frac1 =>
          InsertInOperand1(d);
          Change(state);
        case OpEntered =>
          InsertInOperand2(d);
          Change(if d == 0 then Zero2 else Int2);
        case Negated2 | Zero2 =>
          if d == 0 {
            Change(Zero2);
          } else {
            InsertInOperand2(d);
            Change(Int2);
          }
        case Int2 | Frac2 =>
          InsertInOperand2(d);
          Change(state);
        case Off | Error =>
      }
    }

    method ReactPoint()
      requires decimalFactor >= 1.0
      modifies this
      ensures Value() == OnPoint(old(state), old(Ctx()))
    {
      match state {
        case Begin | Result =>
          operand1 := ZERO;
          Change(Frac1);
        case Negated1 | Zero1 | Int1 => Change(Frac1);
        case OpEntered | Negated2 | Zero2 | Int2 => Change(Frac2);
        case _ =>
      }
    }

    method ReactOperator(op: KeyOperator)
      requires decimalFactor >= 1.0
      modifies this
      ensures Value() == OnOperator(old(state), old(Ctx()), op)
    {
      match state {
        case Begin =>
          if op == MINUS {
            Change(Negated1);
          } else {
            mathOperator := op;
            Change(OpEntered);
          }
        case Result | Zero1 | Int1 | Frac1 =>
          mathOperator := op;
          Change(OpEntered);
        case Negated1 =>
          if op == MINUS { Change(Negated1); }
        case OpEntered =>
          if op == MINUS {
            Change(Negated2);
          } else {
            mathOperator := op;
            Change(OpEntered);
          }
        case Negated2 =>
          if op == MINUS { Change(Negated2); }
        case Zero2 | Int2 | Frac2 =>
          var ok := PerformOp();
          if ok {
            mathOperator := op;
            Change(OpEntered);
          } else {
            Change(Error);
          }
        case Off | Error =>
      }
    }

    method ReactEquals()
      requires decimalFactor >= 1.0
      modifies this
      ensures Value() == OnEquals(old(state), old(Ctx()))
    {
      match state {
        case Result =>
          var _ := PerformOp();
          Change(Result);
        case Zero2 | Int2 | Frac2 =>
          var ok := PerformOp();
          Change(if ok then Result else Error);
        case _ =>
      }
    }

    method ReactClearEntry()
      requires decimalFactor >= 1.0
      modifies this
      ensures Value() == OnClearEntry(old(state), old(Ctx()))
    {
      match state {
        case Negated1 => Change(Begin);
        case Zero1 | Int1 | Frac1 =>
          operand1 := ZERO;
          Change(Begin);
        case Negated2 => Change(OpEntered);
        case Zero2 | Int2 | Frac2 =>
          operand2 := ZERO;
          Change(OpEntered);
        case _ =>
      }
    }

    method ReactClear()
      modifies this
      ensures Value() == OnClear(old(state), old(Ctx()))
    {
      if state != Off {
        ResetContext();
        if state != Begin {
          Exit(state);
          state := Begin;
          Enter(Begin);
        }
      }
    }

    method React(e: Event)
      requires decimalFactor >= 1.0
      modifies this
      ensures Value() == Step(old(Value()), e)
    {
      match e {
        case TurnOn =>
          if state == Off {
            ResetContext();
            state := Begin;
            Enter(Begin);
          }
        case TurnOff =>
          if state != Off {
            Exit(state);
            state := Off;
          }
        case Clear => ReactClear();
        case ClearEntry => ReactClearEntry();
        case Digit0 => ReactDigit(0);
        case Digit(d) => ReactDigit(d);
        case Point => ReactPoint();
        case Operator(op) => ReactOperator(op);
        case Equals => ReactEquals();
      }
    }
  }
}
