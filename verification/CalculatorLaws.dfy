/**
 What the calculator's state machine computes: an invariant of every run, entries as decimal
 notation, and whole expressions as a left-to-right fold with division by zero as the only error.
 */
module CalculatorLaws {
  import opened Calculator
  import opened Wrappers

  // ---- Runs and their invariant ----

  function Pow10(n: nat): (r: real)
    ensures r >= 1.0
  {
    if n == 0 then 1.0 else 10.0 * Pow10(n - 1)
  }

  /** The weight of some place behind the decimal point. */
  ghost predicate IsWeight(f: real) { exists n: nat :: n >= 1 && f == Pow10(n) }

  predicate HasOperator(s: State) { s in {Result, OpEntered, Negated2, Zero2, Int2, Frac2, Error} }

  ghost predicate Good(m: Machine) {
    var s, c := m.state, m.ctx;
    && (if s == Frac1 || s == Frac2 then IsWeight(c.factor) else c.factor == 1.0)
    && (s == Begin ==> c.operand1 == ZERO)
    && (s == Negated1 || s == Zero1 ==> c.operand1.mag == 0.0)
    && (s == OpEntered ==> c.operand2 == ZERO)
    && (s == Negated2 || s == Zero2 ==> c.operand2.mag == 0.0)
    && (HasOperator(s) ==> c.op != IDLE)
    && (s == Error ==> c.op == DIVIDE && c.operand2.mag == 0.0)
    && (s == Result ==> c.op == DIVIDE ==> c.operand2.mag != 0.0)
  }

  lemma WeightsGrow(f: real)
    requires IsWeight(f)
    ensures f >= 10.0 && IsWeight(f * 10.0)
  {
    var n: nat :| n >= 1 && f == Pow10(n);
    assert Pow10(n + 1) == 10.0 * f;
    assert Pow10(n) == 10.0 * Pow10(n - 1);
  }

  lemma FirstWeight()
    ensures IsWeight(10.0)
  {
    assert Pow10(1) == 10.0 * Pow10(0);
  }

  lemma GoodFactor(m: Machine)
    requires Good(m)
    ensures m.ctx.factor >= 1.0
  {
    if IsWeight(m.ctx.factor) { WeightsGrow(m.ctx.factor); }
  }

  /** In front of the point a digit goes to the end of the number, sign and all. */
  lemma InsertWhole(n: Num, d: nat)
    ensures Insert(n, 1.0, d) == (Number(n.neg, 10.0 * n.mag + d as real), 1.0)
  {}

  lemma InsertWeight(n: Num, f: real, d: nat)
    requires IsWeight(f)
    ensures f >= 10.0 && IsWeight(Insert(n, f, d).1)
  {
    WeightsGrow(f);
  }

  lemma FractionDigitKeeps(m: Machine, d: nat)
    requires Good(m) && d <= 9 && (m.state == Frac1 || m.state == Frac2)
    ensures m.ctx.factor >= 1.0 && Good(OnDigit(m.state, m.ctx, d))
  {
    hide Insert, IsWeight;
    WeightsAbove1(m.ctx.factor);
    InsertWeight(if m.state == Frac1 then m.ctx.operand1 else m.ctx.operand2, m.ctx.factor, d);
  }

  lemma WeightsAbove1(f: real)
    requires IsWeight(f)
    ensures f > 1.0
  {
    WeightsGrow(f);
  }

  lemma WholeDigitKeeps(m: Machine, d: nat)
    requires Good(m) && d <= 9 && m.state != Frac1 && m.state != Frac2
    ensures m.ctx.factor >= 1.0 && Good(OnDigit(m.state, m.ctx, d))
  {
    hide Insert, Add, CopySign;
    InsertWhole(m.ctx.operand1, d);
    InsertWhole(m.ctx.operand1, 0);
    InsertWhole(ZERO, d);
    InsertWhole(ZERO, 0);
    InsertWhole(m.ctx.operand2, d);
    InsertWhole(m.ctx.operand2, 0);
  }

  lemma PointKeeps(m: Machine)
    requires Good(m)
    ensures m.ctx.factor >= 1.0 && Good(OnPoint(m.state, m.ctx))
  {
    GoodFactor(m);
    FirstWeight();
  }

  lemma CommandKeeps(m: Machine, e: Event)
    requires Good(m) && (e.Operator? || e.Equals? || e.ClearEntry? || e.Clear?)
    ensures m.ctx.factor >= 1.0 && Good(Step(m, e))
  {
    hide Add, Mul, Div, Insert, IsWeight;
    GoodFactor(m);
  }

  lemma StepKeeps(m: Machine, e: Event)
    requires Good(m)
    ensures m.ctx.factor >= 1.0 && Good(Step(m, e))
  {
    hide OnDigit, OnPoint, OnOperator, OnEquals, OnClearEntry, OnClear;
    GoodFactor(m);
    if e.Digit0? || e.Digit? {
      var d := if e.Digit? then e.d else 0;
      if m.state == Frac1 || m.state == Frac2 {
        FractionDigitKeeps(m, d);
      } else {
        WholeDigitKeeps(m, d);
      }
    } else if e.Point? {
      PointKeeps(m);
    } else if e.TurnOn? || e.TurnOff? {
    } else {
      CommandKeeps(m, e);
    }
  }

  ghost function Run(m: Machine, es: seq<Event>): (r: Machine)
    requires Good(m)
    ensures Good(r)
    decreases |es|
  {
    if es == [] then m
    else
      var before := Run(m, es[..|es| - 1]);
      StepKeeps(before, es[|es| - 1]);
      Step(before, es[|es| - 1])
  }

  /** In every state the machine can reach from power-up. */
  lemma Reachable(es: seq<Event>)
    ensures INITIAL.state == Off && Good(INITIAL) && Good(Run(INITIAL, es))
  {}

  lemma RunSnoc(m: Machine, es: seq<Event>, e: Event)
    requires Good(m)
    ensures Run(m, es).ctx.factor >= 1.0 && Run(m, es + [e]) == Step(Run(m, es), e)
  {
    assert (es + [e])[..|es|] == es;
    GoodFactor(Run(m, es));
  }

  lemma {:induction false} RunConcat(m: Machine, a: seq<Event>, b: seq<Event>)
    requires Good(m)
    ensures Run(m, a + b) == Run(Run(m, a), b)
    decreases |b|
  {
    if b == [] {
      assert a + b == a;
    } else {
      hide Run, Good, Step;
      var init, e := b[..|b| - 1], b[|b| - 1];
      RunConcat(m, a, init);
      assert init + [e] == b;
      RunSnoc(Run(m, a), init, e);
      assert a + b == (a + init) + [e];
      RunSnoc(m, a + init, e);
    }
  }

  // ---- Numbers as typed ----

  type Decimal = d: nat | d <= 9

  /** Minus signs, the digits before the point and, if the point was pressed, those behind it. */
  datatype Entry = Entry(minuses: nat, ints: seq<Decimal>, frac: Option<seq<Decimal>>)

  /** A number was really typed: a digit or the point. */
  predicate Complete(n: Entry) { n.ints != [] || n.frac.Some? }

  function Key(d: Decimal): Event { if d == 0 then Digit0 else Digit(d) }

  function Keys(ds: seq<Decimal>): seq<Event> { seq(|ds|, i requires 0 <= i < |ds| => Key(ds[i])) }

  function Typed(n: Entry): seq<Event> {
    seq(n.minuses, _ => Operator(MINUS)) + Keys(n.ints)
    + if n.frac.Some? then [Point] + Keys(n.frac.value) else []
  }

  function IntValue(ds: seq<Decimal>): nat {
    if ds == [] then 0 else 10 * IntValue(ds[..|ds| - 1]) + ds[|ds| - 1]
  }

  /** Decimal notation: all the digits as one whole number, divided by the weight of the last. */
  function Magnitude(n: Entry): real {
    if n.frac.None? then IntValue(n.ints) as real
    else IntValue(n.ints + n.frac.value) as real / Pow10(|n.frac.value|)
  }

  /** The sign is kept in front of a zero too. */
  function ValueOf(n: Entry): Num {
    NotNegative(n);
    Number(n.minuses % 2 == 1, Magnitude(n))
  }

  lemma NotNegative(n: Entry)
    ensures Magnitude(n) >= 0.0
  {
    if n.frac.Some? {
      NotNegativeQuotient(IntValue(n.ints + n.frac.value) as real, Pow10(|n.frac.value|));
    }
  }

  lemma NotNegativeQuotient(x: real, y: real)
    requires x >= 0.0 && y >= 1.0
    ensures x / y >= 0.0
  {
    QuotientSign(x, y);
  }

  predicate AllZero(ds: seq<Decimal>) { forall i :: 0 <= i < |ds| ==> ds[i] == 0 }

  /** Where an entry leads from Begin, or for the second operand from OpEntered. */
  function StateAfter(second: bool, n: Entry): State {
    if n.frac.Some? then (if second then Frac2 else Frac1)
    else if n.ints != [] then
      if AllZero(n.ints) then (if second then Zero2 else Zero1) else if second then Int2 else Int1
    else if n.minuses > 0 then (if second then Negated2 else Negated1)
    else if second then OpEntered
    else Begin
  }

  function Weight(n: Entry): real { if n.frac.Some? then Pow10(|n.frac.value| + 1) else 1.0 }

  /** The machine with the entry in its operand and everything else as it was. */
  function After(second: bool, m: Machine, n: Entry): Machine {
    var c := m.ctx.(factor := Weight(n));
    Machine(StateAfter(second, n), if second then c.(operand2 := ValueOf(n)) else c.(operand1 := ValueOf(n)))
  }

  // ---- One key at a time ----

  lemma IntSnoc(ds: seq<Decimal>, d: Decimal)
    ensures IntValue(ds + [d]) == 10 * IntValue(ds) + d
  {
    assert (ds + [d])[..|ds|] == ds;
  }

  lemma AppendQuotient(v: real, p: real, d: real)
    requires p >= 1.0
    ensures v / p + d / (10.0 * p) == (10.0 * v + d) / (10.0 * p)
  {
    var x, y, z := v / p, d / (10.0 * p), (10.0 * v + d) / (10.0 * p);
    assert x * p == v && y * (10.0 * p) == d && z * (10.0 * p) == 10.0 * v + d;
    assert (x + y - z) * (10.0 * p) == 0.0;
  }

  lemma {:induction false} ZeroValue(ds: seq<Decimal>)
    requires AllZero(ds)
    ensures IntValue(ds) == 0
    decreases |ds|
  {
    if ds == [] {
    } else {
      ZeroValue(ds[..|ds| - 1]);
    }
  }

  lemma MinusKey(second: bool, m: Machine, n: Entry)
    requires n.ints == [] && n.frac.None?
    ensures Step(After(second, m, n), Operator(MINUS)) == After(second, m, n.(minuses := n.minuses + 1))
  {}

  lemma ZerosSnoc(ds: seq<Decimal>, d: Decimal)
    ensures AllZero(ds + [d]) <==> AllZero(ds) && d == 0
  {
    assert ds == (ds + [d])[..|ds|] && (ds + [d])[|ds|] == d;
    assert forall i :: 0 <= i < |ds| ==> (ds + [d])[i] == ds[i];
  }

  function Operand(second: bool, c: Context): Num { if second then c.operand2 else c.operand1 }

  function WithOperand(second: bool, c: Context, n: Num): Context {
    if second then c.(operand2 := n) else c.(operand1 := n)
  }

  predicate BeforeDigits(second: bool, s: State) {
    if second then s == OpEntered || s == Negated2 || s == Zero2 else s == Begin || s == Negated1 || s == Zero1
  }

  lemma WholeDigit(second: bool, m: Machine, d: Decimal)
    requires m.ctx.factor == 1.0
    requires BeforeDigits(second, m.state) || m.state == if second then Int2 else Int1
    requires BeforeDigits(second, m.state) ==> Operand(second, m.ctx).mag == 0.0
    requires m.state == Begin ==> m.ctx.operand1 == ZERO
    ensures var n := Operand(second, m.ctx);
            var zero := d == 0 && BeforeDigits(second, m.state);
            var state := if zero then (if second then Zero2 else Zero1) else if second then Int2 else Int1;
            Step(m, Key(d)) == Machine(state, WithOperand(second, m.ctx, Number(n.neg, 10.0 * n.mag + d as real)))
  {
    hide Insert, Add;
    var n := Operand(second, m.ctx);
    InsertWhole(n, d);
    if d == 0 && BeforeDigits(second, m.state) {
      assert Insert(n, 1.0, 0) == (n, 1.0);
    }
  }

  lemma IntKey(second: bool, m: Machine, n: Entry, d: Decimal)
    requires n.frac.None?
    ensures Step(After(second, m, n), Key(d)) == After(second, m, n.(ints := n.ints + [d]))
  {
    hide Step, Key, AllZero, IntValue, Pow10;
    IntSnoc(n.ints, d);
    if AllZero(n.ints) { ZeroValue(n.ints); }
    if n.ints == [] { EmptyValue(); }
    ZerosSnoc(n.ints, d);
    WholeDigit(second, After(second, m, n), d);
  }

  lemma EmptyValue()
    ensures IntValue([]) == 0 && AllZero([])
  {}

  lemma PointKey(second: bool, m: Machine, n: Entry)
    requires n.frac.None?
    ensures Step(After(second, m, n), Point) == After(second, m, n.(frac := Some([])))
  {
    assert n.ints + [] == n.ints;
    assert Pow10(1) == 10.0 * Pow10(0);
  }

  lemma FracKey(second: bool, m: Machine, n: Entry, d: Decimal)
    requires n.frac.Some?
    ensures Weight(n) > 1.0
    ensures Step(After(second, m, n), Key(d)) == After(second, m, n.(frac := Some(n.frac.value + [d])))
  {
    var f := n.frac.value;
    var after := n.(frac := Some(f + [d]));
    var p := Pow10(|f|);
    assert Weight(n) == 10.0 * p && Weight(after) == Weight(n) * 10.0;
    assert Magnitude(after) == Magnitude(n) + d as real / Weight(n) by {
      assert n.ints + (f + [d]) == (n.ints + f) + [d];
      IntSnoc(n.ints + f, d);
      AppendQuotient(IntValue(n.ints + f) as real, p, d as real);
    }
    NotNegativeQuotient(d as real, Weight(n));
    NotNegative(n);
    hide Magnitude, Pow10, IntValue;
  }

  // ---- Entries ----

  /** The entry is typed where it belongs: at the start, or behind an operator. */
  ghost predicate Ready(second: bool, m: Machine) {
    Good(m) && m.state == if second then OpEntered else Begin
  }

  lemma TypedSnoc(n: Entry, d: Decimal)
    ensures n.frac.Some? ==> Typed(n.(frac := Some(n.frac.value + [d]))) == Typed(n) + [Key(d)]
    ensures n.frac.None? ==> Typed(n.(ints := n.ints + [d])) == Typed(n) + [Key(d)]
  {
    assert Keys(n.ints + [d]) == Keys(n.ints) + [Key(d)];
    if n.frac.Some? {
      assert Keys(n.frac.value + [d]) == Keys(n.frac.value) + [Key(d)];
    }
  }

  /** Typing a number puts exactly its decimal value into the operand and touches nothing else. */
  lemma {:induction false} EntryIsDecimal(second: bool, m: Machine, n: Entry)
    requires Ready(second, m)
    ensures Run(m, Typed(n)) == After(second, m, n)
    decreases n.frac.Some?, if n.frac.Some? then |n.frac.value| else 0, |n.ints|, n.minuses
  {
    hide Run, StateAfter, Good, Step;
    if n.frac.Some? && n.frac.value != [] {
      var f := n.frac.value;
      var before := n.(frac := Some(f[..|f| - 1]));
      assert f[..|f| - 1] + [f[|f| - 1]] == f;
      EntryIsDecimal(second, m, before);
      TypedSnoc(before, f[|f| - 1]);
      RunSnoc(m, Typed(before), Key(f[|f| - 1]));
      FracKey(second, m, before, f[|f| - 1]);
    } else if n.frac.Some? {
      var before := n.(frac := None);
      EntryIsDecimal(second, m, before);
      assert Typed(n) == Typed(before) + [Point];
      RunSnoc(m, Typed(before), Point);
      PointKey(second, m, before);
    } else if n.ints != [] {
      var d := n.ints[|n.ints| - 1];
      var before := n.(ints := n.ints[..|n.ints| - 1]);
      assert n == before.(ints := before.ints + [d]);
      EntryIsDecimal(second, m, before);
      TypedSnoc(before, d);
      RunSnoc(m, Typed(before), Key(d));
      IntKey(second, m, before, d);
    } else if n.minuses > 0 {
      var before := n.(minuses := n.minuses - 1);
      EntryIsDecimal(second, m, before);
      assert Typed(n) == Typed(before) + [Operator(MINUS)];
      RunSnoc(m, Typed(before), Operator(MINUS));
      MinusKey(second, m, before);
    } else {
      NothingTyped(second, m, n);
    }
  }

  lemma NothingTyped(second: bool, m: Machine, n: Entry)
    requires Ready(second, m) && n.minuses == 0 && n.ints == [] && n.frac.None?
    ensures Run(m, Typed(n)) == After(second, m, n)
  {
    assert Typed(n) == [];
  }

  /** CE takes back everything typed since the start or since the operator. */
  lemma ClearEntryUndoes(second: bool, m: Machine, n: Entry)
    requires Ready(second, m) && (n.minuses > 0 || Complete(n))
    ensures Run(m, Typed(n) + [ClearEntry]) == m
  {
    hide Run, ValueOf, Pow10;
    EntryIsDecimal(second, m, n);
    RunSnoc(m, Typed(n), ClearEntry);
  }

  lemma ResultStartsAfresh(m: Machine, e: Event)
    requires m.state == Result && m.ctx.factor == 1.0 && (e.Digit0? || e.Digit? || e.Point?)
    ensures Step(m, e) == Step(Machine(Begin, m.ctx.(operand1 := ZERO)), e)
  {}

  lemma FirstKey(n: Entry)
    requires Complete(n) && n.minuses == 0
    ensures var keys := Typed(n); keys != [] && (keys[0].Digit0? || keys[0].Digit? || keys[0].Point?)
  {
    if n.ints != [] { assert Typed(n)[0] == Key(n.ints[0]); } else { assert Typed(n)[0] == Point; }
  }

  /** A number without a minus sign, typed at a result, takes its place as if typed at the start. */
  lemma EntryAfterResult(m: Machine, n: Entry)
    requires Good(m) && m.state == Result && Complete(n) && n.minuses == 0
    ensures Run(m, Typed(n)) == After(false, m, n)
  {
    hide Run, Step, After, Typed;
    var start := Machine(Begin, m.ctx.(operand1 := ZERO));
    var keys := Typed(n);
    FirstKey(n);
    ResultStartsAfresh(m, keys[0]);
    EntryIsDecimal(false, start, n);
    assert keys == [keys[0]] + keys[1..] && [] + [keys[0]] == [keys[0]];
    RunConcat(m, [keys[0]], keys[1..]);
    RunConcat(start, [keys[0]], keys[1..]);
    RunSnoc(m, [], keys[0]);
    RunSnoc(start, [], keys[0]);
    RunEmpty(m);
    RunEmpty(start);
    SamePlace(m, n);
  }

  lemma RunEmpty(m: Machine)
    requires Good(m)
    ensures Run(m, []) == m
  {}

  lemma SamePlace(m: Machine, n: Entry)
    ensures After(false, Machine(Begin, m.ctx.(operand1 := ZERO)), n) == After(false, m, n)
  {}

  // ---- Expressions ----

  datatype Term = Term(op: KeyOperator, number: Entry)

  predicate AllComplete(ts: seq<Term>) { forall t <- ts :: Complete(t.number) }

  function Pressed(ts: seq<Term>): seq<Event> {
    if ts == [] then []
    else Pressed(ts[..|ts| - 1]) + ([Operator(ts[|ts| - 1].op)] + Typed(ts[|ts| - 1].number))
  }

  function Apply(op: KeyOperator, a: real, b: real): Option<real> {
    match op
    case PLUS => Some(a + b)
    case MINUS => Some(a - b)
    case MULTIPLY => Some(a * b)
    case DIVIDE => if b == 0.0 then None else Some(a / b)
  }

  /** The expression from left to right; None once there is a division by zero. */
  function Fold(start: real, ts: seq<Term>): Option<real> {
    if ts == [] then Some(start)
    else
      var left := Fold(start, ts[..|ts| - 1]);
      var t := ts[|ts| - 1];
      if left.None? then None else Apply(t.op, left.value, Real(ValueOf(t.number)))
  }

  /** The terms were pressed behind a number or a result, and the last one is still to be carried out. */
  ghost predicate Pending(m: Machine, start: real, ts: seq<Term>) {
    if ts == [] then (InOperand1(m.state) || m.state == Result) && Real(m.ctx.operand1) == start
    else
      var left := Fold(start, ts[..|ts| - 1]);
      var t := ts[|ts| - 1];
      if left.None? then m.state == Error
      else
        && InOperand2(m.state)
        && Real(m.ctx.operand1) == left.value
        && m.ctx.op == t.op
        && m.ctx.operand2 == ValueOf(t.number)
  }

  /** A number typed at the start can be calculated with. */
  lemma NumberIsPending(m: Machine, n: Entry)
    requires Ready(false, m) && Complete(n)
    ensures Pending(Run(m, Typed(n)), Real(ValueOf(n)), [])
  {
    EntryIsDecimal(false, m, n);
  }

  lemma PerformIsApply(c: Context)
    requires c.op != IDLE
    ensures Performed(c) <==> Apply(c.op, Real(c.operand1), Real(c.operand2)).Some?
    ensures Performed(c) ==> Apply(c.op, Real(c.operand1), Real(c.operand2)).value == Real(Perform(c).operand1)
    ensures Perform(c) == c.(operand1 := Perform(c).operand1)
    ensures !Performed(c) ==> Perform(c) == c
  {
    assert Real(Negate(c.operand2)) == -Real(c.operand2);
    assert Real(c.operand2) == 0.0 <==> c.operand2.mag == 0.0;
  }

  predicate KeyOnly(e: Event) { e.Digit0? || e.Digit? || e.Point? || e.Operator? || e.Equals? }

  /** Error ignores every key but C and off. */
  lemma {:induction false} ErrorStays(m: Machine, es: seq<Event>)
    requires Good(m) && m.state == Error && (forall e <- es :: KeyOnly(e) || e.ClearEntry? || e.TurnOn?)
    ensures Run(m, es) == m
    decreases |es|
  {
    if es == [] {
    } else {
      hide Step, Good;
      var e := es[|es| - 1];
      assert e in es;
      forall e | e in es[..|es| - 1] ensures e in es {}
      ErrorStays(m, es[..|es| - 1]);
      IgnoredKeys(m, e);
    }
  }

  lemma TypedKeysOnly(n: Entry)
    ensures forall e <- Typed(n) :: KeyOnly(e)
  {}

  /** One operator with the number behind it. */
  lemma TermKeeps(m: Machine, start: real, ts: seq<Term>, t: Term)
    requires Good(m) && Complete(t.number) && Pending(m, start, ts)
    ensures Pending(Run(m, [Operator(t.op)] + Typed(t.number)), start, ts + [t])
  {
    RunConcat(m, [Operator(t.op)], Typed(t.number));
    RunSnoc(m, [], Operator(t.op));
    assert [] + [Operator(t.op)] == [Operator(t.op)];
    var next := Run(m, [Operator(t.op)]);
    assert next == Step(m, Operator(t.op));
    assert (ts + [t])[..|ts|] == ts && (ts + [t])[|ts|] == t;
    if m.state == Error {
      ErrorStays(m, [Operator(t.op)]);
      TypedKeysOnly(t.number);
      ErrorStays(m, Typed(t.number));
    } else {
      OperatorStep(m, start, ts, t.op);
      if next.state == Error {
        TypedKeysOnly(t.number);
        ErrorStays(next, Typed(t.number));
      } else {
        EntryIsDecimal(true, next, t.number);
      }
    }
  }

  /** The operator key carries out what is pending and waits for the second operand. */
  lemma OperatorStep(m: Machine, start: real, ts: seq<Term>, op: KeyOperator)
    requires Good(m) && Pending(m, start, ts) && m.state != Error
    ensures m.ctx.factor >= 1.0
    ensures var value, next := Fold(start, ts), Step(m, Operator(op));
            if value.None? then next.state == Error
            else next.state == OpEntered && next.ctx.op == op && Real(next.ctx.operand1) == value.value
  {
    GoodFactor(m);
    if ts == [] {
    } else {
      PerformStep(m, op);
      hide Step, Apply, Real, ValueOf, IsWeight;
    }
  }

  lemma PerformStep(m: Machine, op: KeyOperator)
    requires Good(m) && InOperand2(m.state)
    ensures m.ctx.factor >= 1.0
    ensures var value := Apply(m.ctx.op, Real(m.ctx.operand1), Real(m.ctx.operand2));
            var chained, shown := Step(m, Operator(op)), Step(m, Equals);
            && (value.None? ==> chained.state == Error && shown.state == Error)
            && (value.Some? ==>
              && chained.state == OpEntered && chained.ctx.op == op && Real(chained.ctx.operand1) == value.value
              && shown.state == Result && shown.ctx.op == m.ctx.op && Real(shown.ctx.operand1) == value.value
              && shown.ctx.operand2 == m.ctx.operand2)
  {
    hide Perform, Performed, Apply, Real, IsWeight;
    GoodFactor(m);
    PerformIsApply(m.ctx);
  }

  lemma {:induction false} PressedIsPending(m: Machine, start: real, ts: seq<Term>)
    requires Good(m) && Pending(m, start, []) && AllComplete(ts)
    ensures Pending(Run(m, Pressed(ts)), start, ts)
    decreases |ts|
  {
    hide Run, Good, Pending, Typed, AllComplete;
    if ts == [] {
      RunEmpty(m);
    } else {
      var init, t := ts[..|ts| - 1], ts[|ts| - 1];
      CompleteSnoc(ts);
      PressedIsPending(m, start, init);
      RunConcat(m, Pressed(init), [Operator(t.op)] + Typed(t.number));
      TermKeeps(Run(m, Pressed(init)), start, init, t);
      assert init + [t] == ts;
    }
  }

  lemma CompleteSnoc(ts: seq<Term>)
    requires AllComplete(ts) && ts != []
    ensures AllComplete(ts[..|ts| - 1]) && Complete(ts[|ts| - 1].number)
  {
    assert ts[|ts| - 1] in ts && forall t <- ts[..|ts| - 1] :: t in ts;
  }

  /** A result on show: the value of the terms, the last operator and the last number kept. */
  ghost predicate Shows(m: Machine, start: real, ts: seq<Term>) {
    && ts != []
    && m.state == Result
    && Fold(start, ts) == Some(Real(m.ctx.operand1))
    && m.ctx.op == ts[|ts| - 1].op
    && m.ctx.operand2 == ValueOf(ts[|ts| - 1].number)
  }

  /**
   Terms typed behind a number, or behind an earlier result, and then = show the value worked out
   from left to right with no precedence, and Error exactly when a division by zero is met on the
   way.
   */
  lemma ExpressionValue(m: Machine, start: real, ts: seq<Term>)
    requires Good(m) && Pending(m, start, []) && AllComplete(ts) && ts != []
    ensures var end := Run(m, Pressed(ts) + [Equals]);
            if Fold(start, ts).None? then end.state == Error else Shows(end, start, ts)
  {
    PressedIsPending(m, start, ts);
    var before := Run(m, Pressed(ts));
    RunSnoc(m, Pressed(ts), Equals);
    if before.state == Error {
      ErrorStays(before, [Equals]);
      RunSnoc(before, [], Equals);
    } else {
      PerformStep(before, PLUS);
      hide Run, Step, Apply, Real, ValueOf, IsWeight;
    }
  }

  /** From the start: the first number, the terms and =. */
  lemma TypedExpression(m: Machine, first: Entry, ts: seq<Term>)
    requires Ready(false, m) && Complete(first) && AllComplete(ts) && ts != []
    ensures var end, start := Run(m, Typed(first) + (Pressed(ts) + [Equals])), Real(ValueOf(first));
            if Fold(start, ts).None? then end.state == Error else Shows(end, start, ts)
  {
    hide Run, Good, Pending, Shows, Fold, Real, ValueOf;
    NumberIsPending(m, first);
    RunConcat(m, Typed(first), Pressed(ts) + [Equals]);
    ExpressionValue(Run(m, Typed(first)), Real(ValueOf(first)), ts);
  }

  lemma EqualsAgain(m: Machine)
    requires Good(m) && m.state == Result
    ensures m.ctx.factor >= 1.0
    ensures var value, next := Apply(m.ctx.op, Real(m.ctx.operand1), Real(m.ctx.operand2)), Step(m, Equals);
            && value.Some? && next.state == Result && Real(next.ctx.operand1) == value.value
            && next.ctx.op == m.ctx.op && next.ctx.operand2 == m.ctx.operand2
  {
    hide Perform, Apply, Real;
    PerformIsApply(m.ctx);
  }

  /** One more = carries out the last term once more, and does not fail. */
  lemma EqualsShows(m: Machine, start: real, ts: seq<Term>)
    requires Good(m) && Shows(m, start, ts)
    ensures m.ctx.factor >= 1.0 && Shows(Step(m, Equals), start, ts + [ts[|ts| - 1]])
  {
    hide Step, Apply, Real, ValueOf, Good;
    EqualsAgain(m);
    assert (ts + [ts[|ts| - 1]])[..|ts|] == ts;
  }

  /** Every further = counts as the last term typed once more, and never fails. */
  lemma {:induction false} EqualsRepeats(m: Machine, start: real, ts: seq<Term>, n: nat)
    requires Good(m) && Pending(m, start, []) && AllComplete(ts) && ts != [] && Fold(start, ts).Some?
    ensures Shows(Run(m, Pressed(ts) + Times(n + 1, Equals)), start, ts + Times(n, ts[|ts| - 1]))
  {
    hide Run, Fold, Shows, Good, Step, Pending;
    var t := ts[|ts| - 1];
    if n == 0 {
      assert Times(1, Equals) == [Equals] && ts + Times(0, t) == ts;
      ExpressionValue(m, start, ts);
    } else {
      EqualsRepeats(m, start, ts, n - 1);
      var keys := Pressed(ts) + Times(n, Equals);
      assert Pressed(ts) + Times(n + 1, Equals) == keys + [Equals];
      RunSnoc(m, keys, Equals);
      var all := ts + Times(n - 1, t);
      EqualsShows(Run(m, keys), start, all);
      assert all[|all| - 1] == t && all + [t] == ts + Times(n, t);
    }
  }

  // ---- Starting over ----

  /** Switching on sets everything, whatever was left from before. */
  lemma PowerOn(m: Machine)
    requires Good(m) && m.state == Off
    ensures Step(m, TurnOn) == Machine(Begin, Context(Number(false, 0.0), IDLE, Number(false, 0.0), 1.0))
    ensures Run(INITIAL, [TurnOn]) == Step(m, TurnOn)
  {
    RunOne(INITIAL, TurnOn);
  }

  lemma RunOne(m: Machine, e: Event)
    requires Good(m)
    ensures m.ctx.factor >= 1.0 && Run(m, [e]) == Step(m, e)
  {
    RunSnoc(m, [], e);
    assert [] + [e] == [e];
  }

  /** C leaves the machine as if just switched on, in every state, a result or an error included. */
  lemma ClearIsPowerOn(m: Machine)
    requires Good(m) && m.state != Off
    ensures m.ctx.factor >= 1.0 && Step(m, Clear) == Run(INITIAL, [TurnOn])
  {
    GoodFactor(m);
    PowerOn(INITIAL);
  }

  /** So whatever is typed behind C gives what it gives from power-up. */
  lemma ClearStartsOver(m: Machine, keys: seq<Event>)
    requires Good(m) && m.state != Off
    ensures Run(m, [Clear] + keys) == Run(INITIAL, [TurnOn] + keys)
  {
    hide Run, Step, Good;
    Reachable([]);
    RunOne(m, Clear);
    ClearIsPowerOn(m);
    RunConcat(m, [Clear], keys);
    RunConcat(INITIAL, [TurnOn], keys);
  }

  /** A whole expression behind C shows its value, out of an error too. */
  lemma ClearedExpression(m: Machine, first: Entry, ts: seq<Term>)
    requires Good(m) && m.state != Off && Complete(first) && AllComplete(ts) && ts != []
    ensures var end := Run(m, [Clear] + (Typed(first) + (Pressed(ts) + [Equals])));
            var start := Real(ValueOf(first));
            if Fold(start, ts).None? then end.state == Error else Shows(end, start, ts)
  {
    hide Run, Step, Typed, Pressed, Shows, Fold, Real, ValueOf;
    PowerOn(INITIAL);
    RunOne(m, Clear);
    ClearIsPowerOn(m);
    RunConcat(m, [Clear], Typed(first) + (Pressed(ts) + [Equals]));
    TypedExpression(Step(m, Clear), first, ts);
  }

  /** Switching off and on does the same from any state at all. */
  lemma OffAndOn(m: Machine)
    requires Good(m)
    ensures m.ctx.factor >= 1.0 && Step(m, TurnOff).state == Off && Good(Step(m, TurnOff))
    ensures Run(m, [TurnOff, TurnOn]) == Run(INITIAL, [TurnOn])
  {
    StepKeeps(m, TurnOff);
    RunOne(m, TurnOff);
    RunSnoc(m, [TurnOff], TurnOn);
    assert [TurnOff] + [TurnOn] == [TurnOff, TurnOn];
    PowerOn(Step(m, TurnOff));
    hide Run, Good;
  }

  // ---- Keys that do nothing, and keys that correct ----

  /** The keys a state has no use for. */
  predicate Ignored(s: State, e: Event) {
    match e
    case TurnOn => s != Off
    case TurnOff => s == Off
    case Clear => s == Off
    case ClearEntry => s in {Off, Begin, Result, Error, OpEntered}
    case Digit0 => s in {Off, Error}
    case Digit(_) => s in {Off, Error}
    case Point => s in {Off, Error, Frac1, Frac2}
    case Operator(op) => s in {Off, Error} || (s in {Negated1, Negated2} && op != MINUS)
    case Equals => s !in {Result, Zero2, Int2, Frac2}
  }

  lemma IgnoredKeys(m: Machine, e: Event)
    requires Good(m) && Ignored(m.state, e)
    ensures m.ctx.factor >= 1.0 && Step(m, e) == m
  {
    GoodFactor(m);
  }

  /** Of two operators in a row the second counts, unless it is the minus sign of a number. */
  lemma OperatorReplaced(m: Machine, first: KeyOperator, second: KeyOperator)
    requires Good(m) && second != MINUS
    ensures m.ctx.factor >= 1.0
    ensures Step(m, Operator(first)).state == OpEntered ==>
              Run(m, [Operator(first), Operator(second)]) == Step(m, Operator(second))
  {
    GoodFactor(m);
    StepKeeps(m, Operator(first));
    RunOne(m, Operator(first));
    RunSnoc(m, [Operator(first)], Operator(second));
    assert [Operator(first)] + [Operator(second)] == [Operator(first), Operator(second)];
    hide Run, Good, Perform;
  }

  /** An operator at the start, the minus sign apart, takes zero for the first number. */
  lemma OperatorAtStart(m: Machine, op: KeyOperator)
    requires Ready(false, m) && op != MINUS
    ensures m.ctx.factor >= 1.0 && Run(m, [Digit0, Operator(op)]) == Step(m, Operator(op))
  {
    hide Run, Good, Insert, Add;
    GoodFactor(m);
    ZeroAtStart(m);
    RunOne(m, Digit0);
    RunSnoc(m, [Digit0], Operator(op));
    assert [Digit0] + [Operator(op)] == [Digit0, Operator(op)];
  }

  lemma ZeroAtStart(m: Machine)
    requires Ready(false, m)
    ensures m.ctx.factor >= 1.0 && m.ctx.operand1 == ZERO && Step(m, Digit0) == Machine(Zero1, m.ctx)
  {
    hide Insert;
    InsertWhole(ZERO, 0);
  }

  // ---- Worked out ----

  function Single(minus: bool, d: Decimal): Entry { Entry(if minus then 1 else 0, [d], None) }

  function SingleKeys(minus: bool, d: Decimal): seq<Event> {
    (if minus then [Operator(MINUS)] else []) + [Key(d)]
  }

  lemma SingleTyped(minus: bool, d: Decimal)
    ensures Typed(Single(minus, d)) == SingleKeys(minus, d)
    ensures Real(ValueOf(Single(minus, d))) == if minus then -(d as real) else d as real
  {
    assert Keys([d]) == [Key(d)];
    assert IntValue([d]) == d;
    var minuses := seq(Single(minus, d).minuses, _ => Operator(MINUS));
    assert minuses == if minus then [Operator(MINUS)] else [];
    assert minuses + [Key(d)] + [] == minuses + [Key(d)];
  }

  /** One digit, an operator, another digit and =, from power-up; either with a minus sign. */
  lemma TwoDigits(minus1: bool, d1: Decimal, op: KeyOperator, minus2: bool, d2: Decimal)
    ensures var a: real := if minus1 then -(d1 as real) else d1 as real;
            var b: real := if minus2 then -(d2 as real) else d2 as real;
            var keys := SingleKeys(minus1, d1) + [Operator(op)] + SingleKeys(minus2, d2);
            var end := Run(INITIAL, [TurnOn] + keys + [Equals]);
            if op == DIVIDE && d2 == 0 then end.state == Error
            else
              && end.state == Result
              && (op == PLUS ==> Real(end.ctx.operand1) == a + b)
              && (op == MINUS ==> Real(end.ctx.operand1) == a - b)
              && (op == MULTIPLY ==> Real(end.ctx.operand1) == a * b)
              && (op == DIVIDE ==> Real(end.ctx.operand1) == a / b)
  {
    hide Run, Good, Step, Typed, ValueOf, Pressed, Real, Fold, SingleKeys;
    OnIsReady();
    var on, m, n := Run(INITIAL, [TurnOn]), Single(minus1, d1), Single(minus2, d2);
    var ts := [Term(op, n)];
    SingleTyped(minus1, d1);
    SingleTyped(minus2, d2);
    OneTerm(ts[0], Real(ValueOf(m)));
    TypedExpression(on, m, ts);
    var keys := Typed(m) + (Pressed(ts) + [Equals]);
    RunConcat(INITIAL, [TurnOn], keys);
    assert [TurnOn] + keys ==
           [TurnOn] + (SingleKeys(minus1, d1) + [Operator(op)] + SingleKeys(minus2, d2)) + [Equals];
  }

  lemma OnIsReady()
    ensures Good(INITIAL) && Ready(false, Run(INITIAL, [TurnOn]))
  {
    PowerOn(INITIAL);
  }

  lemma OneTerm(t: Term, start: real)
    ensures Pressed([t]) == [Operator(t.op)] + Typed(t.number)
    ensures Fold(start, [t]) == Apply(t.op, start, Real(ValueOf(t.number)))
  {
    assert [t][..0] == [];
    assert Pressed([]) + ([Operator(t.op)] + Typed(t.number)) == [Operator(t.op)] + Typed(t.number);
  }

  /** A number with a decimal point: 12.5. */
  lemma DecimalExample()
    ensures Run(INITIAL, [TurnOn, Digit(1), Digit(2), Point, Digit(5)]) ==
            Machine(Frac1, Context(Number(false, 12.5), IDLE, Number(false, 0.0), 100.0))
  {
    hide Run, Good, Step, Typed;
    var n := Entry(0, [1, 2], Some([5]));
    OnIsReady();
    PowerOn(INITIAL);
    EntryIsDecimal(false, Run(INITIAL, [TurnOn]), n);
    RunConcat(INITIAL, [TurnOn], Typed(n));
    ExampleTyped();
    assert [TurnOn] + Typed(n) == [TurnOn, Digit(1), Digit(2), Point, Digit(5)];
    ExampleValue();
  }

  lemma ExampleTyped()
    ensures Typed(Entry(0, [1, 2], Some([5]))) == [Digit(1), Digit(2), Point, Digit(5)]
  {
    assert Keys([1, 2]) == [Digit(1), Digit(2)] && Keys([5]) == [Digit(5)];
  }

  lemma ExampleValue()
    ensures var n := Entry(0, [1, 2], Some([5])); ValueOf(n) == Number(false, 12.5) && Weight(n) == 100.0
  {
    assert [1, 2] + [5] == [1, 2, 5];
    IntSnoc([], 1);
    IntSnoc([1], 2);
    IntSnoc([1, 2], 5);
    assert [] + [1] == [1] && [1] + [2] == [1, 2];
    assert IntValue([1, 2, 5]) == 125;
    assert Pow10(1) == 10.0 * Pow10(0) && Pow10(2) == 10.0 * Pow10(1);
  }
}
