/**
 The elevator demo: two TinyFSM machines, the motor and the elevator, driven by one event list.

 An event goes to the motor first and to the elevator second; the elevator's entries and its
 transition action send motor events through the same list while the outer event is still being
 handled. `Sent` says what that nested dispatch amounts to.
 */
module Elevators {

  // ---- Values ----

  const MIN_INT := -0x8000_0000
  const MAX_INT := 0x7fff_ffff

  /** A C int. */
  type Floor = f: int | MIN_INT <= f <= MAX_INT

  datatype Event = MotorUp | MotorDown | MotorStop | Call(floor: Floor) | FloorSensor(floor: Floor) | Alarm

  datatype MotorState = Stopped | Up | Down

  datatype ElevatorState = Idle | Moving | Panic

  datatype Lift = Lift(motor: MotorState, direction: int, state: ElevatorState, current: Floor, dest: Floor)

  predicate ForMotor(e: Event) { e.MotorUp? || e.MotorDown? || e.MotorStop? }

  function DirectionOf(m: MotorState): int {
    match m
    case Stopped => 0
    case Up => 1
    case Down => -1
  }

  function Sign(x: int): int { if x > 0 then 1 else if x < 0 then -1 else 0 }

  function Motored(l: Lift, m: MotorState): Lift { l.(motor := m, direction := DirectionOf(m)) }

  const START: Lift := Lift(Stopped, 0, Idle, 0, 0)

  /** Idle and Panic both stop the motor on entry. */
  function Halted(l: Lift, s: ElevatorState): Lift { Motored(l, Stopped).(state := s) }

  /** One event from outside, with everything it sets off. */
  function Sent(l: Lift, e: Event): Lift
    requires e.FloorSensor? && l.state == Moving ==> MIN_INT <= l.current + l.direction <= MAX_INT
  {
    match e
    case MotorUp => Motored(l, Up)
    case MotorDown => Motored(l, Down)
    case MotorStop => Motored(l, Stopped)
    case Alarm => Halted(l, Panic)
    case Call(f) =>
      if l.state != Idle then l
      else if f == l.current then l.(dest := f)
      else Motored(l, if f > l.current then Up else Down).(dest := f, state := Moving)
    case FloorSensor(f) =>
      if l.state != Moving then l
      else if f != l.current + l.direction then Halted(l, Panic)
      else if f == l.dest then Halted(l, Idle).(current := f)
      else l.(current := f)
  }

  // ---- The machines ----

  class Motor {
    var state: MotorState
    var direction: int

    constructor ()
      ensures state == Stopped && direction == 0
    {
      state, direction := Stopped, 0;
    }

    method Enter()
      modifies this`direction
      ensures direction == DirectionOf(state)
    {
      match state {
        case Stopped => direction := 0;
        case Up => direction := 1;
        case Down => direction := -1;
      }
    }

    method Transit(s: MotorState)
      modifies this
      ensures state == s && direction == DirectionOf(s)
    {
      state := s;
      Enter();
    }

    /** Reactions are the same in every state; other events are ignored. */
    method Dispatch(e: Event)
      modifies this
      ensures e.MotorUp? ==> state == Up && direction == 1
      ensures e.MotorDown? ==> state == Down && direction == -1
      ensures e.MotorStop? ==> state == Stopped && direction == 0
      ensures !ForMotor(e) ==> state == old(state) && direction == old(direction)
    {
      match e {
        case MotorStop => Transit(Stopped);
        case MotorUp => Transit(Up);
        case MotorDown => Transit(Down);
        case _ =>
      }
    }
  }

  class Elevator {
    const motor: Motor
    var state: ElevatorState
    var currentFloor: Floor
    var destFloor: Floor

    ghost function Value(): Lift
      reads this, motor
    {
      Lift(motor.state, motor.direction, state, currentFloor, destFloor)
    }

    /** The static objects before the list is started. */
    constructor ()
      ensures fresh(motor) && Value() == START
    {
      motor := new Motor();
      state, currentFloor, destFloor := Idle, 0, 0;
    }

    /** Both machines get their initial state, then both are entered, the motor first. */
    method Start()
      modifies this, motor
      ensures Value() == Halted(old(Value()), Idle)
    {
      motor.state := Stopped;
      state := Idle;
      motor.Enter();
      Enter();
    }

    /** The event list: the motor, then the elevator. */
    method SendEvent(e: Event)
      requires e.FloorSensor? && state == Moving ==> MIN_INT <= currentFloor + motor.direction <= MAX_INT
      modifies this, motor
      ensures Value() == Sent(old(Value()), e)
      decreases if ForMotor(e) then 0 else 1, 5
    {
      motor.Dispatch(e);
      Dispatch(e);
    }

    method Dispatch(e: Event)
      requires e.FloorSensor? && state == Moving ==> MIN_INT <= currentFloor + motor.direction <= MAX_INT
      modifies this, motor
      ensures ForMotor(e) ==> Value() == old(Value())
      ensures !ForMotor(e) ==> Value() == Sent(old(Value()), e)
      decreases if ForMotor(e) then 0 else 1, 4
    {
      match e {
        case Call(floor) => if state == Idle { ReactCall(floor); }
        case FloorSensor(floor) => if state == Moving { ReactFloorSensor(floor); }
        case Alarm => Transit(Panic);
        case _ =>
      }
    }

    method ReactCall(floor: Floor)
      requires state == Idle
      modifies this, motor
      ensures Value() == Sent(old(Value()), Call(floor))
      decreases 1, 3
    {
      destFloor := floor;
      if destFloor == currentFloor { return; }
      // The action of the transition runs while the state is still Idle.
      if destFloor > currentFloor {
        SendEvent(MotorUp);
      } else if destFloor < currentFloor {
        SendEvent(MotorDown);
      }
      Transit(Moving);
    }

    method ReactFloorSensor(floor: Floor)
      requires state == Moving && MIN_INT <= currentFloor + motor.direction <= MAX_INT
      modifies this, motor
      ensures Value() == Sent(old(Value()), FloorSensor(floor))
      decreases 1, 3
    {
      var expected: Floor := currentFloor + motor.direction;
      if expected != floor {
        Transit(Panic);
      } else {
        currentFloor := floor;
        if floor == destFloor { Transit(Idle); }
      }
    }

    /** There are no exit actions; an action of the transition comes before it. */
    method Transit(s: ElevatorState)
      modifies this, motor
      ensures Value() == if s == Moving then old(Value()).(state := s) else Halted(old(Value()), s)
      decreases 1, 2
    {
      state := s;
      Enter();
    }

    method Enter()
      modifies this, motor
      ensures Value() == if state == Moving then old(Value()) else Halted(old(Value()), state)
      ensures state == old(state)
      decreases 1, 1
    {
      if state == Idle || state == Panic { SendEvent(MotorStop); }
    }
  }

  // ---- Runs ----

  /** The events the operator's panel sends. */
  type Input = e: Event | !ForMotor(e) witness Alarm

  predicate Good(l: Lift) {
    && l.direction == DirectionOf(l.motor)
    && (l.state == Idle ==> l.motor == Stopped && l.dest == l.current)
    && (l.state == Moving ==> l.motor != Stopped && l.direction == Sign(l.dest - l.current))
    && (l.state == Panic ==> l.motor == Stopped)
  }

  /** Kept by every event; in particular the floor expected next is always an int. */
  lemma SentKeeps(l: Lift, e: Input)
    requires Good(l)
    ensures l.state == Moving ==> MIN_INT <= l.current + l.direction <= MAX_INT
    ensures Good(Sent(l, e))
  {}

  /** What each event does in each state, with every field of the lift written out. */
  lemma Reactions(l: Lift, f: Floor)
    requires Good(l)
    ensures l.state == Idle ==>
              && Sent(l, Call(f)) == (if f > l.current then Lift(Up, 1, Moving, l.current, f)
                                      else if f < l.current then Lift(Down, -1, Moving, l.current, f)
                                      else l)
              && Sent(l, FloorSensor(f)) == l
    ensures l.state == Moving ==>
              && MIN_INT <= l.current + l.direction <= MAX_INT
              && Sent(l, Call(f)) == l
              && var next := if l.motor == Up then l.current + 1 else l.current - 1;
                 Sent(l, FloorSensor(f)) ==
                 if f != next then Lift(Stopped, 0, Panic, l.current, l.dest)
                 else if f == l.dest then Lift(Stopped, 0, Idle, f, f)
                 else Lift(l.motor, l.direction, Moving, f, l.dest)
    ensures l.state == Panic ==> Sent(l, Call(f)) == l && Sent(l, FloorSensor(f)) == l
    ensures Sent(l, Alarm) == Lift(Stopped, 0, Panic, l.current, l.dest)
  {}

  ghost function Run(l: Lift, es: seq<Input>): (r: Lift)
    requires Good(l)
    ensures Good(r)
    decreases |es|
  {
    if es == [] then l
    else
      var before := Run(l, es[..|es| - 1]);
      SentKeeps(before, es[|es| - 1]);
      Sent(before, es[|es| - 1])
  }

  lemma RunSnoc(l: Lift, es: seq<Input>, e: Input)
    requires Good(l)
    ensures var before := Run(l, es);
            && (before.state == Moving ==> MIN_INT <= before.current + before.direction <= MAX_INT)
            && Run(l, es + [e]) == Sent(before, e)
  {
    assert (es + [e])[..|es|] == es;
    SentKeeps(Run(l, es), e);
  }

  /** Started, the lift satisfies the invariant after any events whatever. */
  lemma Reachable(es: seq<Input>)
    ensures Halted(START, Idle) == START == Lift(Stopped, 0, Idle, 0, 0) && Good(Run(START, es))
  {}

  /** An alarm, or a floor sensor that contradicts the motor. */
  predicate Fault(l: Lift, e: Input) {
    e.Alarm? || (e.FloorSensor? && l.state == Moving && e.floor != l.current + l.direction)
  }

  ghost predicate FaultAt(l: Lift, es: seq<Input>, i: nat)
    requires Good(l) && i < |es|
  {
    Fault(Run(l, es[..i]), es[i])
  }

  ghost predicate Faulty(l: Lift, es: seq<Input>)
    requires Good(l)
  {
    exists i: nat :: i < |es| && FaultAt(l, es, i)
  }

  lemma FaultySnoc(l: Lift, es: seq<Input>, e: Input)
    requires Good(l)
    ensures Faulty(l, es + [e]) <==> Faulty(l, es) || Fault(Run(l, es), e)
  {
    var all := es + [e];
    assert all[..|es|] == es;
    forall i: nat | i < |es| ensures FaultAt(l, all, i) <==> FaultAt(l, es, i) {
      assert all[..i] == es[..i];
    }
    assert FaultAt(l, all, |es|) <==> Fault(Run(l, es), e);
  }

  /** Panic is exactly the memory of a fault: nothing else leads there and nothing leads away. */
  lemma {:induction false} PanicIffFault(l: Lift, es: seq<Input>)
    requires Good(l) && l.state != Panic
    ensures Run(l, es).state == Panic <==> Faulty(l, es)
    decreases |es|
  {
    if es == [] {
    } else {
      var init, e := es[..|es| - 1], es[|es| - 1];
      PanicIffFault(l, init);
      FaultySnoc(l, init, e);
      RunSnoc(l, init, e);
      assert init + [e] == es;
      hide Faulty, Run;
    }
  }

  /** In a panic nothing moves again. */
  lemma {:induction false} PanicIsFinal(l: Lift, es: seq<Input>)
    requires Good(l) && l.state == Panic
    ensures Run(l, es) == l
    decreases |es|
  {
    if es == [] {
    } else {
      PanicIsFinal(l, es[..|es| - 1]);
    }
  }

  /** The lift moves one floor at a time, only under a turning motor and the way it turns. */
  lemma OneFloorAtATime(l: Lift, e: Input)
    requires Good(l)
    ensures l.state == Moving ==> MIN_INT <= l.current + l.direction <= MAX_INT
    ensures var r := Sent(l, e);
            r.current != l.current ==>
              && l.state == Moving && e == FloorSensor(r.current)
              && r.current == l.current + DirectionOf(l.motor) && l.motor != Stopped
  {
    SentKeeps(l, e);
  }

  // ---- A trip ----

  function Sensors(es: seq<Input>): nat {
    if es == [] then 0 else Sensors(es[..|es| - 1]) + if es[|es| - 1].FloorSensor? then 1 else 0
  }

  /** Calls, and floor sensors that report the floors one after the other. */
  predicate OnTrack(es: seq<Input>, from: int, direction: int) {
    es == [] ||
    var init, e := es[..|es| - 1], es[|es| - 1];
    OnTrack(init, from, direction)
    && (e.Call? || (e.FloorSensor? && e.floor == from + direction * (Sensors(init) + 1)))
  }

  function Abs(x: int): nat { if x < 0 then -x else x }

  /** Underway: as many floors on as sensors were heard, calls made on the way forgotten. */
  lemma {:induction false} Underway(l: Lift, f: Floor, es: seq<Input>)
    requires Good(l) && l.state == Idle && f != l.current
    requires OnTrack(es, l.current, Sign(f - l.current)) && Sensors(es) < Abs(f - l.current)
    ensures var d := Sign(f - l.current);
            Run(l, [Call(f)] + es) == Lift(if d > 0 then Up else Down, d, Moving, l.current + d * Sensors(es), f)
    decreases |es|
  {
    if es == [] {
      RunSnoc(l, [], Call(f));
      assert [] + [Call(f)] == [Call(f)] + es;
    } else {
      var init, e := es[..|es| - 1], es[|es| - 1];
      Underway(l, f, init);
      RunSnoc(l, [Call(f)] + init, e);
      assert [Call(f)] + es == [Call(f)] + init + [e];
    }
  }

  /**
   From an accepted call exactly as many expected floor reports as floors between bring the lift
   to rest at the floor called, whatever is called meanwhile.
   */
  lemma Arrives(l: Lift, f: Floor, es: seq<Input>)
    requires Good(l) && l.state == Idle && f != l.current
    requires OnTrack(es, l.current, Sign(f - l.current)) && Sensors(es) == Abs(f - l.current) - 1
    ensures Run(l, [Call(f)] + es + [FloorSensor(f)]) == Lift(Stopped, 0, Idle, f, f)
  {
    hide Run, OnTrack, Sensors;
    Underway(l, f, es);
    RunSnoc(l, [Call(f)] + es, FloorSensor(f));
  }

  /** Each expected report brings the lift one floor nearer; a call on the way changes nothing. */
  lemma Progress(l: Lift, e: Input)
    requires Good(l) && l.state == Moving && !Fault(l, e)
    ensures MIN_INT <= l.current + l.direction <= MAX_INT
    ensures var r := Sent(l, e);
            && (e.Call? ==> r == l)
            && (e.FloorSensor? ==> Abs(r.dest - r.current) == Abs(l.dest - l.current) - 1 && r.dest == l.dest)
            && (r.state == Idle <==> r.current == r.dest)
  {
    SentKeeps(l, e);
  }

  /** A trip two floors down and one of three up again, with a call on the way that is not heard. */
  lemma TripExample()
    ensures Run(START, [Call(-2), FloorSensor(-1), FloorSensor(-2)]) == Lift(Stopped, 0, Idle, -2, -2)
    ensures Run(START, [Call(-2), FloorSensor(-1), FloorSensor(-2), Call(1), Call(5), FloorSensor(-1)]) ==
            Lift(Up, 1, Moving, -1, 1)
  {
    hide OnTrack, Good;
    Reachable([]);
    var down: seq<Input> := [FloorSensor(-1)];
    DownOne();
    Arrives(START, -2, down);
    assert [Call(-2)] + down + [FloorSensor(-2)] == [Call(-2), FloorSensor(-1), FloorSensor(-2)];
    var there: seq<Input> := [Call(-2), FloorSensor(-1), FloorSensor(-2)];
    RunSnoc(START, there, Call(1));
    RunSnoc(START, there + [Call(1)], Call(5));
    RunSnoc(START, there + [Call(1)] + [Call(5)], FloorSensor(-1));
    assert there + [Call(1)] + [Call(5)] + [FloorSensor(-1)] ==
           [Call(-2), FloorSensor(-1), FloorSensor(-2), Call(1), Call(5), FloorSensor(-1)];
  }

  lemma DownOne()
    ensures OnTrack([FloorSensor(-1)], 0, -1) && Sensors([FloorSensor(-1)]) == 1
  {
    var es: seq<Input> := [FloorSensor(-1)];
    assert es[..0] == [];
    assert Sensors(es[..0]) == 0 && OnTrack(es[..0], 0, -1);
  }
}
