/** `lComponent`: the abstract base of every simulated body.  It holds the
    physical state, refuses direct instantiation, has a `tick` that always throws,
    and registers itself with a timer through a forwarding callback. */
module Components {
  import opened Js
  import opened Vectors
  import opened JsArrays
  import Timers

  /** The class a constructor runs for: the abstract base itself or a subclass. */
  datatype Class = LComponent | Subclass(name: string)

  datatype Component = Component(
    position: Vec,
    mass: real,
    velocity: Vec,
    accel: Vec,
    forceIn: Vec,
    friction: real,
    parent: Option<ObjRef>,
    timer: Option<ObjRef>)

  /** A timer callback: the closure `getCallback` builds around a component, or
      any other function registered with the timer. */
  datatype Callback = TickOf(target: ObjRef) | Foreign(id: nat)

  /** The fields with a plain setter and getter. */
  datatype Field = Position | Mass | Velocity | Accel | ForceIn | Friction | Parent

  /** A field's value: a vector, a number, or an object reference or null. */
  datatype Value = VecValue(vec: Vec) | Number(num: real) | ObjectOrNull(obj: Option<ObjRef>)

  const AbstractConstruction: JsError := TypeError("Cannot instantiate abstract class lComponent.")
  const AbstractTick: JsError := TypeError("Cannot call method of abstract class lComponent.")

  /** `defaultSetup()`: the state every new component starts from. */
  const Defaults: Component := Component(Zero, 0.0, Zero, Zero, Zero, 0.0, None, None)

  /** The constructor: throws for the abstract class itself; a subclass gets the
      default state (configuration arguments are not modelled). */
  function New(cls: Class): (r: Result<Component>)
    ensures r.Raised? <==> cls == LComponent
    ensures r.Raised? ==> r.error.TypeError?
    ensures r.Ok? ==> r.value.position == Zero && r.value.velocity == Zero
                      && r.value.accel == Zero && r.value.forceIn == Zero
    ensures r.Ok? ==> r.value.mass == 0.0 && r.value.friction == 0.0
    ensures r.Ok? ==> r.value.parent.None? && r.value.timer.None?
  {
    if cls == LComponent then Raised(AbstractConstruction) else Ok(Defaults)
  }

  /** The constructor as written: a subclass instance runs `setup`, which calls the
      static `defaultSetup` through the instance, where it is not defined, so
      construction throws for every class. */
  function NewAsWritten(cls: Class): (r: Result<Component>)
    ensures r.Raised? && r.error.TypeError?
    ensures r == New(cls) <==> cls == LComponent
  {
    if cls == LComponent then Raised(AbstractConstruction)
    else Raised(TypeError("this.defaultSetup is not a function"))
  }

  /** The base class `tick`: fails for every component and every delta. */
  function Tick(c: Component, deltaT: real): (r: Outcome)
    ensures r.Threw? && r.error.TypeError?
  {
    Threw(AbstractTick)
  }

  /** `getCallback(c)`: a function of the delta that calls `c.tick` with it. */
  function GetCallback(self: ObjRef): Callback {
    TickOf(self)
  }

  /** Calling a callback with a delta.  `tickOf` is the `tick` each object's class
      provides; `foreign` is the behaviour of callbacks that are not components. */
  function Invoke(cb: Callback, deltaT: real, tickOf: (ObjRef, real) -> Outcome,
                  foreign: (nat, real) -> Outcome): Outcome
  {
    match cb
    case TickOf(target) => tickOf(target, deltaT)
    case Foreign(id) => foreign(id, deltaT)
  }

  /** The closure forwards its delta to the component's own `tick` and returns its
      result; for a component whose class keeps the base `tick`, that is a throw. */
  lemma GetCallbackForwards(self: ObjRef, deltaT: real, tickOf: (ObjRef, real) -> Outcome,
                            foreign: (nat, real) -> Outcome, c: Component)
    ensures Invoke(GetCallback(self), deltaT, tickOf, foreign) == tickOf(self, deltaT)
    ensures Invoke(GetCallback(self), deltaT, (o: ObjRef, d: real) => Tick(c, d), foreign).Threw?
  {
  }

  /** The plain getters. */
  function Get(c: Component, f: Field): Value {
    match f
    case Position => VecValue(c.position)
    case Mass => Number(c.mass)
    case Velocity => VecValue(c.velocity)
    case Accel => VecValue(c.accel)
    case ForceIn => VecValue(c.forceIn)
    case Friction => Number(c.friction)
    case Parent => ObjectOrNull(c.parent)
  }

  /** The kind of value each field holds. */
  predicate Fits(f: Field, v: Value) {
    match f
    case Position | Velocity | Accel | ForceIn => v.VecValue?
    case Mass | Friction => v.Number?
    case Parent => v.ObjectOrNull?
  }

  /** The plain setters: the getter then returns the stored value, and every other
      field, the timer included, keeps its value. */
  function Set(c: Component, f: Field, v: Value): (r: Component)
    requires Fits(f, v)
    ensures Get(r, f) == v
    ensures forall g :: g != f ==> Get(r, g) == Get(c, g)
    ensures r.timer == c.timer
  {
    match f
    case Position => c.(position := v.vec)
    case Mass => c.(mass := v.num)
    case Velocity => c.(velocity := v.vec)
    case Accel => c.(accel := v.vec)
    case ForceIn => c.(forceIn := v.vec)
    case Friction => c.(friction := v.num)
    case Parent => c.(parent := v.obj)
  }

  /** Storing what a getter returned changes nothing. */
  lemma SetWhatGetReturns(c: Component, f: Field)
    ensures Fits(f, Get(c, f)) && Set(c, f, Get(c, f)) == c
  {
  }

  /** The `timer` setter: stores the timer (object `tref`, current state `t`) and
      pushes one forwarding callback onto the end of its callback array. */
  function SetTimer(c: Component, self: ObjRef, tref: ObjRef, t: Timers.Timer, h: Heap<Callback>)
    : (res: (Component, Heap<Callback>))
    requires Timers.WellFormed(t, h)
    ensures Timers.WellFormed(t, res.1)
    ensures res.0.timer == Some(tref)
    ensures forall f :: Get(res.0, f) == Get(c, f)
    ensures Timers.Callbacks(t, res.1) == Timers.Callbacks(t, h) + [GetCallback(self)]
    ensures forall q :: q in h.arrays && q != t.callbacks ==> q in res.1.arrays && res.1.arrays[q] == h.arrays[q]
  {
    var (_, h') := Timers.AddCallback(t, h, Timers.Single(GetCallback(self)));
    (c.(timer := Some(tref)), h')
  }

  /** After the setter, every firing of the timer makes the calls it made before
      and then exactly one more: the component's `tick` with the timer's delta. */
  lemma SetTimerAddsOneTick(c: Component, self: ObjRef, tref: ObjRef, t: Timers.Timer, h: Heap<Callback>)
    requires Timers.WellFormed(t, h)
    ensures var h' := SetTimer(c, self, tref, t, h).1;
            Timers.Fire(Timers.Callbacks(t, h'), t.deltaT)
            == Timers.Fire(Timers.Callbacks(t, h), t.deltaT) + [Timers.Invocation(TickOf(self), t.deltaT)]
    ensures var h' := SetTimer(c, self, tref, t, h).1;
            multiset(Timers.Callbacks(t, h'))[TickOf(self)] == multiset(Timers.Callbacks(t, h))[TickOf(self)] + 1
  {
    Timers.FireAppend(Timers.Callbacks(t, h), [GetCallback(self)], t.deltaT);
  }
}
