# Gravity-prototype core in Dafny

This project models the simulation core of a small hierarchical gravity
prototype written in JavaScript. It covers three classes:

- `lComponent` is the abstract base of every simulated body. It holds
  position, velocity, acceleration, mass, accumulated force, friction, a
  parent and a timer.
- `lContainer` is a component that owns a list of child components. On each
  tick it gives every pair of children equal and opposite forces.
- `lTimer` is a periodic ticker. It calls an ordered list of callbacks with
  its interval length, and it is started and stopped through an interval
  handle.

The model is functional: immutable datatypes and pure functions, plus two
methods for the tick's pair loop: `Containers.Tick` for the outer loop and
`Containers.VisitRow` for the inner one.

- JavaScript arrays are objects held by reference. Module `JsArrays` keeps
  them in a small heap (`Ref` to contents), so that copying (`slice(0)`,
  `concat`) and sharing (plain assignment, `push`) stay distinct.
- The force law is a parameter: `ForceLaw = (ObjRef, ObjRef) -> Vec` gives
  the force into `p2` for a pair `(p1, p2)`. Only the structure around it is
  modelled: which pairs are visited, in which order, and that `p1` gets the
  negation of what `p2` gets.
- `addForceIn` has no body in the source. So a sweep's effect is the list of
  `addForceIn(target, force)` calls it makes (`ForceCall`). Nothing is
  invented about how a component accumulates force.
- The host's `setInterval` handle is an opaque number (`Timers.Handle`). A
  timer's life is a list of events (`Timers.Event`): start, stop, an interval
  elapsing, and `addCallback`. `Timers.Run` returns the calls those events make.
- Vectors have `real` components. Callbacks are data: `Components.Callback`
  is either the closure `getCallback` builds around a component (`TickOf`) or
  any other function (`Foreign`).

Modules: `Js` (object identity, `Option`, exceptions), `JsArrays`,
`Vectors`, `PairOrder` (the index-pair order of the sweep), `Timers`,
`Components` and `Containers`.

Where a modelled operation cannot run as written, the model follows the
evident intent. Each such place is logged under "## Findings", with both the
as-written behaviour and the corrected one modelled. Defects outside the
modelled operations, in module loading or in the unmodelled `setup`, are
listed under "## Left out" and are not modelled.

## Model

| member | source | states |
|---|---|---|
| `PairOrder.IndexPairsCharacterization` | lib/lContainer.js:30-40 | The sweep's index order lists exactly the pairs i < j < n. The order is strictly lexicographic, so each pair appears once, and there are n(n-1)/2 of them. |
| `PairOrder.PairsOfAt` | lib/lContainer.js:34-39 | Step i of round k of the sweep visits (s[k], s[k+1+i]), and it sits right after all pairs of the earlier rounds. |
| `Containers.Tick` | lib/lContainer.js:30-40 | The tick calls `addForces` on (s[i], s[j]) for every index pair i < j of the child list, once each, in lexicographic order, n(n-1)/2 times (none below two children). The forces applied sum to zero and land only on children. Every array that existed before, the container's own child array included, is unchanged, because the loop works on a `slice(0)` copy. |
| `Containers.VisitRow` | lib/lContainer.js:35-37 | The inner loop appends exactly the next row of the pair order, (current, each later child), with the matching `addForceIn` calls. |
| `Containers.TickAsWritten` | lib/lContainer.js:36-41 | As written the tick always throws a ReferenceError and applies no force: on `addForces` with two or more children, on `updateChildren` otherwise. |
| `Containers.TickAsWrittenAppliesNoForce` | lib/lContainer.js:36-41 | With two or more children the written tick applies no force, while the intended one makes at least two `addForceIn` calls. |
| `Containers.AddForces` | lib/lContainer.js:72-75 | `addForces(p1, p2)` makes two `addForceIn` calls, on p1 then p2 and on nothing else. p2 gets the law's force for (p1, p2), and the two forces sum to zero. |
| `Containers.AddForcesAsWritten` | lib/lContainer.js:52-73 | As written `addForces` throws before either `addForceIn` call, so it applies no force. |
| `Containers.SweepNetForceZero` | lib/lContainer.js:72-75 | For any list of visited pairs, the `addForceIn` calls of all their `addForces` calls sum to the zero vector. |
| `Containers.SweepTargets` | lib/lContainer.js:74-75 | A sweep over pairs of children applies forces only to children. |
| `Containers.SweepStep` | lib/lContainer.js:36 | One `addForces` call extends the sweep by exactly the next pair in the order, and by that pair's two `addForceIn` calls. |
| `Containers.New` | lib/lContainer.js:13-16 | A new container has the component defaults, a fresh empty child array and no shape. |
| `Containers.AddChild` | lib/lContainer.js:78-80 | With the evident intent of `.append`, the child is placed at the end and the existing children keep their order. No other array changes. |
| `Containers.AddChildAsWritten` | lib/lContainer.js:79 | As written `addChild` throws a TypeError and stores nothing. |
| `Containers.AddChildAsWrittenLosesChild` | lib/lContainer.js:79 | The child list after the written `addChild` differs from the intended one. |
| `Containers.SetChildren` | lib/lContainer.js:82-88 | The setter stores a fresh copy of the given array, which is never the caller's array. The getter then returns the copied contents. Nothing else in the container or the heap changes. |
| `Containers.ChildrenSetterCopies` | lib/lContainer.js:82-88 | Whatever the caller later writes into its own array, the container's children stay as they were when set. |
| `Containers.SetShape` | lib/lContainer.js:94-100 | The `Shape` getter returns what the setter stored, and nothing else changes. |
| `Timers.New` | lib/lTimer.js:18-24 | A new timer is stopped and has a fresh empty callback array. Its delta is the argument when truthy and 1000 otherwise, so it is never 0. Its name is the argument when non-empty and "unnamed" otherwise. |
| `Timers.SetCallbacks` | lib/lTimer.js:31-33 | The setter makes the timer hold the given array itself and changes nothing else. |
| `Timers.CallbacksSetterShares` | lib/lTimer.js:31-43 | The getter returns what was set. Because the array is shared, not copied, a later push by the caller shows up in the timer's list. |
| `Timers.AddCallback` | lib/lTimer.js:51-58 | One callback is pushed onto the end of the same array in place, and no other array changes. An array of callbacks is appended in order into a new array, and the old arrays stay untouched. Either way the earlier callbacks keep their places. |
| `Timers.Fire` | lib/lTimer.js:70-76 | One firing calls every registered callback exactly once, in list order, each with `deltaT`. |
| `Timers.FireAppend` | lib/lTimer.js:70-76 | Firing a list made of two parts makes the calls of the first part and then those of the second. |
| `Timers.FireChecked` | lib/lTimer.js:70-76 | If callbacks may throw, a firing makes a prefix of the full call list. It completes exactly when no callback throws. Otherwise it stops at the first throwing callback and propagates that exception. |
| `Timers.Start` | lib/lTimer.js:81-88 | After `start` the timer is running. A running timer is left exactly as it was. A stopped one gets the new handle, and nothing else changes. |
| `Timers.Stop` | lib/lTimer.js:93-101 | After `stop` the timer is stopped (handle null), and nothing but the handle changes. Stopping a stopped timer is a no-op. |
| `Timers.StartStopLaws` | lib/lTimer.js:81-101 | `start` and `stop` are idempotent, and `stop` undoes a `start` of a stopped timer. A restart keeps the callback array and the delta. |
| `Timers.Step` | lib/lTimer.js:51-101 | An elapsed interval calls the list current at that moment when the timer is running, and calls nothing when it is stopped. No event shortens the callback list or changes the delta. |
| `Timers.Run` | lib/lTimer.js:51-101 | Over any event sequence, arrays only grow, the delta is fixed, and the original callbacks remain a prefix of the list. |
| `Timers.RunAppend` | lib/lTimer.js:70-101 | Running two event lists one after the other makes the calls of the first, then those of the second from the state the first left. |
| `Timers.StoppedTimerIsSilent` | lib/lTimer.js:93-101 | A stopped timer that is not started again makes no calls and stays stopped, whatever callbacks are added. |
| `Timers.AddedWhileRunningFiresNext` | lib/lTimer.js:70-76 | The interval closure reads the list at fire time. So a callback added to a running timer is called by the next firing, after the earlier ones. |
| `Timers.StopPauseRestart` | lib/lTimer.js:81-101 | Stop, an elapsed interval, start, then another elapsed interval makes exactly one firing of the same callback list. |
| `Timers.RegisterStartFire` | lib/testTimer.js:3-15 | A fresh timer given a callback, started, then given another callback calls both, in that order, at its first firing. |
| `Timers.DemoScript` | lib/testTimer.js:3-18 | The demo timer (500, "testTimer1") fires both callbacks with 500, makes no calls while stopped, and fires both again after the restart. |
| `Components.New` | lib/lComponent.js:12-18 | Constructing the abstract class throws a TypeError, and any subclass can be constructed. A subclass instance starts with zero position, velocity, accel and forceIn, mass 0, friction 0, and no parent or timer (the `defaultSetup` values, lines 164-172). |
| `Components.NewAsWritten` | lib/lComponent.js:12-29 | As written construction throws for every class. It matches the intended constructor only for the abstract class. |
| `Components.Tick` | lib/lComponent.js:44-46 | The base `tick` throws a TypeError whatever the component and the delta. |
| `Components.GetCallbackForwards` | lib/lComponent.js:38-42 | The closure `getCallback(c)` passes its delta unchanged to `c.tick` and returns that call's result. For the base `tick` that result is a throw. |
| `Components.Set` | lib/lComponent.js:55-140 | Each plain setter (position, mass, velocity, accel, forceIn, friction, parent) makes its getter return the stored value, and every other field, the timer included, keeps its value. |
| `Components.SetWhatGetReturns` | lib/lComponent.js:55-140 | Storing a field's current value leaves the component unchanged. |
| `Components.SetTimer` | lib/lComponent.js:146-149 | The `timer` setter stores the timer, leaves every plain field unchanged, and pushes exactly one callback onto the end of that timer's array: the one that forwards to this component's `tick`. No other array changes. |
| `Components.SetTimerAddsOneTick` | lib/lComponent.js:146-149 | After the setter, each firing of the timer makes the calls it made before plus one final call of this component's tick with the timer's delta. The number of such callbacks in the list grows by exactly one. |

## Left out

- `updateChildren` (lib/lContainer.js:41) is called by `tick` but defined nowhere. The corrected `Containers.Tick` stops after the pair sweep and does not integrate or tick the children.
- Force magnitude and direction (lib/lContainer.js:52-71) are left out: floating point, `this.G` (never assigned), `Math.sqrt`, and the slope `dy/dx` with no guard for coincident or vertically aligned bodies. The force law is an uninterpreted parameter.
- `addForceIn` and `integrate` have no body in the source, so forces are recorded as calls and never accumulated or integrated.
- Forces are summed over `real`, where the net force of a sweep is exactly zero. In floating point the same sum is only approximately zero.
- `setup` (lib/lComponent.js:20-29) is not modelled: as written it cannot finish. Beyond the static `defaultSetup` call (see Findings), these errors are raised when it is called:
  - `defaultSetup` reads the undeclared identifier `defaults` (lib/lComponent.js:160), a ReferenceError in strict class code.
  - `defaults.keys()` (lib/lComponent.js:24) calls a method that plain objects do not have, a TypeError.
- Containers.New: the `kwargs` argument passed on to the parent constructor is ignored, and every container starts from the component default values. The parent's `setup`, which would merge that argument into the defaults, cannot run as written (see `Components.NewAsWritten`).
- Components.New: the configuration argument is ignored. A subclass instance gets the default values only, because merging arguments into defaults exists only in the broken `setup`.
- Containers.SetChildren: the model takes an existing array. A `null`, `undefined` or other value without a `slice` method, on which `kids.slice(0)` throws a TypeError, is excluded.
- Components.Set: JavaScript setters accept any value. The model restricts each field to its documented kind (vector, number, or object reference or null).
- Components.SetTimer: passing `null` stores it and then throws on `t.addCallback`. The model takes a timer.
- Timers.New: `NaN` is also falsy for `deltaT || 1000`. Real numbers have no `NaN`, so only absent and zero deltas take the default.
- Timers.Run: the `callbacks` setter is not one of the run's events, since replacing the list would break the prefix property stated for runs. It is modelled by `Timers.SetCallbacks` on its own.
- Timers.Step: an elapsed interval fires the whole callback list, so it assumes callbacks return normally, as `Timers.Run` does.
- Timers.Run: it assumes callbacks return normally. A throwing callback's effect on one firing is modelled by `Timers.FireChecked`.
- Host timing is left out: interval length in wall-clock time, `clearTimeout` on an interval handle, overlapping firings, and the `console.log` diagnostics (lib/lTimer.js:83-99).
- The rendering layer (lib/Shape/Shape.js, lib/Shape/SvgShape.js) is only abstract stubs and logging. A container's shape is an opaque object reference.
- Module-level defects are taken at their evident intent and not modelled:
  - `lContainer` has no `extends lComponent` but calls `super` (lib/lContainer.js:12-14).
  - The module exports the undefined `lAtom` (lib/lContainer.js:105).
  - lib/lComponent.js never closes its `define(...)` wrapper and exports nothing.
- Ownership and physical checks that the code does not perform are not modelled either:
  - `addChild` does not set the child's `parent` and does not reject a child owned elsewhere.
  - The `children` setter does not detach the previous children.
  - A timer may be set, and a callback registered, more than once.
  - Mass is never checked to be positive.
  - `forceIn` is never reset.

## Findings

| source | as written | input that shows it | evidently intended | confidence | as-written member | corrected member |
|---|---|---|---|---|---|---|
| lib/lContainer.js:36-41 | `tick` calls `addForces` as a bare name, which is not in scope, and then calls the undefined `updateChildren` | any child list: `[]` throws at line 41, two children throw at line 36 | `this.addForces(current, particles[i])` for every pair | high; not executed | `Containers.TickAsWritten`, `Containers.TickAsWrittenAppliesNoForce` | `Containers.Tick` |
| lib/lContainer.js:52-73 | `addForces` calls the `position` getter's value as a function (line 52) and calls the undefined `float` (line 69). It also declares `fInfoP2` but reads `fIntoP2` (lines 72-73). | any two children | p2 receives the computed force and p1 its negation | high; not executed | `Containers.AddForcesAsWritten` | `Containers.AddForces` |
| lib/lContainer.js:79 | `this._children.append(child)`: arrays have no `append` method | any child, for example an empty container | `push`: the child goes at the end | high; not executed | `Containers.AddChildAsWritten`, `Containers.AddChildAsWrittenLosesChild` | `Containers.AddChild` |
| lib/lComponent.js:21 | `setup` calls `this.defaultSetup()`, but `defaultSetup` is static and so is not reachable through an instance | any subclass construction | a subclass instance starts from the `defaultSetup` values | high; not executed | `Components.NewAsWritten` | `Components.New` |
