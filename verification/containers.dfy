/** `lContainer`: a component that owns an ordered list of child components and,
    on each tick, applies an equal and opposite force to every pair of children.
    The force law itself is a parameter; what `addForceIn` does with a force is
    not part of the model, so the sweep's effect is the list of `addForceIn` calls
    it makes. */
module Containers {
  import opened Js
  import opened JsArrays
  import opened Vectors
  import opened PairOrder
  import Components

  datatype Container = Container(base: Components.Component, children: Ref, shape: Option<ObjRef>)

  /** The force `addForces(p1, p2)` computes for p2 (`fIntoP2`) from the two
      components' positions and masses. */
  type ForceLaw = (ObjRef, ObjRef) -> Vec

  /** A call `target.addForceIn(force)`. */
  datatype ForceCall = AddForceIn(target: ObjRef, force: Vec)

  /** The child array exists. */
  predicate WellFormed(c: Container, h: Heap<ObjRef>) {
    Valid(h) && c.children in h.arrays
  }

  /** The `children` getter: the contents of the array the container holds. */
  function Children(c: Container, h: Heap<ObjRef>): seq<ObjRef>
    requires c.children in h.arrays
  {
    h.arrays[c.children]
  }

  /** The sum of all forces in a list of calls. */
  function NetForce(calls: seq<ForceCall>): Vec {
    if |calls| == 0 then Zero else Add(NetForce(calls[..|calls| - 1]), calls[|calls| - 1].force)
  }

  /** The constructor: the component part of a new subclass instance, and a new
      empty child array. */
  function New(h: Heap<ObjRef>): (res: (Container, Heap<ObjRef>))
    requires Valid(h)
    ensures WellFormed(res.0, res.1) && Keeps(h, res.1)
    ensures res.0.children !in h.arrays && Children(res.0, res.1) == []
    ensures Components.New(Components.Subclass("lContainer")) == Ok(res.0.base)
    ensures res.0.shape.None?
  {
    var base := Components.New(Components.Subclass("lContainer")).value;
    var (kids, h') := Alloc(h, []);
    (Container(base, kids, None), h')
  }

  /** The `children` setter stores a copy of the given array (`slice(0)`). */
  function SetChildren(c: Container, h: Heap<ObjRef>, kids: Ref): (res: (Container, Heap<ObjRef>))
    requires Valid(h) && kids in h.arrays
    ensures WellFormed(res.0, res.1) && Keeps(h, res.1)
    ensures res.0.children !in h.arrays
    ensures Children(res.0, res.1) == h.arrays[kids]
    ensures res.0.(children := c.children) == c
  {
    var (copy, h') := Alloc(h, h.arrays[kids]);
    (c.(children := copy), h')
  }

  /** Because the setter copies, whatever the caller later does to its own array
      leaves the container's children as they were when set. */
  lemma ChildrenSetterCopies(c: Container, h: Heap<ObjRef>, kids: Ref, later: seq<ObjRef>)
    requires Valid(h) && kids in h.arrays
    ensures var (c', h') := SetChildren(c, h, kids);
            Children(c', Write(h', kids, later)) == h.arrays[kids]
  {
  }

  /** `addChild(child)` with the evident intent of `.append`: pushes the child onto
      the end of the container's array. */
  function AddChild(c: Container, h: Heap<ObjRef>, child: ObjRef): (h': Heap<ObjRef>)
    requires WellFormed(c, h)
    ensures WellFormed(c, h') && h'.arrays.Keys == h.arrays.Keys
    ensures Children(c, h') == Children(c, h) + [child]
    ensures forall q :: q in h.arrays && q != c.children ==> h'.arrays[q] == h.arrays[q]
  {
    Push(h, c.children, child)
  }

  /** `addChild` as written: arrays have no `append` method, so the call throws a
      TypeError before anything is stored. */
  function AddChildAsWritten(c: Container, h: Heap<ObjRef>, child: ObjRef): (res: (Outcome, Heap<ObjRef>))
    requires WellFormed(c, h)
    ensures res.0.Threw? && res.0.error.TypeError?
    ensures res.1 == h
  {
    (Threw(TypeError("this._children.append is not a function")), h)
  }

  /** The written `addChild` loses the child that the intended one keeps. */
  lemma AddChildAsWrittenLosesChild(c: Container, h: Heap<ObjRef>, child: ObjRef)
    requires WellFormed(c, h)
    ensures Children(c, AddChildAsWritten(c, h, child).1) != Children(c, AddChild(c, h, child))
  {
    assert |Children(c, AddChild(c, h, child))| == |Children(c, h)| + 1;
  }

  lemma NetForceOfTwo(a: ForceCall, b: ForceCall)
    ensures NetForce([a, b]) == Add(Add(Zero, a.force), b.force)
  {
    assert [a, b][..1] == [a];
    assert [a][..0] == [];
    assert NetForce([a]) == Add(Zero, a.force);
  }

  /** `addForces(p1, p2)` with the evident intent of lines 72-73: p2 receives the
      computed force and p1 its negation, so the two calls cancel. */
  function AddForces(law: ForceLaw, p1: ObjRef, p2: ObjRef): (r: seq<ForceCall>)
    ensures |r| == 2 && r[0].target == p1 && r[1].target == p2
    ensures r[1].force == law(p1, p2)
    ensures NetForce(r) == Zero
  {
    var fIntoP2 := law(p1, p2);
    var into1, into2 := AddForceIn(p1, Scale(fIntoP2, -1.0)), AddForceIn(p2, fIntoP2);
    NetForceOfTwo(into1, into2);
    [into1, into2]
  }

  /** `addForces` as written stops before either `addForceIn` call: it calls the
      `position` getter's value as a function, calls the undefined `float`, and
      reads `fIntoP2` after declaring `fInfoP2`.  The first of these throws. */
  function AddForcesAsWritten(law: ForceLaw, p1: ObjRef, p2: ObjRef): (res: (Outcome, seq<ForceCall>))
    ensures res.0.Threw?
    ensures res.1 == []
  {
    (Threw(TypeError("p1.position is not a function")), [])
  }

  /** The `addForceIn` calls made by `addForces` on each pair in turn. */
  function ForceTrace(law: ForceLaw, pairs: seq<(ObjRef, ObjRef)>): seq<ForceCall> {
    if |pairs| == 0 then []
    else ForceTrace(law, pairs[..|pairs| - 1]) + AddForces(law, pairs[|pairs| - 1].0, pairs[|pairs| - 1].1)
  }

  lemma {:induction false} NetForceAppend(a: seq<ForceCall>, b: seq<ForceCall>)
    ensures NetForce(a + b) == Add(NetForce(a), NetForce(b))
    decreases |b|
  {
    if |b| > 0 {
      var b' := b[..|b| - 1];
      assert (a + b)[..|a + b| - 1] == a + b';
      NetForceAppend(a, b');
    } else {
      assert a + b == a;
    }
  }

  /** However many pairs a sweep visits, the forces it applies sum to zero. */
  lemma {:induction false} SweepNetForceZero(law: ForceLaw, pairs: seq<(ObjRef, ObjRef)>)
    ensures NetForce(ForceTrace(law, pairs)) == Zero
    decreases |pairs|
  {
    if |pairs| > 0 {
      var last := pairs[|pairs| - 1];
      SweepNetForceZero(law, pairs[..|pairs| - 1]);
      NetForceAppend(ForceTrace(law, pairs[..|pairs| - 1]), AddForces(law, last.0, last.1));
    }
  }

  /** A sweep applies forces only to the components in the pairs it visits. */
  lemma {:induction false} SweepTargets(law: ForceLaw, pairs: seq<(ObjRef, ObjRef)>, kids: seq<ObjRef>)
    requires forall k :: 0 <= k < |pairs| ==> pairs[k].0 in kids && pairs[k].1 in kids
    ensures forall k :: 0 <= k < |ForceTrace(law, pairs)| ==> ForceTrace(law, pairs)[k].target in kids
    decreases |pairs|
  {
    if |pairs| > 0 {
      var last := pairs[|pairs| - 1];
      SweepTargets(law, pairs[..|pairs| - 1], kids);
      var front: seq<ForceCall> := ForceTrace(law, pairs[..|pairs| - 1]);
      var tail: seq<ForceCall> := AddForces(law, last.0, last.1);
      assert ForceTrace(law, pairs) == front + tail;
      forall k | 0 <= k < |front + tail|
        ensures (front + tail)[k].target in kids
      {
        if k >= |front| {
          assert (front + tail)[k] == tail[k - |front|];
        }
      }
    }
  }

  lemma ForceTraceSnoc(law: ForceLaw, pairs: seq<(ObjRef, ObjRef)>, p: (ObjRef, ObjRef))
    ensures ForceTrace(law, pairs + [p]) == ForceTrace(law, pairs) + AddForces(law, p.0, p.1)
  {
    assert (pairs + [p])[..|pairs|] == pairs;
  }

  /** Every pair the sweep visits is a pair of children. */
  lemma PairsOfAreChildren(s: seq<ObjRef>)
    ensures forall k :: 0 <= k < |PairsOf(s)| ==> PairsOf(s)[k].0 in s && PairsOf(s)[k].1 in s
  {
    IndexPairsInRange(|s|);
  }

  /** The first x pairs of the full listing, and the forces `addForces` applied
      for them. */
  ghost predicate SweptUpTo(law: ForceLaw, s: seq<ObjRef>, x: nat, pairs: seq<(ObjRef, ObjRef)>,
                            forces: seq<ForceCall>)
  {
    x <= |PairsOf(s)| && pairs == PairsOf(s)[..x] && forces == ForceTrace(law, pairs)
  }

  /** One call `addForces(s[k], s[k + 1 + i])` extends the sweep by one pair. */
  lemma SweepStep(law: ForceLaw, s: seq<ObjRef>, k: nat, i: nat, pairs: seq<(ObjRef, ObjRef)>,
                  forces: seq<ForceCall>)
    requires k + 1 + i < |s|
    requires SweptUpTo(law, s, |Rows(k, |s|)| + i, pairs, forces)
    ensures SweptUpTo(law, s, |Rows(k, |s|)| + i + 1, pairs + [(s[k], s[k + 1 + i])],
                      forces + AddForces(law, s[k], s[k + 1 + i]))
  {
    PairsOfAt(s, k, i);
    var all, x := PairsOf(s), |Rows(k, |s|)| + i;
    assert all[..x + 1] == all[..x] + [all[x]];
    ForceTraceSnoc(law, pairs, (s[k], s[k + 1 + i]));
  }

  /** One pass of the inner loop of `tick`: `addForces(current, particles[i])` for
      each child still in the copy, which appends row k of the sweep. */
  method VisitRow(law: ForceLaw, ghost s: seq<ObjRef>, ghost k: nat, current: ObjRef, particles: seq<ObjRef>,
                  pairs0: seq<(ObjRef, ObjRef)>, forces0: seq<ForceCall>)
    returns (pairs: seq<(ObjRef, ObjRef)>, forces: seq<ForceCall>)
    requires k < |s| && current == s[k] && particles == s[k + 1..]
    requires SweptUpTo(law, s, |Rows(k, |s|)|, pairs0, forces0)
    ensures SweptUpTo(law, s, |Rows(k + 1, |s|)|, pairs, forces)
  {
    pairs, forces := pairs0, forces0;
    var i := 0;
    while i < |particles|
      invariant 0 <= i <= |particles|
      invariant SweptUpTo(law, s, |Rows(k, |s|)| + i, pairs, forces)
    {
      SweepStep(law, s, k, i, pairs, forces);
      forces := forces + AddForces(law, current, particles[i]);
      pairs := pairs + [(current, particles[i])];
      i := i + 1;
    }
    RowStep(|s|, k);
  }

  /** `tick(deltaT)` with the evident intent of line 36 (`this.addForces`):
      copies the child array, then repeatedly shifts a current child off the copy
      and calls `addForces` on it and each child still in the copy.  The calls to
      `addForces` are the children at index pairs i < j in lexicographic order;
      the forces sum to zero and land only on children; every array that existed
      before, the container's own child array included, is left as it was.  The
      trailing `updateChildren()` call is not part of the model. */
  method Tick(c: Container, h: Heap<ObjRef>, law: ForceLaw, deltaT: real)
    returns (pairs: seq<(ObjRef, ObjRef)>, forces: seq<ForceCall>, h': Heap<ObjRef>)
    requires WellFormed(c, h)
    ensures pairs == PairsOf(Children(c, h))
    ensures |pairs| == |Children(c, h)| * (|Children(c, h)| - 1) / 2
    ensures forces == ForceTrace(law, pairs)
    ensures NetForce(forces) == Zero
    ensures forall k :: 0 <= k < |forces| ==> forces[k].target in Children(c, h)
    ensures Valid(h') && Keeps(h, h')
  {
    ghost var s := Children(c, h);
    ghost var n := |s|;
    var copied := Alloc(h, h.arrays[c.children]);   // slice(0)
    var particles := copied.0;
    h' := copied.1;
    var shifted := Shift(h', particles);
    var current := shifted.0;
    h' := shifted.1;
    var pLen := |h'.arrays[particles]|;
    pairs, forces := [], [];
    ghost var k := 0;
    while pLen > 0
      invariant Valid(h') && Keeps(h, h') && particles in h'.arrays && particles !in h.arrays
      invariant pLen == |h'.arrays[particles]|
      invariant n == 0 ==> h'.arrays[particles] == [] && k == 0
      invariant 0 < n ==> k < n && current == Some(s[k]) && h'.arrays[particles] == s[k + 1..]
      invariant SweptUpTo(law, s, |Rows(k, n)|, pairs, forces)
      decreases pLen
    {
      pairs, forces := VisitRow(law, s, k, current.value, h'.arrays[particles], pairs, forces);
      shifted := Shift(h', particles);
      current, h' := shifted.0, shifted.1;
      pLen := |h'.arrays[particles]|;
      k := k + 1;
    }
    SweepComplete(law, s, k, pairs, forces);
    SweepOfAllPairs(law, s, pairs, forces);
  }

  /** Once the copy is empty, the sweep has visited every pair of children:
      the last row, that of the final child, is empty. */
  lemma SweepComplete(law: ForceLaw, s: seq<ObjRef>, k: nat, pairs: seq<(ObjRef, ObjRef)>,
                      forces: seq<ForceCall>)
    requires (|s| == 0 && k == 0) || k + 1 == |s|
    requires SweptUpTo(law, s, |Rows(k, |s|)|, pairs, forces)
    ensures pairs == PairsOf(s)
    ensures forces == ForceTrace(law, pairs)
  {
    var n := |s|;
    if 0 < n {
      assert Rows(n, n) == Rows(n - 1, n) + Row(n - 1, n);
      RowMembers(n - 1, n);
    }
    assert |Rows(k, n)| == |PairsOf(s)|;
  }

  /** A sweep over every pair of children makes n(n-1)/2 calls to `addForces`,
      whose forces cancel out and land only on children. */
  lemma SweepOfAllPairs(law: ForceLaw, s: seq<ObjRef>, pairs: seq<(ObjRef, ObjRef)>, forces: seq<ForceCall>)
    requires pairs == PairsOf(s) && forces == ForceTrace(law, pairs)
    ensures |pairs| == |s| * (|s| - 1) / 2
    ensures NetForce(forces) == Zero
    ensures forall m :: 0 <= m < |forces| ==> forces[m].target in s
  {
    IndexPairsCharacterization(|s|);
    SweepNetForceZero(law, pairs);
    PairsOfAreChildren(s);
    SweepTargets(law, pairs, s);
  }

  /** `tick` as written: `addForces` is called as a bare name, which is not
      defined, and so is `updateChildren`.  With two or more children the first
      `addForces` call throws; with fewer, `updateChildren()` does.  No force is
      applied either way. */
  function TickAsWritten(c: Container, h: Heap<ObjRef>, deltaT: real): (res: (Outcome, seq<ForceCall>))
    requires WellFormed(c, h)
    ensures res.0.Threw? && res.0.error.ReferenceError?
    ensures res.0.error.identifier == "addForces" <==> |Children(c, h)| >= 2
    ensures res.1 == []
  {
    if |Children(c, h)| >= 2 then (Threw(ReferenceError("addForces")), [])
    else (Threw(ReferenceError("updateChildren")), [])
  }

  /** With two or more children the intended sweep applies forces and the written
      one applies none. */
  lemma TickAsWrittenAppliesNoForce(c: Container, h: Heap<ObjRef>, law: ForceLaw, deltaT: real)
    requires WellFormed(c, h) && |Children(c, h)| >= 2
    ensures TickAsWritten(c, h, deltaT).1 == []
    ensures |ForceTrace(law, PairsOf(Children(c, h)))| >= 2
  {
    var s := Children(c, h);
    IndexPairsCharacterization(|s|);
    assert (0, 1) in IndexPairs(|s|);
    assert |PairsOf(s)| > 0;
  }

  /** The `Shape` setter and getter: the rendering object this container drives. */
  function SetShape(c: Container, s: Option<ObjRef>): (r: Container)
    ensures r.shape == s
    ensures r.(shape := c.shape) == c
  {
    c.(shape := s)
  }
}
