/** The component tree of a simulation (jasima's `SimComponentBase`): each
    component knows its parent and may know its simulation; a component that
    does not know its simulation looks it up, on demand, among its ancestors
    and remembers the answer.

    The tree is a finite map from component identities to component records.
    Acyclicity of the parent links is witnessed by the numbering: every
    parent has a smaller identity than its child (any finite acyclic parent
    map can be numbered this way). Simulations, listeners and stored values
    are opaque references. */
module SimComponents {

  import opened Base
  import Numerals

  type Id = nat          // a component
  type SimRef = nat      // a `Simulation` object
  type ListenerRef = nat // a listener object
  type ObjRef = nat      // a key or value object in the value store

  datatype Component = Component(
    sim: Option<SimRef>,
    parent: Option<Id>,
    name: Option<string>,
    listeners: seq<ListenerRef>,
    store: map<ObjRef, ObjRef>)

  type Tree = map<Id, Component>

  /** Every parent link points to a component of the tree with a smaller
      identity, so walking up always ends. */
  predicate WellFormed(t: Tree)
  {
    forall id :: id in t && t[id].parent.Some? ==> t[id].parent.value in t && t[id].parent.value < id
  }

  /** `t'` is `t` with, at most, some `sim` fields changed. */
  predicate SameShape(t: Tree, t': Tree)
  {
    && t'.Keys == t.Keys
    && forall k :: k in t ==> t'[k] == t[k].(sim := t'[k].sim)
  }

  lemma SameShapeKeepsWellFormed(t: Tree, t': Tree)
    requires WellFormed(t) && SameShape(t, t')
    ensures WellFormed(t')
  {
    forall id | id in t' && t'[id].parent.Some?
      ensures t'[id].parent.value in t' && t'[id].parent.value < id
    {
      assert t'[id].parent == t[id].parent;
    }
  }

  lemma SameShapeTrans(t: Tree, t': Tree, t'': Tree)
    requires SameShape(t, t') && SameShape(t', t'')
    ensures SameShape(t, t'')
  {
    forall k | k in t
      ensures t''[k] == t[k].(sim := t''[k].sim)
    {
      assert t'[k] == t[k].(sim := t'[k].sim);
    }
  }

  /** `setSim(s)`. */
  function SetSim(t: Tree, id: Id, s: Option<SimRef>): (t': Tree)
    requires id in t
    ensures SameShape(t, t')
    ensures t'[id].sim == s
    ensures forall k :: k in t && k != id ==> t'[k] == t[k]
  {
    t[id := t[id].(sim := s)]
  }

  /** `getSim()`, step by step as the Java code runs it: return the stored
      simulation if there is one; otherwise walk up the parents and, at the
      first parent whose own `getSim()` yields a simulation, ask that parent
      again and store its answer. */
  function GetSim(t: Tree, id: Id): (res: (Option<SimRef>, Tree))
    requires WellFormed(t) && id in t
    ensures SameShape(t, res.1)
    decreases id, 1, 0
  {
    if t[id].sim.Some? then (t[id].sim, t)
    else Climb(t, id, t[id].parent)
  }

  /** The `while (p != null)` loop of `getSim()` for component `self`, with
      `p` the parent under inspection. */
  function Climb(t: Tree, self: Id, p: Option<Id>): (res: (Option<SimRef>, Tree))
    requires WellFormed(t) && self in t
    requires p.Some? ==> p.value in t && p.value < self
    ensures SameShape(t, res.1)
    decreases self, 0, if p.Some? then p.value + 1 else 0
  {
    match p
    case None => (t[self].sim, t)
    case Some(q) =>
      var (found, t1) := GetSim(t, q);
      SameShapeKeepsWellFormed(t, t1);
      if found.Some? then
        var (s, t2) := GetSim(t1, q);
        SameShapeKeepsWellFormed(t1, t2);
        SameShapeTrans(t, t1, t2);
        var t3 := SetSim(t2, self, s);
        SameShapeTrans(t, t2, t3);
        (t3[self].sim, t3)
      else
        var (r, t4) := Climb(t1, self, t1[q].parent);
        SameShapeTrans(t, t1, t4);
        (r, t4)
  }

  // ---------------------------------------------------------------------
  // Reference definitions

  /** The simulation of the nearest ancestor-or-self that has one. */
  function Resolve(t: Tree, id: Id): Option<SimRef>
    requires WellFormed(t) && id in t
    decreases id
  {
    if t[id].sim.Some? then t[id].sim
    else match t[id].parent
      case None => None
      case Some(p) => Resolve(t, p)
  }

  /** `id` and all of its ancestors. */
  function AncestorsOrSelf(t: Tree, id: Id): (a: set<Id>)
    requires WellFormed(t) && id in t
    ensures id in a
    ensures forall k :: k in a ==> k in t
    decreases id
  {
    {id} + match t[id].parent
      case None => {}
      case Some(p) => AncestorsOrSelf(t, p)
  }

  /** `Resolve` finds a simulation exactly when some ancestor-or-self has
      one, and what it finds is the simulation of such an ancestor. */
  lemma {:induction false} ResolveFromAncestors(t: Tree, id: Id)
    requires WellFormed(t) && id in t
    ensures Resolve(t, id).None? <==> forall k :: k in AncestorsOrSelf(t, id) ==> t[k].sim.None?
    ensures Resolve(t, id).Some? ==> exists k :: k in AncestorsOrSelf(t, id) && t[k].sim == Resolve(t, id)
    decreases id
  {
    if t[id].sim.None? && t[id].parent.Some? {
      ResolveFromAncestors(t, t[id].parent.value);
    }
  }

  /** `id` and its ancestors up to, not including, the first one that has a
      simulation: the components a successful lookup fills in. */
  function Unresolved(t: Tree, id: Id): (u: set<Id>)
    requires WellFormed(t) && id in t
    ensures forall k :: k in u ==> k in t && t[k].sim.None? && k <= id
    ensures t[id].sim.None? <==> id in u
    decreases id
  {
    if t[id].sim.Some? then {}
    else {id} + match t[id].parent
      case None => {}
      case Some(p) => Unresolved(t, p)
  }

  /** Stores `s` in every component of `Unresolved(t, id)`, the ancestors
      first, as the nested `getSim()` calls do. */
  function Fill(t: Tree, id: Id, s: SimRef): (t': Tree)
    requires WellFormed(t) && id in t
    ensures SameShape(t, t')
    ensures forall k :: k in t ==> t'[k] == if k in Unresolved(t, id) then t[k].(sim := Some(s)) else t[k]
    decreases id
  {
    if t[id].sim.Some? then t
    else
      var t1 := match t[id].parent
        case None => t
        case Some(p) => Fill(t, p, s);
      t1[id := t1[id].(sim := Some(s))]
  }

  /** The tree after a lookup: filled in if a simulation was found,
      untouched otherwise. */
  function Cached(t: Tree, id: Id): Tree
    requires WellFormed(t) && id in t
  {
    match Resolve(t, id)
    case None => t
    case Some(s) => Fill(t, id, s)
  }

  // ---------------------------------------------------------------------
  // getSim against the reference

  /** `getSim()` returns the simulation of the nearest ancestor-or-self that
      has one, and caches it in exactly the components between. */
  lemma {:induction false} GetSimSpec(t: Tree, id: Id)
    requires WellFormed(t) && id in t
    ensures GetSim(t, id) == (Resolve(t, id), Cached(t, id))
    decreases id, 1, 0
  {
    if t[id].sim.None? {
      ClimbSpec(t, id, t[id].parent);
    }
  }

  lemma {:induction false} ClimbSpec(t: Tree, self: Id, p: Option<Id>)
    requires WellFormed(t) && self in t && t[self].sim.None?
    requires p.Some? ==> p.value in t && p.value < self
    ensures p.None? ==> Climb(t, self, p) == (None, t)
    ensures p.Some? && Resolve(t, p.value).None? ==> Climb(t, self, p) == (None, t)
    ensures p.Some? && Resolve(t, p.value).Some? ==>
      Climb(t, self, p) == (Resolve(t, p.value), SetSim(Fill(t, p.value, Resolve(t, p.value).value), self, Resolve(t, p.value)))
    decreases self, 0, if p.Some? then p.value + 1 else 0
  {
    match p
    case None =>
    case Some(q) =>
      GetSimSpec(t, q);
      match Resolve(t, q)
      case None =>
        ClimbSpec(t, self, t[q].parent);
        if t[q].parent.Some? {
          assert Resolve(t, t[q].parent.value) == Resolve(t, q);
        }
      case Some(s) =>
        var t1 := Fill(t, q, s);
        SameShapeKeepsWellFormed(t, t1);
        assert t1[q].sim == Some(s);
        assert GetSim(t1, q) == (Some(s), t1);
  }

  /** The contract of `getSim()` spelt out: the answer is the nearest
      ancestor's simulation; if there is none nothing is stored anywhere;
      otherwise exactly the components from this one up to that ancestor now
      hold it and every other component is unchanged. */
  lemma GetSimContract(t: Tree, id: Id)
    requires WellFormed(t) && id in t
    ensures GetSim(t, id).0 == Resolve(t, id)
    ensures Resolve(t, id).None? ==> GetSim(t, id).1 == t
    ensures GetSim(t, id).1.Keys == t.Keys
    ensures Resolve(t, id).Some? ==> forall k :: k in t ==>
      GetSim(t, id).1[k] == if k in Unresolved(t, id) then t[k].(sim := Resolve(t, id)) else t[k]
  {
    GetSimSpec(t, id);
  }

  /** A component that already knows its simulation returns it and changes
      nothing. */
  lemma GetSimWhenSet(t: Tree, id: Id)
    requires WellFormed(t) && id in t && t[id].sim.Some?
    ensures GetSim(t, id) == (t[id].sim, t)
  {
  }

  /** With no simulation anywhere up the chain, the answer is null and the
      tree is untouched. */
  lemma GetSimNoAncestor(t: Tree, id: Id)
    requires WellFormed(t) && id in t
    requires forall k :: k in AncestorsOrSelf(t, id) ==> t[k].sim.None?
    ensures GetSim(t, id) == (None, t)
  {
    ResolveFromAncestors(t, id);
    GetSimSpec(t, id);
  }

  /** `getSim()` is idempotent: asking again gives the same answer and
      stores nothing more. */
  lemma GetSimIdempotent(t: Tree, id: Id)
    requires WellFormed(t) && id in t
    ensures WellFormed(GetSim(t, id).1)
    ensures GetSim(GetSim(t, id).1, id) == GetSim(t, id)
  {
    GetSimSpec(t, id);
    var t' := GetSim(t, id).1;
    SameShapeKeepsWellFormed(t, t');
    if Resolve(t, id).Some? && t[id].sim.None? {
      assert t'[id].sim == Resolve(t, id);
    }
  }

  /** The ancestors a lookup passed through have learnt the answer too: each
      of them now returns it at once, without changing the tree. */
  lemma GetSimCachesPath(t: Tree, id: Id, k: Id)
    requires WellFormed(t) && id in t
    requires k in Unresolved(t, id) && Resolve(t, id).Some?
    ensures WellFormed(GetSim(t, id).1)
    ensures GetSim(GetSim(t, id).1, k) == GetSim(t, id)
  {
    GetSimSpec(t, id);
    var t' := GetSim(t, id).1;
    SameShapeKeepsWellFormed(t, t');
    assert t'[k].sim == Resolve(t, id);
  }

  /** `setSim` then `getSim` returns what was set, for a non-null value. */
  lemma SetSimGetSim(t: Tree, id: Id, s: SimRef)
    requires WellFormed(t) && id in t
    ensures WellFormed(SetSim(t, id, Some(s)))
    ensures GetSim(SetSim(t, id, Some(s)), id) == (Some(s), SetSim(t, id, Some(s)))
  {
    SameShapeKeepsWellFormed(t, SetSim(t, id, Some(s)));
  }

  // ---------------------------------------------------------------------
  // Accessors, toString and clone

  function GetParent(t: Tree, id: Id): Option<Id>
    requires id in t
  {
    t[id].parent
  }

  /** `setParent(p)`: only this component's parent link changes. */
  function SetParent(t: Tree, id: Id, p: Option<Id>): (t': Tree)
    requires id in t
    ensures t'.Keys == t.Keys
    ensures GetParent(t', id) == p
    ensures t'[id] == t[id].(parent := p)
    ensures forall k :: k in t && k != id ==> t'[k] == t[k]
  {
    t[id := t[id].(parent := p)]
  }

  /** Re-parenting under a component with a smaller identity keeps the tree
      acyclic. */
  lemma SetParentKeepsWellFormed(t: Tree, id: Id, p: Option<Id>)
    requires WellFormed(t) && id in t
    requires p.Some? ==> p.value in t && p.value < id
    ensures WellFormed(SetParent(t, id, p))
  {
  }

  /** `toString()`: the name if there is one, otherwise the simple class
      name, '@' and the identity hash code in hexadecimal. `hash` is the
      32-bit `hashCode()`, which this model does not compute. */
  function ToString(c: Component, className: string, hash: int): (s: string)
    requires -0x8000_0000 <= hash < 0x8000_0000
    ensures c.name.Some? ==> s == c.name.value
    ensures c.name.None? ==>
      && |s| > |className| + 1
      && s[..|className|] == className && s[|className|] == '@'
      && Numerals.NoLeadingZero(s[|className| + 1..])
      && Numerals.Parse(s[|className| + 1..], 16) == Some(if hash < 0 then hash + Numerals.TwoTo32 else hash)
  {
    match c.name
    case Some(n) => n
    case None =>
      var h := Numerals.HexString(hash);
      var s := className + "@" + h;
      assert s[|className| + 1..] == h;
      s
  }

  /** `clone()`: a shallow copy (simulation, parent and name are shared),
      with a value store holding the same entries and a notifier that
      receives, in order, each listener of the original as
      `cloneIfPossible` returns it. */
  method Clone(c: Component, cloneIfPossible: ListenerRef -> ListenerRef) returns (d: Component)
    ensures d.sim == c.sim && d.parent == c.parent && d.name == c.name
    ensures d.store == c.store
    ensures |d.listeners| == |c.listeners|
    ensures forall i :: 0 <= i < |c.listeners| ==> d.listeners[i] == cloneIfPossible(c.listeners[i])
  {
    // A fresh value store with the same entries is, as a value, the same map.
    d := c.(listeners := []);
    var i := 0;
    while i < |c.listeners|
      invariant 0 <= i <= |c.listeners|
      invariant d.sim == c.sim && d.parent == c.parent && d.name == c.name && d.store == c.store
      invariant |d.listeners| == i
      invariant forall j :: 0 <= j < i ==> d.listeners[j] == cloneIfPossible(c.listeners[j])
    {
      d := d.(listeners := d.listeners + [cloneIfPossible(c.listeners[i])]);
      i := i + 1;
    }
  }
}
