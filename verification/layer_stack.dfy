/**
 * The application's layer stack (HelbreathRaylib/core/Layer.cpp, Layer.h):
 * an ordered list of layers in which ordinary layers occupy the front part,
 * up to the insert index, and overlays the back part. Events travel from the
 * back (the topmost overlay) to the front and stop once one is handled.
 *
 * A layer's `OnInitialize`/`OnUninitialize`/`OnEvent` hooks are virtual
 * calls into code outside this model; the only effect of `OnEvent` that the
 * stack sees is whether it marks the event handled, given here as the set
 * of layers that handle the event.
 */
module LayerStackModel {
  import opened Wrappers

  /** `core::Layer`: a debug name and whether it is initialized. */
  class Layer {
    const name: string
    var initialized: bool

    /** `Layer(name)` (Layer.h:12-13): not yet initialized. */
    constructor (name: string)
      ensures this.name == name && !initialized
    {
      this.name := name;
      initialized := false;
    }

    /** `Initialize` (Layer.h:19-24): runs the hook once; the layer is initialized afterwards. */
    method Initialize()
      modifies this
      ensures initialized
    {
      if !initialized {
        initialized := true;
      }
    }

    /** `Uninitialize` (Layer.h:28-33): the layer is not initialized afterwards. */
    method Uninitialize()
      modifies this
      ensures !initialized
    {
      if initialized {
        initialized := false;
      }
    }
  }

  /** No layer appears twice: each is held by its own `unique_ptr`. */
  ghost predicate Distinct(s: seq<Layer>)
  {
    forall i, j | 0 <= i < j < |s| :: s[i] != s[j]
  }

  /** The first index in [lo, hi) holding `x`: the `find_if` of `PopLayer` and `PopOverlay`. */
  function IndexIn(s: seq<Layer>, x: Layer, lo: nat, hi: nat): (r: Option<nat>)
    requires lo <= hi <= |s|
    ensures r.Some? ==> lo <= r.value < hi && s[r.value] == x
    ensures r.None? ==> forall i | lo <= i < hi :: s[i] != x
    decreases hi - lo
  {
    if lo == hi then None
    else if s[lo] == x then Some(lo)
    else IndexIn(s, x, lo + 1, hi)
  }

  /** The initialized layers of ls[lo..n], topmost first. */
  function InitializedDown(ls: seq<Layer>, lo: nat, n: nat): (r: seq<Layer>)
    requires lo <= n <= |ls|
    reads ls
    ensures |r| <= n - lo
    ensures forall j | 0 <= j < |r| :: r[j].initialized && r[j] in ls[lo..n]
    ensures forall j | lo <= j < n && ls[j].initialized :: ls[j] in r
    decreases n - lo
  {
    if n == lo then []
    else if ls[n - 1].initialized then [ls[n - 1]] + InitializedDown(ls, lo, n - 1)
    else InitializedDown(ls, lo, n - 1)
  }

  /** The index of the topmost initialized layer of ls[..n] in `consumes`, or 0 when there is none. */
  function StopIndex(ls: seq<Layer>, n: nat, consumes: set<Layer>): (k: nat)
    requires n <= |ls|
    reads ls
    ensures n == 0 ==> k == 0
    ensures n > 0 ==> k < n
    ensures forall j | k < j < n :: !(ls[j].initialized && ls[j] in consumes)
    ensures (k < n && ls[k].initialized && ls[k] in consumes) ||
            forall j | 0 <= j < n :: !(ls[j].initialized && ls[j] in consumes)
    decreases n
  {
    if n == 0 then 0
    else if ls[n - 1].initialized && ls[n - 1] in consumes then n - 1
    else StopIndex(ls, n - 1, consumes)
  }

  /**
   * The layers `PropagateEvent` hands the event to, taking ls[n-1] down to
   * ls[0], and whether the event ends up handled: an initialized layer
   * receives the event unless it is handled already, and a layer of
   * `consumes` marks it handled.
   */
  function Propagate(ls: seq<Layer>, n: nat, handled: bool, consumes: set<Layer>): (r: (seq<Layer>, bool))
    requires n <= |ls|
    reads ls
    ensures handled ==> r == ([], true)
    ensures forall j | 0 <= j < |r.0| :: r.0[j].initialized && r.0[j] in ls[..n]
    ensures forall j | 0 <= j < |r.0| - 1 :: r.0[j] !in consumes
    ensures r.1 <==> handled || exists j | 0 <= j < n :: ls[j].initialized && ls[j] in consumes
    ensures r.1 && !handled ==> |r.0| > 0 && r.0[|r.0| - 1] in consumes
    decreases n
  {
    if n == 0 || handled then ([], handled)
    else
      var l := ls[n - 1];
      if l.initialized then
        var rest := Propagate(ls, n - 1, l in consumes, consumes);
        ([l] + rest.0, rest.1)
      else Propagate(ls, n - 1, handled, consumes)
  }

  /** The first layer of `ls` with the given name. */
  function FirstNamed(ls: seq<Layer>, name: string): Option<nat>
  {
    FirstWhere(ls, (l: Layer) => l.name == name)
  }

  /** `core::LayerStack`. */
  class LayerStack {
    var layers: seq<Layer>
    var insertIndex: nat

    /** The insert index splits the list into layers and overlays, and no layer is held twice. */
    ghost predicate Valid()
      reads this
    {
      insertIndex <= |layers| && Distinct(layers)
    }

    /** The ordinary layers, bottom first. */
    function Layers(): seq<Layer>
      reads this
      requires insertIndex <= |layers|
    {
      layers[..insertIndex]
    }

    /** The overlays, bottom first; they come after every ordinary layer. */
    function Overlays(): seq<Layer>
      reads this
      requires insertIndex <= |layers|
    {
      layers[insertIndex..]
    }

    constructor ()
      ensures Valid() && layers == [] && insertIndex == 0
    {
      layers := [];
      insertIndex := 0;
    }

    /** `PushLayer` (Layer.cpp:10-13): the layer goes on top of the ordinary layers, below every overlay. */
    method PushLayer(layer: Layer)
      requires Valid() && layer !in layers
      modifies this
      ensures Valid()
      ensures Layers() == old(Layers()) + [layer] && Overlays() == old(Overlays())
      ensures insertIndex == old(insertIndex) + 1
    {
      layers := layers[..insertIndex] + [layer] + layers[insertIndex..];
      insertIndex := insertIndex + 1;
      assert layers[..insertIndex] == old(layers[..insertIndex]) + [layer];
      assert layers[insertIndex..] == old(layers[insertIndex..]);
    }

    /** `PushOverlay` (Layer.cpp:15-17): the overlay goes on top of everything. */
    method PushOverlay(overlay: Layer)
      requires Valid() && overlay !in layers
      modifies this
      ensures Valid()
      ensures Overlays() == old(Overlays()) + [overlay] && Layers() == old(Layers())
      ensures insertIndex == old(insertIndex) && layers == old(layers) + [overlay]
    {
      layers := layers + [overlay];
      assert layers[..insertIndex] == old(layers)[..insertIndex];
    }

    /**
     * `PopLayer` (Layer.cpp:19-28): only the ordinary layers are searched; a
     * layer found there is uninitialized and removed, and the insert index
     * drops by one. An overlay or an unknown layer changes nothing.
     */
    method PopLayer(layer: Layer)
      requires Valid()
      modifies this, layer
      ensures Valid()
      ensures IndexIn(old(layers), layer, 0, old(insertIndex)).None? ==>
        layers == old(layers) && insertIndex == old(insertIndex) && layer.initialized == old(layer.initialized)
      ensures IndexIn(old(layers), layer, 0, old(insertIndex)).Some? ==>
        var k := IndexIn(old(layers), layer, 0, old(insertIndex)).value;
        layers == old(layers)[..k] + old(layers)[k + 1..] && insertIndex == old(insertIndex) - 1 && !layer.initialized
      ensures Overlays() == old(Overlays())
    {
      var it := FindLayer(layer, 0, insertIndex);
      if it.Some? {
        var k := it.value;
        layer.Uninitialize();
        layers := layers[..k] + layers[k + 1..];
        insertIndex := insertIndex - 1;
        assert layers[insertIndex..] == old(layers)[old(insertIndex)..];
        DistinctRemove(old(layers), k);
      }
    }

    /**
     * `PopOverlay` (Layer.cpp:30-38): only the overlays are searched; an
     * overlay found there is uninitialized and removed.
     */
    method PopOverlay(overlay: Layer)
      requires Valid()
      modifies this, overlay
      ensures Valid()
      ensures IndexIn(old(layers), overlay, old(insertIndex), |old(layers)|).None? ==>
        layers == old(layers) && overlay.initialized == old(overlay.initialized)
      ensures IndexIn(old(layers), overlay, old(insertIndex), |old(layers)|).Some? ==>
        var k := IndexIn(old(layers), overlay, old(insertIndex), |old(layers)|).value;
        layers == old(layers)[..k] + old(layers)[k + 1..] && !overlay.initialized
      ensures insertIndex == old(insertIndex) && Layers() == old(Layers())
    {
      var it := FindLayer(overlay, insertIndex, |layers|);
      if it.Some? {
        var k := it.value;
        overlay.Uninitialize();
        layers := layers[..k] + layers[k + 1..];
        assert layers[..insertIndex] == old(layers)[..insertIndex];
        DistinctRemove(old(layers), k);
      }
    }

    /** The `find_if` loop over [lo, hi). */
    method FindLayer(x: Layer, lo: nat, hi: nat) returns (r: Option<nat>)
      requires lo <= hi <= |layers|
      ensures r == IndexIn(layers, x, lo, hi)
    {
      var i := lo;
      while i < hi
        invariant lo <= i <= hi
        invariant IndexIn(layers, x, lo, hi) == IndexIn(layers, x, i, hi)
      {
        if layers[i] == x {
          return Some(i);
        }
        i := i + 1;
      }
      return None;
    }

    /** `InitializeAll` (Layer.cpp:40-46): afterwards every layer is initialized. */
    method InitializeAll()
      modifies set l | l in layers
      ensures layers == old(layers) && insertIndex == old(insertIndex)
      ensures forall l | l in layers :: l.initialized
    {
      var i := 0;
      while i < |layers|
        invariant 0 <= i <= |layers|
        invariant forall j | 0 <= j < i :: layers[j].initialized
      {
        if !layers[i].initialized {
          layers[i].Initialize();
        }
        i := i + 1;
      }
    }

    /** `UninitializeAll` (Layer.cpp:48-54): afterwards no layer is initialized. */
    method UninitializeAll()
      modifies set l | l in layers
      ensures layers == old(layers) && insertIndex == old(insertIndex)
      ensures forall l | l in layers :: !l.initialized
    {
      var i := 0;
      while i < |layers|
        invariant 0 <= i <= |layers|
        invariant forall j | 0 <= j < i :: !layers[j].initialized
      {
        if layers[i].initialized {
          layers[i].Uninitialize();
        }
        i := i + 1;
      }
    }

    /**
     * `PropagateEvent` (Layer.cpp:72-83): from the topmost overlay down to
     * the bottom layer, each initialized layer receives the event until it
     * is handled. Returns whether it ended up handled and the layers that
     * received it, in order.
     */
    method PropagateEvent(handled0: bool, consumes: set<Layer>) returns (handled: bool, visited: seq<Layer>)
      ensures (visited, handled) == Propagate(layers, |layers|, handled0, consumes)
    {
      handled, visited := handled0, [];
      var ls := layers;
      var i := |ls|;
      assert visited + Propagate(ls, i, handled, consumes).0 == Propagate(ls, i, handled, consumes).0;
      while i > 0 && !handled
        invariant 0 <= i <= |ls|
        invariant Propagate(ls, |ls|, handled0, consumes) ==
          (visited + Propagate(ls, i, handled, consumes).0, Propagate(ls, i, handled, consumes).1)
      {
        var l := ls[i - 1];
        if l.initialized {
          ghost var rest := Propagate(ls, i - 1, l in consumes, consumes);
          assert visited + ([l] + rest.0) == (visited + [l]) + rest.0;
          visited := visited + [l];
          handled := l in consumes;
        }
        i := i - 1;
      }
      assert Propagate(ls, i, handled, consumes) == ([], handled);
      assert visited + [] == visited;
    }

    /** `GetLayer` (Layer.cpp:85-92): the first layer with the name, or null. */
    method GetLayer(name: string) returns (r: Layer?)
      ensures FirstNamed(layers, name).None? ==> r == null
      ensures FirstNamed(layers, name).Some? ==> r == layers[FirstNamed(layers, name).value]
    {
      var i := 0;
      while i < |layers|
        invariant 0 <= i <= |layers|
        invariant forall j | 0 <= j < i :: layers[j].name != name
      {
        if layers[i].name == name {
          FirstWhereIs(layers, (l: Layer) => l.name == name, i);
          return layers[i];
        }
        i := i + 1;
      }
      return null;
    }
  }

  /** Removing one entry keeps a list free of repeats. */
  lemma DistinctRemove(s: seq<Layer>, k: nat)
    requires Distinct(s) && k < |s|
    ensures Distinct(s[..k] + s[k + 1..])
  {
    var t := s[..k] + s[k + 1..];
    forall i, j | 0 <= i < j < |t|
      ensures t[i] != t[j]
    {
      var i' := if i < k then i else i + 1;
      var j' := if j < k then j else j + 1;
      assert t[i] == s[i'] && t[j] == s[j'];
    }
  }

  /** One step of `Propagate` on an unhandled event. */
  lemma PropagateUnfold(ls: seq<Layer>, n: nat, consumes: set<Layer>)
    requires 0 < n <= |ls|
    ensures var l := ls[n - 1];
      Propagate(ls, n, false, consumes).0 ==
      (if l.initialized then [l] else []) + Propagate(ls, n - 1, l.initialized && l in consumes, consumes).0
  {
  }

  /** One step of `InitializedDown`. */
  lemma DownUnfold(ls: seq<Layer>, k: nat, n: nat)
    requires k < n <= |ls|
    ensures InitializedDown(ls, k, n) == (if ls[n - 1].initialized then [ls[n - 1]] else []) + InitializedDown(ls, k, n - 1)
  {
  }

  /**
   * No initialized layer is skipped: an unhandled event reaches exactly the
   * initialized layers from the top down to the topmost consumer, or all of
   * them when none consumes it.
   */
  lemma {:induction false} PropagateVisitsAll(ls: seq<Layer>, n: nat, consumes: set<Layer>)
    requires n <= |ls|
    ensures Propagate(ls, n, false, consumes).0 == InitializedDown(ls, StopIndex(ls, n, consumes), n)
    decreases n
  {
    if n > 0 {
      var l := ls[n - 1];
      var k := StopIndex(ls, n, consumes);
      PropagateUnfold(ls, n, consumes);
      DownUnfold(ls, k, n);
      if l.initialized && l in consumes {
        assert k == n - 1;
        assert Propagate(ls, n - 1, true, consumes).0 == [];
      } else {
        assert k == StopIndex(ls, n - 1, consumes);
        PropagateVisitsAll(ls, n - 1, consumes);
      }
    }
  }

  /** Uninitialized layers on top change nothing: propagation starts below them. */
  lemma {:induction false} PropagateSkipsUninitialized(ls: seq<Layer>, consumes: set<Layer>, t: nat, n: nat)
    requires t < n <= |ls|
    requires forall j | t < j < |ls| :: !ls[j].initialized
    ensures Propagate(ls, n, false, consumes) == Propagate(ls, t + 1, false, consumes)
    decreases n
  {
    if n > t + 1 {
      assert !ls[n - 1].initialized;
      PropagateSkipsUninitialized(ls, consumes, t, n - 1);
    }
  }

  /** A handled event reaches no layer; an unhandled one reaches the topmost initialized layer first. */
  lemma PropagateStartsAtTop(ls: seq<Layer>, consumes: set<Layer>, t: nat)
    requires t < |ls| && ls[t].initialized
    requires forall j | t < j < |ls| :: !ls[j].initialized
    ensures Propagate(ls, |ls|, true, consumes).0 == []
    ensures var r := Propagate(ls, |ls|, false, consumes); |r.0| > 0 && r.0[0] == ls[t]
  {
    PropagateSkipsUninitialized(ls, consumes, t, |ls|);
    var rest := Propagate(ls, t, ls[t] in consumes, consumes);
    assert Propagate(ls, t + 1, false, consumes) == ([ls[t]] + rest.0, rest.1);
  }
}
