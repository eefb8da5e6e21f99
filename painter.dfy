/** The painter (`Painter`): drawables registered on numbered layers, drawn every frame from
    layer 0 upwards. Drawing itself is not modelled: `DrawAll` yields the drawables in the
    order their `Draw` is called. */
module Painters {
  import opened Wrappers
  import opened Utils

  /** The drawables of `layers`, layer 0 first, each layer in registration order. */
  function Flatten<D>(layers: seq<seq<D>>): seq<D>
  {
    if layers == [] then [] else Flatten(layers[..|layers| - 1]) + layers[|layers| - 1]
  }

  /** Flattening a split list of layers flattens each part. */
  lemma {:induction false} FlattenAppend<D>(a: seq<seq<D>>, b: seq<seq<D>>)
    ensures Flatten(a + b) == Flatten(a) + Flatten(b)
    decreases |b|
  {
    if b == [] {
      assert a + b == a;
    } else {
      assert (a + b)[..|a + b| - 1] == a + b[..|b| - 1];
      FlattenAppend(a, b[..|b| - 1]);
    }
  }

  lemma FlattenOne<D>(layer: seq<D>)
    ensures Flatten([layer]) == layer
  {
    assert [layer][..0] == [];
  }

  /** What is drawn around layer `i`: the layers below it, then it, then the layers above. */
  lemma FlattenAround<D>(layers: seq<seq<D>>, i: nat)
    requires i < |layers|
    ensures Flatten(layers) == Flatten(layers[..i]) + layers[i] + Flatten(layers[i + 1..])
  {
    assert layers == layers[..i] + [layers[i]] + layers[i + 1..];
    FlattenAppend(layers[..i] + [layers[i]], layers[i + 1..]);
    FlattenAppend(layers[..i], [layers[i]]);
    FlattenOne(layers[i]);
  }

  /** Every drawable of a lower layer is drawn before every drawable of a higher one. */
  lemma LowerLayersFirst<D>(layers: seq<seq<D>>, i: nat, j: nat)
    requires i < j < |layers|
    ensures Flatten(layers) ==
      Flatten(layers[..i]) + layers[i] + Flatten(layers[i + 1..j]) + layers[j] + Flatten(layers[j + 1..])
  {
    FlattenAround(layers, j);
    var below := layers[..j];
    FlattenAround(below, i);
    assert below[..i] == layers[..i] && below[i] == layers[i] && below[i + 1..] == layers[i + 1..j];
  }

  /** A drawable is drawn exactly when some layer holds it. */
  lemma {:induction false} FlattenHas<D>(layers: seq<seq<D>>, d: D)
    ensures d in Flatten(layers) <==> exists i :: 0 <= i < |layers| && d in layers[i]
  {
    if layers != [] {
      var init := layers[..|layers| - 1];
      FlattenHas(init, d);
      if d in Flatten(init) {
        var i :| 0 <= i < |init| && d in init[i];
        assert d in layers[i];
      }
      forall i | 0 <= i < |layers| - 1 && d in layers[i]
        ensures d in Flatten(init)
      {
        assert init[i] == layers[i];
      }
    }
  }

  /** The index of the first layer holding `d`, or -1. */
  function FirstLayerWith<D(==)>(layers: seq<seq<D>>, d: D): (i: int)
    ensures -1 <= i < |layers|
    ensures i == -1 <==> forall k :: 0 <= k < |layers| ==> d !in layers[k]
    ensures 0 <= i ==> d in layers[i] && forall k :: 0 <= k < i ==> d !in layers[k]
  {
    if layers == [] then -1
    else if d in layers[0] then 0
    else
      var j := FirstLayerWith(layers[1..], d);
      assert forall k :: 1 <= k < |layers| ==> layers[k] == layers[1..][k - 1];
      if j < 0 then -1 else j + 1
  }

  /** The layers after unregistering `d`: its first occurrence in the first layer holding it
      is removed; with no such layer nothing changes. */
  function Unregistered<D(==)>(layers: seq<seq<D>>, d: D): seq<seq<D>>
  {
    var i := FirstLayerWith(layers, d);
    if i < 0 then layers else layers[i := RemoveFromArray(layers[i], d)]
  }

  /** Unregistering removes exactly one occurrence of `d` from what is drawn, if it was drawn
      at all, and keeps the number of layers. */
  lemma UnregisteredDrawsOneLess<D>(layers: seq<seq<D>>, d: D)
    ensures |Unregistered(layers, d)| == |layers|
    ensures multiset(Flatten(Unregistered(layers, d))) == multiset(Flatten(layers)) - multiset{d}
  {
    var i := FirstLayerWith(layers, d);
    FlattenHas(layers, d);
    if i >= 0 {
      var r := Unregistered(layers, d);
      FlattenAround(layers, i);
      FlattenAround(r, i);
      assert r[..i] == layers[..i] && r[i + 1..] == layers[i + 1..];
      var below, above := multiset(Flatten(layers[..i])), multiset(Flatten(layers[i + 1..]));
      assert multiset(Flatten(layers)) == below + multiset(layers[i]) + above;
      assert multiset(Flatten(r)) == below + multiset(r[i]) + above;
      assert multiset(r[i]) == multiset(layers[i]) - multiset{d};
    }
  }

  class Painter<D(==)> {
    const layerNumber: nat
    var layers: seq<seq<D>>

    ghost predicate Valid()
      reads this
    {
      |layers| == layerNumber
    }

    /** Lines 16-25: `layerNumber` layers, all empty. */
    constructor(layerNumber: nat)
      ensures Valid() && this.layerNumber == layerNumber
      ensures forall i :: 0 <= i < layerNumber ==> layers[i] == []
    {
      this.layerNumber := layerNumber;
      layers := [];
      new;
      for i := 0 to layerNumber
        invariant |layers| == i && forall k :: 0 <= k < i ==> layers[k] == []
      {
        layers := layers + [[]];
      }
    }

    /** Lines 35-38: the drawables whose `Draw` is called, in the order of the calls. */
    method DrawAll() returns (drawn: seq<D>)
      requires Valid()
      ensures drawn == Flatten(layers)
    {
      drawn := [];
      for i := 0 to layerNumber
        invariant drawn == Flatten(layers[..i])
      {
        assert layers[..i + 1][..i] == layers[..i];
        for j := 0 to |layers[i]|
          invariant drawn == Flatten(layers[..i]) + layers[i][..j]
        {
          drawn := drawn + [layers[i][j]];
          assert layers[i][..j + 1] == layers[i][..j] + [layers[i][j]];
        }
        assert layers[i][..|layers[i]|] == layers[i];
      }
      assert layers[..layerNumber] == layers;
    }

    /** Lines 44-49. An index above `layerNumber` or below 0 is refused with an error; the
        index `layerNumber` itself passes the guard and fails on the missing layer. */
    method RegisterDrawable(d: D, layerIndex: int) returns (r: Outcome)
      requires Valid()
      modifies this
      ensures Valid()
      ensures r.Fail? && r.fault.Thrown? <==> layerIndex > layerNumber || layerIndex < 0
      ensures r.Fail? && r.fault.TypeError? <==> layerIndex == layerNumber
      ensures r.Pass? ==> layers == old(layers)[layerIndex := old(layers)[layerIndex] + [d]]
      ensures r.Fail? ==> layers == old(layers)
    {
      if layerIndex > layerNumber || layerIndex < 0 {
        return Fail(Thrown("Invalid layer index"));
      }
      if layerIndex == layerNumber {
        return Fail(TypeError("Cannot read properties of undefined (reading 'push')"));
      }
      layers := layers[layerIndex := layers[layerIndex] + [d]];
      r := Pass;
    }

    /** Lines 44-49 with the guard the error message describes, `layerIndex >= layerNumber`:
        every index without a layer is refused with the error, and no registration reaches a
        missing layer. */
    method RegisterDrawableChecked(d: D, layerIndex: int) returns (r: Outcome)
      requires Valid()
      modifies this
      ensures Valid()
      ensures r.Fail? <==> layerIndex >= layerNumber || layerIndex < 0
      ensures r.Fail? ==> r.fault.Thrown? && layers == old(layers)
      ensures r.Pass? ==> layers == old(layers)[layerIndex := old(layers)[layerIndex] + [d]]
    {
      if layerIndex >= layerNumber || layerIndex < 0 {
        return Fail(Thrown("Invalid layer index"));
      }
      layers := layers[layerIndex := layers[layerIndex] + [d]];
      r := Pass;
    }

    /** Lines 51-64: tries the layers from index 0 upwards and stops at the first one that
        held `d`, removing it there. */
    method TryUnregisterDrawable(d: D) returns (unregistered: bool)
      requires Valid()
      modifies this
      ensures Valid()
      ensures unregistered <==> d in Flatten(old(layers))
      ensures layers == Unregistered(old(layers), d)
    {
      ghost var layers0 := layers;
      FlattenHas(layers, d);
      unregistered := false;
      var layerId := 0;
      while layerId < layerNumber
        invariant 0 <= layerId <= layerNumber && layers == layers0
        invariant forall k :: 0 <= k < layerId ==> d !in layers[k]
      {
        var (rest, removed) := TryRemoveFromArray(layers[layerId], d);
        layers := layers[layerId := rest];
        if removed {
          unregistered := true;
          break;
        }
        layerId := layerId + 1;
      }
      assert !unregistered ==> FirstLayerWith(layers0, d) == -1;
      assert unregistered ==> FirstLayerWith(layers0, d) == layerId;
    }

    /** Lines 66-69: an error exactly when `d` was on no layer. */
    method UnregisterDrawable(d: D) returns (r: Outcome)
      requires Valid()
      modifies this
      ensures Valid()
      ensures r.Fail? <==> d !in Flatten(old(layers))
      ensures layers == Unregistered(old(layers), d)
    {
      var unregistered := TryUnregisterDrawable(d);
      if !unregistered {
        return Fail(Thrown("This drawable is not registered"));
      }
      r := Pass;
    }
  }
}
