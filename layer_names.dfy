/** The qualified layer names of the asset (src/assets.rs:174-183): the loop
    visits layers in id order and prefixes a layer's name with its parent's
    current name and `"::"`, e.g. `"Woman::Hair"`. */
module LayerNames {
  import opened Wrappers
  import opened Document

  /** The names before the loop: `layer.name()` for every layer, in id order. */
  function RawNames(layers: seq<Layer>): (names: seq<string>)
    ensures |names| == |layers|
    ensures forall i :: 0 <= i < |layers| ==> names[i] == layers[i].name
  {
    seq(|layers|, i requires 0 <= i < |layers| => layers[i].name)
  }

  /** The names once the loop has visited layers `0..n`. */
  function NamesAfter(layers: seq<Layer>, n: nat): (names: seq<string>)
    requires ParentsInRange(layers) && n <= |layers|
    ensures |names| == |layers|
    ensures forall i :: n <= i < |layers| ==> names[i] == layers[i].name
  {
    if n == 0 then RawNames(layers)
    else
      var s := NamesAfter(layers, n - 1);
      match layers[n - 1].parent
      case None => s
      case Some(p) => s[n - 1 := s[p] + "::" + s[n - 1]]
  }

  /** The renaming loop, rewriting the name list in place. */
  method QualifyNames(layers: seq<Layer>) returns (names: seq<string>)
    requires ParentsInRange(layers)
    ensures names == NamesAfter(layers, |layers|)
  {
    names := RawNames(layers);
    var id := 0;
    while id < |layers|
      invariant 0 <= id <= |layers|
      invariant names == NamesAfter(layers, id)
    {
      match layers[id].parent {
        case None =>
        case Some(parent) =>
          names := names[id := names[parent] + "::" + names[id]];
      }
      id := id + 1;
    }
  }

  /** The loop only ever rewrites the entry of the layer it visits, so an
      entry is final once its layer has been visited. */
  lemma {:induction false} NameSettled(layers: seq<Layer>, i: nat, n: nat)
    requires ParentsInRange(layers) && i < n <= |layers|
    ensures NamesAfter(layers, n)[i] == NamesAfter(layers, i + 1)[i]
  {
    if n > i + 1 {
      NameSettled(layers, i, n - 1);
    }
  }

  /** The final list has one name per layer; a layer without a parent keeps
      its own name; a layer with a parent gets the parent's entry as it stood
      when the layer was visited, `"::"`, and its own name. That entry is the
      parent's final (qualified) name when the parent has a smaller id, and
      its bare name otherwise. */
  lemma QualifiedName(layers: seq<Layer>, i: nat)
    requires ParentsInRange(layers) && i < |layers|
    ensures var names := NamesAfter(layers, |layers|);
      && |names| == |layers|
      && (layers[i].parent.None? ==> names[i] == layers[i].name)
      && (layers[i].parent.Some? ==>
           var p := layers[i].parent.value;
           names[i] == (if p < i then names[p] else layers[p].name) + "::" + layers[i].name)
  {
    var names := NamesAfter(layers, |layers|);
    NameSettled(layers, i, |layers|);
    if layers[i].parent.Some? {
      var p := layers[i].parent.value;
      if p < i {
        NameSettled(layers, p, |layers|);
        NameSettled(layers, p, i);
      }
    }
  }

  /** The full path of a layer: its ancestors' names, outermost first, then
      its own, joined by `"::"`. */
  function FullPath(layers: seq<Layer>, i: nat): string
    requires ParentsInRange(layers) && ParentsPrecede(layers) && i < |layers|
    decreases i
  {
    match layers[i].parent
    case None => layers[i].name
    case Some(p) => FullPath(layers, p) + "::" + layers[i].name
  }

  /** When parents precede their children, every final name is the layer's
      full path. */
  lemma {:induction false} NamesAreFullPaths(layers: seq<Layer>, i: nat)
    requires ParentsInRange(layers) && ParentsPrecede(layers) && i < |layers|
    ensures NamesAfter(layers, |layers|)[i] == FullPath(layers, i)
    decreases i
  {
    QualifiedName(layers, i);
    if layers[i].parent.Some? {
      NamesAreFullPaths(layers, layers[i].parent.value);
    }
  }

  /** A group "Woman" with a child layer "Hair" is addressed as "Woman::Hair". */
  lemma NestedLayerName()
    ensures var layers := [Layer("Woman", Group, None), Layer("Hair", Normal, Some(0))];
      NamesAfter(layers, |layers|) == ["Woman", "Woman::Hair"]
  {
    var layers := [Layer("Woman", Group, None), Layer("Hair", Normal, Some(0))];
    assert NamesAfter(layers, 0) == ["Woman", "Hair"];
    assert NamesAfter(layers, 1) == ["Woman", "Hair"];
    assert NamesAfter(layers, 2) == ["Woman", "Woman" + "::" + "Hair"];
    assert "Woman" + "::" + "Hair" == "Woman::Hair";
  }
}
