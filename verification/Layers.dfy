/** The chain of storage layers, fastest first, that placement walks down. */
module Layers {

  datatype LayerInfo = LayerInfo(capacityMb: real)

  class Layer {
    var id: int
    var capacityMb: real
    var next: Layer?
    var previous: Layer?

    constructor ()
      ensures next == null && previous == null
    {
      next, previous := null, null;
    }
  }

  /** Layer ids are stored in eight bits. */
  function IdAt(order: nat): (id: int)
    ensures 0 <= id < 256
  {
    (order + 1) % 256
  }

  /** Ids rise along the chain, and so identify layers, exactly for at most 255 layers. */
  lemma IdsRiseIff(n: nat)
    ensures (forall i, j :: 0 <= i < j < n ==> IdAt(i) < IdAt(j)) <==> n <= 255
  {
    if n > 255 {
      assert IdAt(255) < IdAt(0);
    }
  }

  /** The 256th layer gets id 0, and the 257th that of the first. */
  lemma ManyLayersShareIds()
    ensures IdAt(0) == 1 && IdAt(254) == 255 && IdAt(255) == 0 && IdAt(256) == IdAt(0)
  {
  }

  /** `next` runs through the layers of the chain in order and ends in null; `previous` runs back. */
  ghost predicate Linked(chain: seq<Layer>)
    reads chain
  {
    && (forall i :: 0 <= i < |chain| - 1 ==> chain[i].next == chain[i + 1])
    && (forall i :: 0 <= i < |chain| - 1 ==> chain[i + 1].previous == chain[i])
    && (chain != [] ==> chain[0].previous == null && chain[|chain| - 1].next == null)
  }

  class ConfigurationManager {
    var first: Layer?
    var last: Layer?
    ghost var chain: seq<Layer>

    /** `first` and `last` are the ends of a linked chain. */
    ghost predicate Chained()
      reads this, chain
    {
      && Linked(chain)
      && (chain != [] ==> first == chain[0])
      && last == (if chain == [] then null else chain[|chain| - 1])
    }

    ghost predicate Valid()
      reads this, chain
    {
      && Chained()
      && forall i :: 0 <= i < |chain| ==> chain[i].id == IdAt(i)
    }

    constructor ()
      ensures Valid() && first == null && chain == []
    {
      first, last, chain := null, null, [];
    }

    /** The chain so far describes the first |chain| entries of `layers`. */
    ghost predicate Built(layers: seq<LayerInfo>)
      reads this, chain
    {
      && |chain| <= |layers|
      && Linked(chain)
      && (forall i, j :: 0 <= i < j < |chain| ==> chain[i] != chain[j])
      && forall i :: 0 <= i < |chain| ==> chain[i].id == IdAt(i) && chain[i].capacityMb == layers[i].capacityMb
    }

    method BuildLayers(layers: seq<LayerInfo>)
      modifies this
      ensures Valid() && fresh(chain) && |chain| == |layers|
      ensures forall i :: 0 <= i < |layers| ==> chain[i].capacityMb == layers[i].capacityMb
      ensures layers == [] ==> first == old(first)
    {
      var previousLayer: Layer? := null;
      chain := [];
      for order := 0 to |layers|
        invariant fresh(chain) && |chain| == order && Built(layers)
        invariant if order == 0 then first == old(first) else first == chain[0]
        invariant previousLayer == if order == 0 then null else chain[order - 1]
      {
        previousLayer := AddLayer(layers, order, previousLayer);
      }
      last := previousLayer;
    }

    /** One round of the loop of BuildLayers. */
    method AddLayer(layers: seq<LayerInfo>, order: nat, previousLayer: Layer?) returns (currentLayer: Layer)
      requires Built(layers) && order == |chain| < |layers|
      requires previousLayer == if order == 0 then null else chain[order - 1]
      modifies this, previousLayer
      ensures fresh(currentLayer) && chain == old(chain) + [currentLayer] && Built(layers)
      ensures first == if order == 0 then currentLayer else old(first)
    {
      ghost var before := chain;
      currentLayer := new Layer();
      if order == 0 {
        first := currentLayer;
      }
      currentLayer.id := (order + 1) % 256;
      currentLayer.capacityMb := layers[order].capacityMb;
      currentLayer.previous := previousLayer;
      currentLayer.next := null;
      if previousLayer != null {
        previousLayer.next := currentLayer;
      }
      chain := chain + [currentLayer];
      assert Linked(chain) by {
        forall i | 0 <= i < |chain| - 1
          ensures chain[i].next == chain[i + 1] && chain[i + 1].previous == chain[i]
        {
          if i < order - 1 {
            assert before[i].next == before[i + 1] && before[i + 1].previous == before[i];
            assert before[i] != before[order - 1];
          }
        }
      }
    }

    ghost predicate IsFirstWith(i: int, id: int)
      reads this, chain
    {
      0 <= i < |chain| && chain[i].id == id && forall j :: 0 <= j < i ==> chain[j].id != id
    }

    /** The layer that a Layer(id) copy is filled from: the first one with that id. */
    method FindLayer(id: int) returns (found: Layer?)
      requires Valid() && chain != []
      ensures found == null <==> forall i :: 0 <= i < |chain| ==> chain[i].id != id
      ensures found != null ==> exists i :: IsFirstWith(i, id) && found == chain[i]
    {
      var current := first;
      ghost var n := 0;
      while current != null
        invariant n <= |chain|
        invariant current == if n < |chain| then chain[n] else null
        invariant forall j :: 0 <= j < n ==> chain[j].id != id
        decreases |chain| - n
      {
        assert n < |chain| - 1 ==> chain[n].next == chain[n + 1];
        if current.id == id {
          assert IsFirstWith(n, id);
          return current;
        }
        current := current.next;
        n := n + 1;
      }
      return null;
    }
  }
}
