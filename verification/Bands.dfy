/** The windows of a dependent axis: a band of layers around each centre, clipped to the model's layers. */
module Bands {
  import opened Wrappers

  function Low(centre: int, width: nat): int {
    if centre - width / 2 < 0 then 0 else centre - width / 2
  }

  function High(centre: int, width: nat, layers: nat): int {
    var above := width - width / 2;
    if layers - 1 < centre + above - 1 then layers - 1 else centre + above - 1
  }

  /** The integers from lo to hi, both included. */
  function Range(lo: int, hi: int): seq<int> {
    if hi < lo then [] else seq(hi - lo + 1, i requires 0 <= i < hi - lo + 1 => lo + i)
  }

  function Band(centre: int, width: nat, layers: nat): seq<int> {
    Range(Low(centre, width), High(centre, width, layers))
  }

  /** Some layer of the model is within reach of the centre. */
  predicate Reaches(centre: int, width: nat, layers: nat) {
    0 < layers && centre - width / 2 < layers && 0 < centre + (width - width / 2)
  }

  /** Build every band; None when one of them is empty, which the source asserts never happens. */
  method ClippedBands(centres: seq<int>, width: nat, layers: nat) returns (bands: Option<seq<seq<int>>>)
    requires width >= 1
    ensures bands.Some? <==> forall i {:trigger centres[i]} :: 0 <= i < |centres| ==> Reaches(centres[i], width, layers)
    ensures bands.Some? ==> |bands.value| == |centres|
    ensures bands.Some? ==> forall i {:trigger bands.value[i]} :: 0 <= i < |centres| ==>
              bands.value[i] == Band(centres[i], width, layers)
  {
    var below, above := width / 2, width - width / 2;
    var built: seq<seq<int>> := [];
    for i := 0 to |centres|
      invariant |built| == i
      invariant forall k {:trigger built[k]} :: 0 <= k < i ==> built[k] == Band(centres[k], width, layers)
    {
      var lo := if centres[i] - below < 0 then 0 else centres[i] - below;
      var hi := if layers - 1 < centres[i] + above - 1 then layers - 1 else centres[i] + above - 1;
      built := built + [Range(lo, hi)];
    }
    forall i | 0 <= i < |centres| ensures built[i] != [] <==> Reaches(centres[i], width, layers) {
      BandIs(centres[i], width, layers, 0);
    }
    if exists i :: 0 <= i < |built| && built[i] == [] {
      return None;
    }
    bands := Some(built);
  }

  /** A band is exactly the model's layers in the window of `width` layers around the centre, in order. */
  lemma BandIs(centre: int, width: nat, layers: nat, layer: int)
    requires width >= 1
    ensures layer in Band(centre, width, layers)
            <==> 0 <= layer < layers && centre - width / 2 <= layer < centre + (width - width / 2)
    ensures forall i {:trigger Band(centre, width, layers)[i]} :: 0 < i < |Band(centre, width, layers)| ==>
              Band(centre, width, layers)[i] == Band(centre, width, layers)[0] + i
    ensures Band(centre, width, layers) != [] <==> Reaches(centre, width, layers)
  {
    var lo, hi := Low(centre, width), High(centre, width, layers);
    if lo <= layer <= hi {
      assert Range(lo, hi)[layer - lo] == layer;
    }
  }

  /** The window keeps its full width exactly where it is not clipped; a centre inside the tower is in its band. */
  lemma FullWhereUnclipped(centre: int, width: nat, layers: nat)
    requires width >= 1 && 0 <= centre < layers
    ensures centre in Band(centre, width, layers) && |Band(centre, width, layers)| <= width
    ensures |Band(centre, width, layers)| == width <==> width / 2 <= centre && centre + (width - width / 2) <= layers
  {
    BandIs(centre, width, layers, centre);
  }

  /** In a model of 8 layers no window of 3 around a centre of 12 holds a layer, and the assertion fails. */
  method CentreOutside() returns (bands: Option<seq<seq<int>>>)
    ensures bands == None && !Reaches(12, 3, 8) && Reaches(4, 3, 8)
  {
    var centres := [4, 12];
    bands := ClippedBands(centres, 3, 8);
    assert centres[1] == 12;
  }
}
