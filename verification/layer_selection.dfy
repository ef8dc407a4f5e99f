/**
 How the WMS group layer is populated from the requested layer names. After
 connecting, the group layer holds every layer of the service. When names
 are requested, the group is cleared, every name is looked up in the service
 description, names that are not found are reported and skipped, and every
 found description becomes a map layer inserted at the position of its name
 in the request.

 Creating and inserting the map layer, its visibility and the layer file
 are calls into the desktop application and are not modelled; a placement
 records which description would be inserted at which position.
 */
module LayerSelection {
  import opened ServiceTree
  import opened LayerSearch

  /** A found description and the position of its name in the request, used as the insert position. */
  datatype Placement = Placement(index: nat, desc: Node)

  /** The lookup list: one lookup per requested name, in request order. */
  function LookupAll(root: Node, names: seq<string>): (descs: seq<Option<Node>>)
    ensures |descs| == |names|
    ensures forall i :: 0 <= i < |names| ==> descs[i] == FindLayer(root, names[i])
  {
    if |names| == 0 then []
    else
      var rest := LookupAll(root, names[1..]);
      assert forall i :: 1 <= i < |names| ==> names[i] == names[1..][i - 1];
      [FindLayer(root, names[0])] + rest
  }

  /**
   The loop over the lookup list. A missing description is skipped with a
   warning naming the requested layer; every present description is placed
   at the index of its name. Exactly the present descriptions are placed,
   in request order, and exactly the missing ones are warned about.
   */
  method PlaceLayers(names: seq<string>, descs: seq<Option<Node>>)
    returns (placed: seq<Placement>, skipped: seq<nat>, warnings: seq<string>)
    requires |descs| == |names|
    ensures |placed| + |skipped| == |names|
    ensures forall k :: 0 <= k < |placed| ==> placed[k].index < |names| && descs[placed[k].index] == Some(placed[k].desc)
    ensures forall k, l :: 0 <= k < l < |placed| ==> placed[k].index < placed[l].index
    ensures forall i :: 0 <= i < |names| && descs[i].Some? ==> exists k :: 0 <= k < |placed| && placed[k].index == i
    ensures forall k :: 0 <= k < |skipped| ==> skipped[k] < |names| && descs[skipped[k]].None?
    ensures forall k, l :: 0 <= k < l < |skipped| ==> skipped[k] < skipped[l]
    ensures forall i :: 0 <= i < |names| && descs[i].None? ==> exists k :: 0 <= k < |skipped| && skipped[k] == i
    ensures |warnings| == |skipped| && forall k :: 0 <= k < |skipped| ==> warnings[k] == names[skipped[k]]
  {
    placed, skipped, warnings := [], [], [];
    var i := 0;
    while i < |descs|
      invariant 0 <= i <= |descs|
      invariant |placed| + |skipped| == i
      invariant forall k :: 0 <= k < |placed| ==> placed[k].index < i && descs[placed[k].index] == Some(placed[k].desc)
      invariant forall k, l :: 0 <= k < l < |placed| ==> placed[k].index < placed[l].index
      invariant forall j :: 0 <= j < i && descs[j].Some? ==> exists k :: 0 <= k < |placed| && placed[k].index == j
      invariant forall k :: 0 <= k < |skipped| ==> skipped[k] < i && descs[skipped[k]].None?
      invariant forall k, l :: 0 <= k < l < |skipped| ==> skipped[k] < skipped[l]
      invariant forall j :: 0 <= j < i && descs[j].None? ==> exists k :: 0 <= k < |skipped| && skipped[k] == j
      invariant |warnings| == |skipped| && forall k :: 0 <= k < |skipped| ==> warnings[k] == names[skipped[k]]
    {
      match descs[i] {
        case None =>
          ghost var before := skipped;
          skipped := skipped + [i];
          warnings := warnings + [names[i]];
          assert forall k :: 0 <= k < |before| ==> skipped[k] == before[k];
          assert skipped[|before|] == i;
        case Some(d) =>
          ghost var before := placed;
          placed := placed + [Placement(i, d)];
          assert forall k :: 0 <= k < |before| ==> placed[k] == before[k];
          assert placed[|before|].index == i;
      }
      i := i + 1;
    }
  }

  /**
   The whole population step for a list of requested names. The group layer
   starts out holding every layer of the service; it is cleared only when
   names were requested, so an empty request clears nothing, places nothing
   and leaves all of the service's layers in the group. Every placed
   description is a data layer of the service carrying exactly the requested
   name at its index, and a name is skipped exactly when no data layer of
   the service carries it.
   */
  method PopulateGroupLayer(root: Node, names: seq<string>)
    returns (cleared: bool, placed: seq<Placement>, skipped: seq<nat>, warnings: seq<string>)
    ensures cleared <==> |names| > 0
    ensures |placed| + |skipped| == |names|
    ensures forall k :: 0 <= k < |placed| ==>
              && placed[k].index < |names|
              && IsLeaf(placed[k].desc)
              && placed[k].desc.name == names[placed[k].index]
              && StrictDescendant(placed[k].desc, root)
              && Some(placed[k].desc) == FindLayer(root, names[placed[k].index])
    ensures forall k, l :: 0 <= k < l < |placed| ==> placed[k].index < placed[l].index
    ensures forall k :: 0 <= k < |skipped| ==>
              && skipped[k] < |names|
              && forall d :: StrictDescendant(d, root) && IsLeaf(d) ==> d.name != names[skipped[k]]
    ensures forall k, l :: 0 <= k < l < |skipped| ==> skipped[k] < skipped[l]
    ensures |warnings| == |skipped| && forall k :: 0 <= k < |skipped| ==> warnings[k] == names[skipped[k]]
  {
    if |names| == 0 {
      return false, [], [], [];
    }
    cleared := true;
    var descs := LookupAll(root, names);
    placed, skipped, warnings := PlaceLayers(names, descs);
    forall k | 0 <= k < |skipped|
      ensures forall d :: StrictDescendant(d, root) && IsLeaf(d) ==> d.name != names[skipped[k]]
    {
      FindLayerNoneIff(root, names[skipped[k]]);
    }
  }
}
