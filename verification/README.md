# Layer lookup of the WMS-to-JSON import script

The script connects a desktop GIS application to a WMS endpoint. It then
builds a WMS group layer, which starts out holding every layer of the
service. When the caller names particular layers, the group is cleared and
only those layers are put back. To find them, the script looks each
requested name up in the service description. When no names are given (the
script's only live call, AddWMSasLayerToMXD.py:220), the group keeps every
layer of the service. The service description is the layer hierarchy that a WMS
GetCapabilities document advertises (OGC WMS 1.3.0, section 7.2.4.6): a tree
of layer descriptions, each with a `Name` and an ordered list of child
descriptions.

This project models that lookup and the loop that uses it:

- `ServiceTree` holds the tree. A `Node` is an identity, a name, and its
  children in index order. The identity stands for the description object
  itself, so two data layers that share a name are different values. A node
  without children is a data layer (a leaf); a node with children is a
  folder. `Leaves(n)` lists the data layers strictly below `n`
  in depth-first, left-to-right pre-order. `FirstNamed` picks the earliest
  element of such a list that has a given name. Together they are the
  reference definition the search is proved against.
- `LayerSearch` holds the recursive search `find_layer`, written two ways.
  `FindLayer` is a pure function that scans the children in index order.
  `FindLayerLoop` transcribes the script's loop: the `layer` variable, the
  early `return` on a leaf hit, and the `break` after a successful recursive
  search.
- `LayerSelection` holds the caller, `CreateWMSGroupLayer`. When names are
  requested, it clears the group layer and looks up every requested name.
  It skips each missing description with a warning naming the layer, and
  places each found description at the index of its name in the request.
- `LayerExamples` holds concrete trees: depth-first order across a folder,
  folder names that never match, exact case-sensitive comparison.

The tree is an immutable value, so the search cannot modify it. A
description's truthiness test (`if layer:`) is modelled as `Some?`. A found
description is a non-null handle and so is always truthy.

Because every description carries its identity, "which one is returned" is
observable. `FindLayerPicksFirstPosition` states that the result is the
description at the first position of `Leaves(n)` that has the name.
`FindLayerSkipsLaterLeaves` states that a later description with the same
name is never returned. `FindLayerAppend` states that siblings after a hit
never affect the result.

The insert position in the caller is the index `i` of the name in the
request, not the number of layers placed so far. So when a name is skipped,
later layers keep their original indices. `Placement.index` records this.

## Model

| member | source | states |
|---|---|---|
| LayerSearch.FindLayer | AddWMSasLayerToMXD.py:141-155 | A found description is a data layer (no children). Its name equals the requested name exactly. It lies strictly below the node searched, so the node passed in is never returned. |
| LayerSearch.FindLayerIsFirstLeaf | AddWMSasLayerToMXD.py:144-155 | First match wins. The lookup returns the earliest data layer, in depth-first left-to-right pre-order over the strict descendants, whose name equals the target. It returns "not found" when there is none. |
| LayerSearch.FindLayerPicksFirstPosition | AddWMSasLayerToMXD.py:145-154 | When the data layer at position j of the pre-order listing is the first one carrying the target name, the lookup returns exactly that description. |
| LayerSearch.FindLayerSkipsLaterLeaves | AddWMSasLayerToMXD.py:145-154 | When an earlier data layer in pre-order carries the target name, a later, different description with that name is never returned. |
| LayerSearch.FindLayerNoneIff | AddWMSasLayerToMXD.py:144-155 | "Not found" is an ordinary result. It is returned exactly when no data layer strictly below the node carries the name, so a name carried only by folders is not found. |
| LayerSearch.RootNeverCandidate | AddWMSasLayerToMXD.py:144-145 | The identity and name of the node passed in never affect the result. A node with no children yields "not found" whatever its name, because the loop body never runs. |
| LayerSearch.FindLayerAppend | AddWMSasLayerToMXD.py:145-154 | Later siblings are not inspected once a match is found. Appending children after a hit leaves the result unchanged. After a miss, the result is the lookup over the appended children alone. |
| LayerSearch.FindLayerLoop | AddWMSasLayerToMXD.py:141-155 | The loop as written, with its `layer` variable, early return and break, returns the first pre-order data layer with the requested name, or "not found". |
| LayerSelection.LookupAll | AddWMSasLayerToMXD.py:114 | The lookup list has one entry per requested name, in the same order. Entry i is the lookup of name i. |
| LayerSelection.PlaceLayers | AddWMSasLayerToMXD.py:117-126 | Exactly the present descriptions are placed, each at the index of its name, in request order. Exactly the missing ones are skipped, in order, each with a warning carrying its name. Placed plus skipped equals the number of names. |
| LayerSelection.PopulateGroupLayer | AddWMSasLayerToMXD.py:113-126 | The group layer is cleared exactly when names are requested, so an empty request leaves every layer of the service in the group and places nothing. Every placed description is a data layer of the service carrying the requested name at its index. A name is skipped only when no data layer of the service carries it. |
| LayerExamples.SampleServiceLookups | AddWMSasLayerToMXD.py:145-154 | In a tree with folder "A" holding leaves "X" and "Y", followed by a top-level leaf "X", "X" resolves to the "X" inside "A", which is first in pre-order, and never to the top-level "X". "Z" is not found. |
| LayerExamples.FolderNamesDoNotMatch | AddWMSasLayerToMXD.py:147-152 | The names of the folder "A" and of the root are never found, because folders are searched but never compared. |
| LayerExamples.ExactNameComparison | AddWMSasLayerToMXD.py:148 | "Roads" does not match a leaf named "roads" or "Roads ". It matches only "Roads". |

## Left out

- COM object creation and casting (`CreateObject`, `NewObj`, `CType`, `GetModule`, AddWMSasLayerToMXD.py:15-65): calls into a foreign component library.
- Registry lookup `GetLibPath` (AddWMSasLayerToMXD.py:53-58): platform I/O.
- WMS connection `ConnectWMS` (AddWMSasLayerToMXD.py:69-100): network and COM. The service description it returns appears only as the `Node` tree.
- Creating, showing and inserting the WMS map layers, the contents of the group layer, and writing the layer file and map document (AddWMSasLayerToMXD.py:24-29, 117, 124-137): calls into the desktop application and file I/O. The model stops at which description goes to which insert position.
- Printing the warning to standard error (AddWMSasLayerToMXD.py:122): output. The model returns the warned names instead.
- Raster-to-polygon conversion, selection, dissolve, explode, field calculation and GeoJSON export (AddWMSasLayerToMXD.py:158-193, 196-463): delegated to a geoprocessing library, with geometry and floating point.
- The locked-file probe over the temporary directory (AddWMSasLayerToMXD.py:311-321): filesystem side effects only.
- LayerSearch.FindLayer: names are taken as already-decoded character sequences and compared with `==`. The script runs under Python 2, where the description's `Name` arrives as a unicode string and the requested names are byte strings. A requested name with non-ASCII bytes therefore compares unequal to the same unicode `Name`, and `find_layer` misses a layer that `FindLayer` finds.
- LayerSelection.PlaceLayers: assumes that creating a map layer, setting its visibility and inserting it (AddWMSasLayerToMXD.py:124-126) never fail. In the script, a COM error there, or a failed cast that leaves `None` at line 125, aborts the loop. Later names are then neither placed nor warned about, so `|placed| + |skipped| == |names|` would not hold.
- LayerSelection.PopulateGroupLayer: relies on `PlaceLayers`, so it makes the same assumption that layer creation and insertion never fail.
