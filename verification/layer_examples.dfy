/**
 Concrete service trees that pin down the lookup's observable behaviour:
 depth-first order across a folder, folder names that never match, exact
 and case-sensitive comparison, and a leaf root.
 */
module LayerExamples {
  import opened ServiceTree
  import opened LayerSearch

  /**
   A service (description 0) with folder "A" (description 1) holding leaves
   "X" (2) and "Y" (3), followed by a second, top-level leaf "X" (4).
   */
  function SampleService(): Node {
    Node(0, "Root", [Node(1, "A", [Node(2, "X", []), Node(3, "Y", [])]), Node(4, "X", [])])
  }

  /**
   "X" resolves to description 2, the leaf inside folder "A", which comes
   first in pre-order; the top-level "X" (description 4) is never returned.
   "Z" is not found.
   */
  lemma SampleServiceLookups()
    ensures Leaves(SampleService()) == [Node(2, "X", []), Node(3, "Y", []), Node(4, "X", [])]
    ensures FindLayer(SampleService(), "X") == Some(Node(2, "X", []))
    ensures FindLayer(SampleService(), "X") != Some(Node(4, "X", []))
    ensures FindLayer(SampleService(), "Y") == Some(Node(3, "Y", []))
    ensures FindLayer(SampleService(), "Z") == None
  {
  }

  /** A name carried only by folders is never found, not even the root's own name. */
  lemma FolderNamesDoNotMatch()
    ensures FindLayer(SampleService(), "A") == None
    ensures FindLayer(SampleService(), "Root") == None
  {
  }

  /** Names are compared exactly: neither case nor surrounding blanks are normalised. */
  lemma ExactNameComparison()
    ensures FindLayer(Node(0, "Root", [Node(1, "roads", [])]), "Roads") == None
    ensures FindLayer(Node(0, "Root", [Node(1, "Roads ", [])]), "Roads") == None
    ensures FindLayer(Node(0, "Root", [Node(1, "Roads", [])]), "Roads") == Some(Node(1, "Roads", []))
  {
  }
}
