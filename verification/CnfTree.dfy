/** A configuration tree of llconf as a value: what struct cnfnode and its first_child/next links hold. */
module CnfTree {
  import opened Wrappers

  datatype Node = Node(name: string, value: Option<string>, children: seq<Node>)
}
