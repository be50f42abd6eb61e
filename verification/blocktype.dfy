/** `setBlockType(nodeType, attrs)`: whether the command applies, decided by
    scanning the nodes the selection spans. */
module BlockType {
  import opened Doc

  /** `node.hasMarkup(nodeType, attrs)`: the node already has the type and
      the attributes; `sameAttrs` answers the attribute comparison. */
  predicate HasMarkup(n: Node, nodeType: NodeType, sameAttrs: Node -> bool) {
    n.ntype == nodeType && sameAttrs(n)
  }

  /** A visited node the command could change: a textblock without the
      target markup that either has the target type already (so only its
      attributes change) or whose parent accepts the target type in its
      place. */
  predicate Retypable(sc: Schema, v: Visit, nodeType: NodeType, sameAttrs: Node -> bool) {
    && v.node.ntype.isTextblock
    && !HasMarkup(v.node, nodeType, sameAttrs)
    && (v.node.ntype == nodeType || sc.canReplaceWith(v.parent, v.index, v.index + 1, nodeType))
  }

  /** `setBlockType`: applies exactly when some node between the
      selection's ends is retypable, and then retypes that range. */
  method SetBlockType(sc: Schema, st: State, nodeType: NodeType, sameAttrs: Node -> bool)
    returns (r: Option<Edit>)
    requires st.Valid()
    ensures var visits := sc.nodesBetween(st.doc, st.selection.From().Pos(), st.selection.To().Pos());
      r.Some? <==> exists i :: 0 <= i < |visits| && Retypable(sc, visits[i], nodeType, sameAttrs)
    ensures r.Some? ==> r.value == SetType(st.selection.From().Pos(), st.selection.To().Pos(), nodeType)
  {
    var from, to := st.selection.From().Pos(), st.selection.To().Pos();
    var visits := sc.nodesBetween(st.doc, from, to);
    var applicable := false;
    var i := 0;
    while i < |visits|
      invariant 0 <= i <= |visits|
      invariant applicable <==> exists j :: 0 <= j < i && Retypable(sc, visits[j], nodeType, sameAttrs)
    {
      // once applicable, the callback returns at once and changes nothing
      if !applicable {
        var v := visits[i];
        if v.node.ntype.isTextblock && !HasMarkup(v.node, nodeType, sameAttrs) {
          if v.node.ntype == nodeType {
            applicable := true;
          } else {
            applicable := sc.canReplaceWith(v.parent, v.index, v.index + 1, nodeType);
          }
        }
      }
      i := i + 1;
    }
    if !applicable {
      return None;
    }
    return Some(SetType(from, to, nodeType));
  }
}
