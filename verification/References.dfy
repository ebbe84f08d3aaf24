/**
 What the URI of a reference selects.
 */
module References {
  import opened Dom
  import opened Spots
  import opened Dsig
  import opened Edits

  /** Reading back the ID from an xpointer, with either kind of quotes. */
  lemma XPointerReadBack(id: string)
    ensures XPointerId("xpointer(id('" + id + "'))") == Some(id)
    ensures XPointerId("xpointer(id(\"" + id + "\"))") == Some(id)
  {
    var a, b := "xpointer(id('", "xpointer(id(\"";
    var s, t := a + (id + "'))"), b + (id + "\"))");
    assert s == "xpointer(id('" + id + "'))" && t == "xpointer(id(\"" + id + "\"))";
    assert s[|a|..] == id + "'))" && t[|b|..] == id + "\"))";
    assert (id + "'))")[|id|..] == "'))" && (id + "\"))")[|id|..] == "\"))";
    assert t[12] == '"' && a[12] == '\'';
  }

  /** The empty URI selects every node but the comments; a fragment selects the subtree of the
      element with that ID, without its comments unless it is an xpointer. */
  lemma ResolvedNodes(suite: Suite, ids: map<string, Spot>, uri: string, doc: Document, s: Spot)
    requires WellIdentified(doc) && IdMap(suite.idsOf, doc) == Ok(ids) && s in AllSpots(doc)
    ensures var r := Resolve(ids, suite.external, uri, doc);
      r.Ok? && r.value.data.Xml? && r.value.data.nodeSet.Some? ==>
        var pointer := uri != "" && XPointerId(uri[1..]).Some?;
        (r.value.data.nodeSet.value.Contains(s.node.id) <==>
          && (uri != "" ==> r.value.target.Some? && r.value.target.value.node.id in UpIds(s, doc.rootId))
          && (pointer || !s.node.Comment?))
  {
    IdMapIsExact(suite.idsOf, doc);
    hide IdMap, Spots.Spots, XPointerId;
    var r := Resolve(ids, suite.external, uri, doc);
    if uri == "" {
      CollectedForest(doc.children, [], false, s);
      SpotIdsIn(doc.children, [], s);
    } else if r.Ok? && r.value.target.Some? {
      var t := r.value.target.value;
      var id := if XPointerId(uri[1..]).Some? then XPointerId(uri[1..]).value else uri[1..];
      assert MapsTo(ids, id, t);
      CollectedSubtree(doc, t, XPointerId(uri[1..]).Some?, s);
      AncestorIsSubtree(doc, s, t);
    }
  }
}
