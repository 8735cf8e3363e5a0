/**
 * The Markdown plugin that marks every image with the `responsive-img` class,
 * through the `data.hProperties.className` list the HTML conversion reads.
 */
module ResponsiveImages {
  import opened Wrappers

  const ResponsiveClass := "responsive-img"

  /** `data.hProperties`: the class list, when there is one, and the other properties. */
  datatype HProperties = HProperties(className: Option<seq<string>>, other: map<string, string>)

  /** `node.data`: the HTML properties, when there are any, and the other data fields. */
  datatype NodeData = NodeData(hProperties: Option<HProperties>, other: map<string, string>)

  /** The class list of a node's data; an absent list (at any level) is the empty list. */
  function ClassList(data: Option<NodeData>): seq<string> {
    if data.None? || data.value.hProperties.None? || data.value.hProperties.value.className.None? then []
    else data.value.hProperties.value.className.value
  }

  /**
   * The data after one callback: missing `data`, `hProperties` and `className`
   * are initialised to empty ones, existing ones are kept, and the class is
   * pushed at the end of the list.
   */
  function WithResponsiveClass(data: Option<NodeData>): (r: NodeData)
    ensures ClassList(Some(r)) == ClassList(data) + [ResponsiveClass]
    ensures r.hProperties.Some? && r.hProperties.value.className.Some?
    ensures data.Some? ==> r.other == data.value.other
    ensures data.None? ==> r.other == map[]
    ensures data.Some? && data.value.hProperties.Some? ==>
      r.hProperties.value.other == data.value.hProperties.value.other
  {
    var d := data.GetOr(NodeData(None, map[]));
    var hp := d.hProperties.GetOr(HProperties(None, map[]));
    var classes := hp.className.GetOr([]);
    d.(hProperties := Some(hp.(className := Some(classes + [ResponsiveClass]))))
  }

  /**
   * There is no duplicate check: two callbacks push the class twice, and the
   * list grows by one per callback with the earlier entries unchanged.
   */
  lemma AppliedTwiceAppendsTwice(data: Option<NodeData>)
    ensures ClassList(Some(WithResponsiveClass(Some(WithResponsiveClass(data)))))
      == ClassList(data) + [ResponsiveClass, ResponsiveClass]
    ensures |ClassList(Some(WithResponsiveClass(data)))| == |ClassList(data)| + 1
    ensures ClassList(Some(WithResponsiveClass(data)))[..|ClassList(data)|] == ClassList(data)
    ensures ClassList(Some(WithResponsiveClass(data)))[|ClassList(data)|] == ResponsiveClass
  {
    var once := WithResponsiveClass(data);
    assert ClassList(Some(WithResponsiveClass(Some(once)))) == ClassList(Some(once)) + [ResponsiveClass];
    assert ClassList(Some(once)) + [ResponsiveClass] == ClassList(data) + [ResponsiveClass] + [ResponsiveClass];
  }

  /** A node of the Markdown tree that the visitor may change in place. */
  class ImageNode {
    var nodeType: string
    var url: string
    var data: Option<NodeData>

    constructor (nodeType: string, url: string, data: Option<NodeData>)
      ensures this.nodeType == nodeType && this.url == url && this.data == data
    {
      this.nodeType := nodeType;
      this.url := url;
      this.data := data;
    }
  }

  /**
   * The `visit(tree, "image", ...)` callback for one node: only image nodes are
   * visited, and for those the three `??` initialisations and the push are made
   * on the node's data one after another.
   */
  method VisitImage(node: ImageNode)
    modifies node
    ensures node.nodeType == old(node.nodeType) && node.url == old(node.url)
    ensures old(node.nodeType) != "image" ==> node.data == old(node.data)
    ensures old(node.nodeType) == "image" ==> node.data == Some(WithResponsiveClass(old(node.data)))
  {
    if node.nodeType != "image" {
      return;
    }
    if node.data.None? {
      node.data := Some(NodeData(None, map[]));
    }
    if node.data.value.hProperties.None? {
      node.data := Some(node.data.value.(hProperties := Some(HProperties(None, map[]))));
    }
    if node.data.value.hProperties.value.className.None? {
      node.data := Some(node.data.value.(hProperties := Some(node.data.value.hProperties.value.(className := Some([])))));
    }
    var hp := node.data.value.hProperties.value;
    node.data := Some(node.data.value.(hProperties := Some(hp.(className := Some(hp.className.value + [ResponsiveClass])))));
  }
}
