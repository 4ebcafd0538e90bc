/**
 * The document tree the decorator works on: the text, element and comment
 * nodes of a HAST tree, and the property map an element carries.
 */
module Hast {
  import opened Wrappers

  /** A scalar property value: a presence flag or a string. */
  datatype Value = Bool(flag: bool) | Str(text: string)

  /**
   * A property map. The list-valued `className` key has a field of its own
   * (absent or a list of class tokens); every other key lives in `attrs`.
   */
  datatype Props = Props(className: Option<seq<string>>, attrs: map<string, Value>)

  /** The `className` key is never duplicated into `attrs`. */
  type PropertyMap = p: Props | "className" !in p.attrs witness Props(None, map[])

  /** The empty property map `{}`. */
  const Empty: PropertyMap := Props(None, map[])

  /**
   * A node. `properties` may be missing on an element and `children` is
   * optional, as in the tree's type declarations. `tagName` stands for the
   * element's remaining fields, which object spreads copy along.
   */
  datatype Node =
    | Text(value: string)
    | Element(tagName: string, properties: Option<PropertyMap>, children: ChildList)
    | Comment(value: string)

  /** An element's optional `children` array. */
  datatype ChildList = Missing | Present(nodes: seq<Node>)

  /** `node.children`: only elements have a child list, and it may be missing. */
  function Children(n: Node): Option<seq<Node>> {
    if n.Element? && n.children.Present? then Some(n.children.nodes) else None
  }

  /** `props.className || []`: the class list, empty when the key is absent. */
  function ClassList(p: PropertyMap): seq<string> {
    p.className.GetOr([])
  }

  /** `node.type === 'element'`. */
  predicate IsElement(n: Node) {
    n.Element?
  }
}
