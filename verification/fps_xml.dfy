/** The shape of the XML the fps config class builds: an `<fps>` root whose
    children are `<fp>` elements, each with an optional `operation` attribute and
    a sequence of leaf children `<tag>text</tag>`. Serialisation to text is not
    modelled; a fragment is the tree value itself. */
module FpsXml {
  import opened Wrappers

  const NameTag: string := "name"
  const LogicalPortTag: string := "logical-port"
  const FdNameTag: string := "fd-name"

  /** The value of the `operation` attribute that marks a deletion. */
  const RemoveOperation: string := "remove"

  /** A leaf child `<tag>text</tag>` of an `<fp>` element. */
  datatype Leaf = Leaf(tag: string, text: string)

  /** An `<fp>` element: its `operation` attribute (None when the element carries
      no attribute, i.e. the transport's default merge applies) and its leaf
      children in document order. */
  datatype Fp = Fp(operation: Option<string>, leaves: seq<Leaf>)

  /** The `<fps>` root element the chosen strategy's fragments are appended to. */
  datatype FpsRoot = FpsRoot(children: seq<Fp>)

  /** The text of the first leaf tagged `tag`, or None when there is no such leaf. */
  function Find(leaves: seq<Leaf>, tag: string): Option<string> {
    if |leaves| == 0 then None
    else if leaves[0].tag == tag then Some(leaves[0].text)
    else Find(leaves[1..], tag)
  }

  /** Looking a tag up in a leaf list that starts with `l`. */
  lemma FindCons(l: Leaf, rest: seq<Leaf>, tag: string)
    ensures Find([l] + rest, tag) == if l.tag == tag then Some(l.text) else Find(rest, tag)
  {
    assert ([l] + rest)[1..] == rest;
  }
}
