/**
 * The WebDAV response builder of src/util/xml.py: a nested dictionary becomes a `d:multistatus`
 * element tree (section 14.16 of RFC 4918), one `d:<key>` element per dictionary entry.
 * Dictionaries are sequences of entries in their iteration order.
 */
module WebdavXml {
  import opened Wrappers

  datatype Entry = Entry(key: string, value: Value)

  /** The JSON-like values a response dictionary holds; `VOther` stands for ints, None, booleans. */
  datatype Value = VStr(s: string) | VDict(entries: seq<Entry>) | VList(items: seq<Value>) | VOther

  datatype Element = Element(tag: string, attrs: seq<(string, string)>, text: Option<string>, children: seq<Element>)

  /** `data.items()` on a value that is not a dictionary. */
  datatype XmlError = AttributeError

  const Prefix := "xmlns:"

  /** `set_namespaces(ns)`: each prefix `k` becomes the attribute `xmlns:k`, its value unchanged. */
  function SetNamespaces(ns: seq<(string, string)>): (attrs: seq<(string, string)>)
    ensures |attrs| == |ns|
    ensures forall i :: 0 <= i < |ns| ==>
      |attrs[i].0| == |Prefix| + |ns[i].0| && attrs[i].0[..|Prefix|] == Prefix && attrs[i].0[|Prefix|..] == ns[i].0 && attrs[i].1 == ns[i].1
  {
    seq(|ns|, i requires 0 <= i < |ns| => (Prefix + ns[i].0, ns[i].1))
  }

  /** Distinct prefixes give distinct attribute names. */
  lemma SetNamespacesInjective(ns: seq<(string, string)>, i: int, j: int)
    requires 0 <= i < |ns| && 0 <= j < |ns| && ns[i].0 != ns[j].0
    ensures SetNamespaces(ns)[i].0 != SetNamespaces(ns)[j].0
  {
    var attrs := SetNamespaces(ns);
    assert attrs[i].0[|Prefix|..] == ns[i].0;
    assert attrs[j].0[|Prefix|..] == ns[j].0;
  }

  /** `to_webdav_child(parent, data)`: the elements added under `parent` for `data`. */
  function Children(data: Value): Result<seq<Element>, XmlError> {
    match data
    case VDict(es) => EntriesChildren(es)
    case _ => Err(AttributeError)
  }

  /** One `SubElement` per entry, in order. */
  function EntriesChildren(es: seq<Entry>): Result<seq<Element>, XmlError> {
    if es == [] then Ok([])
    else
      match EntriesChildren(es[..|es| - 1])
      case Err(e) => Err(e)
      case Ok(init) =>
        match EntryElement(es[|es| - 1])
        case Err(e) => Err(e)
        case Ok(el) => Ok(init + [el])
  }

  /** The element for one entry: a string is its text, a dictionary its children, each list item's entries go directly under it. */
  function EntryElement(e: Entry): Result<Element, XmlError> {
    var tag := "d:" + e.key;
    match e.value
    case VStr(s) => Ok(Element(tag, [], Some(s), []))
    case VDict(_) =>
      (match Children(e.value)
       case Err(x) => Err(x)
       case Ok(cs) => Ok(Element(tag, [], None, cs)))
    case VList(items) =>
      (match ItemsChildren(items)
       case Err(x) => Err(x)
       case Ok(cs) => Ok(Element(tag, [], None, cs)))
    case VOther => Ok(Element(tag, [], None, []))
  }

  /** `for item in value: to_webdav_child(elem, item)` */
  function ItemsChildren(items: seq<Value>): Result<seq<Element>, XmlError> {
    if items == [] then Ok([])
    else
      match ItemsChildren(items[..|items| - 1])
      case Err(e) => Err(e)
      case Ok(init) =>
        match Children(items[|items| - 1])
        case Err(e) => Err(e)
        case Ok(cs) => Ok(init + cs)
  }

  /** `to_webdav(data)`: the multistatus root with the `DAV:` namespace bound to `d`, holding the tree for `data`. */
  function ToWebdav(data: Value): (r: Result<Element, XmlError>)
    ensures r.Ok? ==> r.value.tag == "d:multistatus" && r.value.attrs == [("xmlns:d", "DAV:")] && r.value.text == None
  {
    match Children(data)
    case Err(e) => Err(e)
    case Ok(cs) =>
      assert SetNamespaces([("d", "DAV:")]) == [(Prefix + "d", "DAV:")];
      assert Prefix + "d" == "xmlns:d";
      Ok(Element("d:multistatus", SetNamespaces([("d", "DAV:")]), None, cs))
  }

  // ---------------------------------------------------------------------------------------------
  // Which inputs build, and what they build

  /** A value the builder accepts: the value itself is a dictionary, and so is every list item below it. */
  predicate Buildable(v: Value) {
    v.VDict? && ValueBuildable(v)
  }

  predicate EntriesBuildable(es: seq<Entry>) {
    es == [] || (EntriesBuildable(es[..|es| - 1]) && ValueBuildable(es[|es| - 1].value))
  }

  predicate ValueBuildable(v: Value) {
    match v
    case VDict(es) => EntriesBuildable(es)
    case VList(items) => ItemsBuildable(items)
    case _ => true
  }

  predicate ItemsBuildable(items: seq<Value>) {
    items == [] || (ItemsBuildable(items[..|items| - 1]) && items[|items| - 1].VDict? && ValueBuildable(items[|items| - 1]))
  }

  /** The number of dictionary keys in `v`, through nested dictionaries and list items. */
  function Keys(v: Value): nat {
    match v
    case VDict(es) => EntriesKeys(es)
    case VList(items) => ItemsKeys(items)
    case _ => 0
  }

  function EntriesKeys(es: seq<Entry>): nat {
    if es == [] then 0 else EntriesKeys(es[..|es| - 1]) + 1 + Keys(es[|es| - 1].value)
  }

  function ItemsKeys(items: seq<Value>): nat {
    if items == [] then 0 else ItemsKeys(items[..|items| - 1]) + Keys(items[|items| - 1])
  }

  /** The number of elements in a tree. */
  function Count(e: Element): nat {
    1 + Forest(e.children)
  }

  function Forest(cs: seq<Element>): nat {
    if cs == [] then 0 else Forest(cs[..|cs| - 1]) + Count(cs[|cs| - 1])
  }

  lemma {:induction false} ForestAppend(a: seq<Element>, b: seq<Element>)
    ensures Forest(a + b) == Forest(a) + Forest(b)
    decreases |b|
  {
    if b == [] {
      assert a + b == a;
    } else {
      assert (a + b)[..|a + b| - 1] == a + b[..|b| - 1];
      ForestAppend(a, b[..|b| - 1]);
    }
  }

  /**
   * The builder succeeds exactly on buildable values, and then adds one element per dictionary
   * key: with the root, the document has `1 + Keys(data)` elements.
   */
  lemma {:induction false} ChildrenSpec(v: Value)
    ensures Children(v).Ok? <==> Buildable(v)
    ensures Children(v).Ok? ==> Forest(Children(v).value) == Keys(v)
    decreases v, 2
  {
    if v.VDict? {
      EntriesSpec(v.entries);
    }
  }

  lemma {:induction false} EntriesSpec(es: seq<Entry>)
    ensures EntriesChildren(es).Ok? <==> EntriesBuildable(es)
    ensures EntriesChildren(es).Ok? ==> Forest(EntriesChildren(es).value) == EntriesKeys(es)
    decreases es
  {
    if es != [] {
      var init := es[..|es| - 1];
      var last := es[|es| - 1];
      EntriesSpec(init);
      EntrySpec(last);
      if EntriesChildren(es).Ok? {
        var cs := EntriesChildren(init).value;
        var el := EntryElement(last).value;
        ForestAppend(cs, [el]);
        assert [el][..0] == [];
      }
    }
  }

  lemma {:induction false} EntrySpec(e: Entry)
    ensures EntryElement(e).Ok? <==> ValueBuildable(e.value)
    ensures EntryElement(e).Ok? ==> Count(EntryElement(e).value) == 1 + Keys(e.value)
    decreases e
  {
    match e.value
    case VStr(_) =>
    case VOther =>
    case VDict(_) => ChildrenSpec(e.value);
    case VList(items) => ItemsSpec(items);
  }

  lemma {:induction false} ItemsSpec(items: seq<Value>)
    ensures ItemsChildren(items).Ok? <==> ItemsBuildable(items)
    ensures ItemsChildren(items).Ok? ==> Forest(ItemsChildren(items).value) == ItemsKeys(items)
    decreases items
  {
    if items != [] {
      var init := items[..|items| - 1];
      var last := items[|items| - 1];
      ItemsSpec(init);
      ChildrenSpec(last);
      if ItemsChildren(items).Ok? {
        ForestAppend(ItemsChildren(init).value, Children(last).value);
      }
    }
  }

  /** The whole document: built iff `data` is buildable, with `1 + Keys(data)` elements. */
  lemma ToWebdavCount(data: Value)
    ensures ToWebdav(data).Ok? <==> Buildable(data)
    ensures ToWebdav(data).Ok? ==> Count(ToWebdav(data).value) == 1 + Keys(data)
  {
    ChildrenSpec(data);
  }

  /**
   * The children built for a dictionary are one element per entry, in the dictionary's order,
   * each named `d:` followed by its key; a string value is the text, any other value gives no
   * text, and a value that is neither string, dictionary nor list gives an empty element.
   */
  lemma {:induction false} EntriesShape(es: seq<Entry>)
    requires EntriesChildren(es).Ok?
    ensures |EntriesChildren(es).value| == |es|
    ensures forall i :: 0 <= i < |es| ==> EntriesChildren(es).value[i].tag == "d:" + es[i].key
    ensures forall i :: 0 <= i < |es| ==> EntriesChildren(es).value[i].text == (if es[i].value.VStr? then Some(es[i].value.s) else None)
    ensures forall i :: 0 <= i < |es| && (es[i].value.VStr? || es[i].value.VOther?) ==> EntriesChildren(es).value[i].children == []
    decreases es
  {
    if es != [] {
      EntriesShape(es[..|es| - 1]);
    }
  }

  /** A list value's element holds, back to back and without wrappers, the children each item would get on its own. */
  lemma ListFlattens(key: string, a: seq<Value>, b: Value)
    requires ItemsChildren(a + [b]).Ok?
    ensures ItemsChildren(a).Ok? && Children(b).Ok?
    ensures EntryElement(Entry(key, VList(a + [b]))).value.children == ItemsChildren(a).value + Children(b).value
  {
    assert (a + [b])[..|a + [b]| - 1] == a;
  }

  /** An integer size or None under a key is dropped: the element is empty. */
  lemma OtherValuesDropped(key: string)
    ensures EntryElement(Entry(key, VOther)) == Ok(Element("d:" + key, [], None, []))
  {
  }
}
