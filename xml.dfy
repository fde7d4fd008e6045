/** The markup document as an abstract element tree, with the navigation
    operations of the document library that the program relies on. */
module Xml {
  import opened Wrappers
  import opened Seqs

  /** An element: its tag name, its attributes and its child elements. Text
      content is not modelled. */
  datatype Element = Element(name: string, attrs: map<string, string>, children: seq<Element>)

  datatype LookupError = NotFound | MissingId(index: nat)

  /** `get_attr`. */
  function Attr(e: Element, key: string): (r: Option<string>)
    ensures r.Some? <==> key in e.attrs
    ensures r.Some? ==> r.value == e.attrs[key]
  {
    if key in e.attrs then Some(e.attrs[key]) else None
  }

  /** `first_element_by_name`: the first child element with tag `name`. */
  function FirstByName(e: Element, name: string): (r: Option<nat>)
    ensures r.Some? ==> r.value < |e.children| && e.children[r.value].name == name
    ensures r.Some? ==> forall j :: 0 <= j < r.value ==> e.children[j].name != name
    ensures r.None? ==> forall j :: 0 <= j < |e.children| ==> e.children[j].name != name
  {
    FirstIndex(e.children, (c: Element) => c.name == name)
  }

  /** `child_elements().find(|c| c.get_attr("id").unwrap() == id)`: the first
      child whose `id` is `id`; reaching a child without an `id` first is a
      failure (the `unwrap`). */
  function FindById(e: Element, id: string): (r: Result<nat, LookupError>)
    ensures r.Ok? ==> r.value < |e.children| && Attr(e.children[r.value], "id") == Some(id)
    ensures r.Ok? ==> forall j :: 0 <= j < r.value ==> Attr(e.children[j], "id").Some? && Attr(e.children[j], "id") != Some(id)
    ensures r == Err(NotFound) ==>
      forall j :: 0 <= j < |e.children| ==> Attr(e.children[j], "id").Some? && Attr(e.children[j], "id") != Some(id)
    ensures r.Err? && r.error.MissingId? ==>
      && r.error.index < |e.children| && Attr(e.children[r.error.index], "id").None?
      && forall j :: 0 <= j < r.error.index ==> Attr(e.children[j], "id").Some? && Attr(e.children[j], "id") != Some(id)
  {
    match FirstIndex(e.children, (c: Element) => Attr(c, "id") != Some(id) ==> Attr(c, "id").None?)
    case None => Err(NotFound)
    case Some(k) => if Attr(e.children[k], "id").None? then Err(MissingId(k)) else Ok(k)
  }

  /** `set_attr`. */
  function SetAttr(e: Element, key: string, value: string): (r: Element)
    ensures r.name == e.name && r.children == e.children
    ensures Attr(r, key) == Some(value)
    ensures forall k :: k != key ==> Attr(r, k) == Attr(e, k)
  {
    e.(attrs := e.attrs[key := value])
  }

  /** `append`: adds a child element after the existing ones. */
  function Append(e: Element, child: Element): (r: Element)
    ensures r.name == e.name && r.attrs == e.attrs
    ensures |r.children| == |e.children| + 1
    ensures r.children[..|e.children|] == e.children && r.children[|e.children|] == child
    ensures r.children == e.children + [child]
  {
    e.(children := e.children + [child])
  }

  /** `remove_elements_by_name`: drops every child element with tag `name`
      and keeps the others, in order. */
  function RemoveElementsByName(e: Element, name: string): (r: Element)
    ensures r.name == e.name && r.attrs == e.attrs
    ensures forall i :: 0 <= i < |r.children| ==> r.children[i] in e.children && r.children[i].name != name
    ensures forall i :: 0 <= i < |e.children| && e.children[i].name != name ==> e.children[i] in r.children
  {
    e.(children := Filter(e.children, (c: Element) => c.name != name))
  }

  /** Removal works child by child and keeps the order: the result for a
      list of children is the results for its parts, concatenated, and a
      single child is kept exactly when its tag is not `name`. */
  lemma RemoveElementsByNameKeepsOrder(e: Element, name: string, a: seq<Element>, b: seq<Element>, c: Element)
    ensures RemoveElementsByName(e.(children := a + b), name).children
      == RemoveElementsByName(e.(children := a), name).children + RemoveElementsByName(e.(children := b), name).children
    ensures RemoveElementsByName(e.(children := [c]), name).children == if c.name != name then [c] else []
  {
    FilterAppend(a, b, (c: Element) => c.name != name);
  }

  // ----------------------------------------------------------------- paths

  /** One navigation step: the first child with a tag, or the first child
      with an `id` (as FindById). */
  datatype Step = ByName(name: string) | ById(id: string)

  /** The child index a step selects. */
  function StepIndex(e: Element, step: Step): (r: Option<nat>)
    ensures r.Some? ==> r.value < |e.children|
  {
    match step
    case ByName(name) => FirstByName(e, name)
    case ById(id) => match FindById(e, id) case Ok(k) => Some(k) case Err(_) => None
  }

  /** The child indices a chain of steps selects, or nothing when a step
      finds no child. */
  function Locate(e: Element, steps: seq<Step>): (r: Option<seq<nat>>)
    ensures r.Some? ==> |r.value| == |steps| && IsPath(e, r.value)
    decreases steps
  {
    if steps == [] then Some([])
    else match StepIndex(e, steps[0])
      case None => None
      case Some(k) =>
        match Locate(e.children[k], steps[1..])
        case None => None
        case Some(rest) => Some([k] + rest)
  }

  /** The indices lead through existing children. */
  predicate IsPath(e: Element, path: seq<nat>)
    decreases path
  {
    path == [] || (path[0] < |e.children| && IsPath(e.children[path[0]], path[1..]))
  }

  /** Each index of a located path is the child its step selects in the
      element reached by the indices before it. */
  lemma {:induction false} LocateSelects(e: Element, steps: seq<Step>, path: seq<nat>)
    requires Locate(e, steps) == Some(path)
    ensures forall i :: 0 <= i < |steps| ==>
      IsPath(e, path[..i]) && StepIndex(At(e, path[..i]), steps[i]) == Some(path[i])
    decreases steps
  {
    if steps != [] {
      var k := path[0];
      var child := e.children[k];
      var rest := path[1..];
      assert Locate(child, steps[1..]) == Some(rest);
      LocateSelects(child, steps[1..], rest);
      forall i | 0 <= i < |steps|
        ensures IsPath(e, path[..i]) && StepIndex(At(e, path[..i]), steps[i]) == Some(path[i])
      {
        if i == 0 {
          assert path[..0] == [];
        } else {
          var q := path[..i];
          assert q[0] == k && q[1..] == rest[..i - 1];
          assert steps[i] == steps[1..][i - 1] && path[i] == rest[i - 1];
        }
      }
    }
  }

  /** Locating fails only when, along the way, some step finds no child:
      the steps before it lead somewhere, and it selects nothing there. */
  lemma {:induction false} LocateFails(e: Element, steps: seq<Step>)
    requires Locate(e, steps).None?
    ensures exists i :: (0 <= i < |steps| && Locate(e, steps[..i]).Some? &&
                         StepIndex(At(e, Locate(e, steps[..i]).value), steps[i]).None?)
    decreases steps
  {
    assert steps != [];
    assert steps[..0] == [];
    match StepIndex(e, steps[0])
    case None =>
      assert Locate(e, steps[..0]) == Some([]);
    case Some(k) =>
      var child := e.children[k];
      LocateFails(child, steps[1..]);
      var j :| 0 <= j < |steps[1..]| && Locate(child, steps[1..][..j]).Some?
        && StepIndex(At(child, Locate(child, steps[1..][..j]).value), steps[1..][j]).None?;
      var p := Locate(child, steps[1..][..j]).value;
      assert steps[..j + 1][0] == steps[0] && steps[..j + 1][1..] == steps[1..][..j];
      assert Locate(e, steps[..j + 1]) == Some([k] + p);
      assert ([k] + p)[0] == k && ([k] + p)[1..] == p;
      assert At(e, [k] + p) == At(child, p);
      assert steps[j + 1] == steps[1..][j];
  }

  /** The element at the end of a path. */
  function At(e: Element, path: seq<nat>): Element
    requires IsPath(e, path)
    decreases path
  {
    if path == [] then e else At(e.children[path[0]], path[1..])
  }

  /** The tree with the element at the end of `path` replaced by `x`. */
  function ReplaceAt(e: Element, path: seq<nat>, x: Element): (r: Element)
    requires IsPath(e, path)
    ensures path != [] ==> r.name == e.name && r.attrs == e.attrs && |r.children| == |e.children|
    ensures IsPath(r, path)
    decreases path
  {
    if path == [] then x
    else
      var k := path[0];
      e.(children := e.children[k := ReplaceAt(e.children[k], path[1..], x)])
  }

  /** After replacing, the path leads to the new element. */
  lemma {:induction false} AtReplaceAt(e: Element, path: seq<nat>, x: Element)
    requires IsPath(e, path)
    ensures At(ReplaceAt(e, path, x), path) == x
    decreases path
  {
    if path != [] {
      AtReplaceAt(e.children[path[0]], path[1..], x);
    }
  }

  /** Replacing a child by one with the same tag and attributes does not
      change which child a step selects. */
  lemma StepIndexStable(e: Element, step: Step, k: nat, c: Element)
    requires StepIndex(e, step) == Some(k)
    requires c.name == e.children[k].name && c.attrs == e.children[k].attrs
    ensures StepIndex(e.(children := e.children[k := c]), step) == Some(k)
  {
    var e' := e.(children := e.children[k := c]);
    assert Attr(c, "id") == Attr(e.children[k], "id");
    match step
    case ByName(name) =>
      FirstIndexIs(e'.children, (c: Element) => c.name == name, k);
    case ById(id) =>
      FirstIndexIs(e'.children, (c: Element) => Attr(c, "id") != Some(id) ==> Attr(c, "id").None?, k);
  }

  /** Swapping the located element for one with the same tag and
      attributes leaves the navigation intact: locating again finds the
      new element. */
  lemma {:induction false} LocateAfterReplace(e: Element, steps: seq<Step>, x: Element)
    requires Locate(e, steps).Some?
    requires x.name == At(e, Locate(e, steps).value).name && x.attrs == At(e, Locate(e, steps).value).attrs
    ensures Locate(ReplaceAt(e, Locate(e, steps).value, x), steps) == Locate(e, steps)
    ensures At(ReplaceAt(e, Locate(e, steps).value, x), Locate(e, steps).value) == x
    decreases steps
  {
    var path := Locate(e, steps).value;
    AtReplaceAt(e, path, x);
    if steps != [] {
      var k := path[0];
      var child := e.children[k];
      assert Locate(child, steps[1..]).Some? && Locate(child, steps[1..]).value == path[1..];
      LocateAfterReplace(child, steps[1..], x);
      var child' := ReplaceAt(child, path[1..], x);
      assert child'.name == child.name && child'.attrs == child.attrs by {
        if path[1..] == [] {
          assert At(e, path) == child;
        }
      }
      StepIndexStable(e, steps[0], k, child');
    }
  }
}
