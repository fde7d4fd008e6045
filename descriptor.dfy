/** Module descriptors: identity by UUID, reading one from the `id`/`value`
    attribute children of an element, and rendering one back. */
module Descriptor {
  import opened Wrappers
  import opened Seqs
  import opened Xml

  /** `ModuleDescription`. */
  datatype ModuleDescription = ModuleDescription(
    folder: string,
    md5: string,
    name: string,
    publishHandle: Option<string>,
    uuid: string,
    version64: string)

  /** A mod: its own descriptor and the descriptors it declares as
      dependencies. */
  datatype Module = Module(description: ModuleDescription, dependencies: seq<ModuleDescription>)

  /** The game itself appears as a mod whose name starts with this. */
  const BASE_GAME_PREFIX: string := "Gustav"

  predicate IsBaseGame(d: ModuleDescription) {
    StartsWith(d.name, BASE_GAME_PREFIX)
  }

  // -------------------------------------------------------------- identity

  /** `PartialEq`: two descriptors are the same module when their UUIDs are. */
  predicate SameModule(a: ModuleDescription, b: ModuleDescription) {
    a.uuid == b.uuid
  }

  /** What `Hash` feeds to the hasher: the UUID alone. */
  function HashKey(d: ModuleDescription): string {
    d.uuid
  }

  lemma SameModuleIsEquivalence(a: ModuleDescription, b: ModuleDescription, c: ModuleDescription)
    ensures SameModule(a, a)
    ensures SameModule(a, b) ==> SameModule(b, a)
    ensures SameModule(a, b) && SameModule(b, c) ==> SameModule(a, c)
  {
  }

  /** Equal descriptors hash alike, and the hash key distinguishes the rest. */
  lemma HashAgreesWithEquality(a: ModuleDescription, b: ModuleDescription)
    ensures SameModule(a, b) <==> HashKey(a) == HashKey(b)
  {
  }

  // --------------------------------------------------------------- reading

  /** Child `k` is the first child of `children` whose `id` is `key`. */
  predicate IsFirstWithId(children: seq<Element>, key: string, k: nat) {
    && k < |children|
    && Attr(children[k], "id") == Some(key)
    && forall j :: 0 <= j < k ==> Attr(children[j], "id") != Some(key)
  }

  /** `ModuleDescription::get_attr`: the `value` of the first child whose
      `id` is `key`; children without an `id` are passed over. */
  function GetAttr(elem: Element, key: string): Option<string> {
    match FirstIndex(elem.children, (c: Element) => Attr(c, "id") == Some(key))
    case None => None
    case Some(k) => Attr(elem.children[k], "value")
  }

  /** get_attr reads the `value` of the first child with the key as `id`
      (which may itself lack a `value`). */
  lemma GetAttrFirst(elem: Element, key: string, k: nat)
    requires IsFirstWithId(elem.children, key, k)
    ensures GetAttr(elem, key) == Attr(elem.children[k], "value")
  {
    FirstIndexIs(elem.children, (c: Element) => Attr(c, "id") == Some(key), k);
  }

  /** get_attr finds nothing when no child has the key as `id`. */
  lemma GetAttrAbsent(elem: Element, key: string)
    requires forall j :: 0 <= j < |elem.children| ==> Attr(elem.children[j], "id") != Some(key)
    ensures GetAttr(elem, key).None?
  {
  }

  /** The attributes `parse` cannot do without, in the order it reads them. */
  const REQUIRED: seq<string> := ["Folder", "MD5", "Name", "UUID", "Version64"]

  /** `ModuleDescription::parse`; a missing required attribute is reported
      by its id (the `unwrap` that fails first). */
  function Parse(elem: Element): (r: Result<ModuleDescription, string>)
    ensures r.Ok? <==>
      && GetAttr(elem, "Folder").Some? && GetAttr(elem, "MD5").Some? && GetAttr(elem, "Name").Some?
      && GetAttr(elem, "UUID").Some? && GetAttr(elem, "Version64").Some?
    ensures r.Ok? ==>
      && Some(r.value.folder) == GetAttr(elem, "Folder")
      && Some(r.value.md5) == GetAttr(elem, "MD5")
      && Some(r.value.name) == GetAttr(elem, "Name")
      && r.value.publishHandle == GetAttr(elem, "PublishHandle")
      && Some(r.value.uuid) == GetAttr(elem, "UUID")
      && Some(r.value.version64) == GetAttr(elem, "Version64")
    ensures r.Err? ==> r.error in REQUIRED && GetAttr(elem, r.error).None?
  {
    var folder := GetAttr(elem, "Folder");
    var md5 := GetAttr(elem, "MD5");
    var name := GetAttr(elem, "Name");
    var publishHandle := GetAttr(elem, "PublishHandle");
    var uuid := GetAttr(elem, "UUID");
    var version64 := GetAttr(elem, "Version64");
    assert REQUIRED[0] == "Folder" && REQUIRED[1] == "MD5" && REQUIRED[2] == "Name";
    assert REQUIRED[3] == "UUID" && REQUIRED[4] == "Version64";
    if folder.None? then Err("Folder")
    else if md5.None? then Err("MD5")
    else if name.None? then Err("Name")
    else if uuid.None? then Err("UUID")
    else if version64.None? then Err("Version64")
    else Ok(ModuleDescription(folder.value, md5.value, name.value, publishHandle, uuid.value, version64.value))
  }

  /** Parses every element in order; the first that does not parse is the
      failure (`map(parse)` with its `unwrap`s, then `collect`). */
  function ParseAll(elems: seq<Element>): (r: Result<seq<ModuleDescription>, string>)
    ensures r.Ok? <==> forall i :: 0 <= i < |elems| ==> Parse(elems[i]).Ok?
    ensures r.Ok? ==> |r.value| == |elems| && forall i :: 0 <= i < |elems| ==> Parse(elems[i]) == Ok(r.value[i])
    ensures r.Err? ==> exists i :: 0 <= i < |elems| && Parse(elems[i]) == Err(r.error)
  {
    match FirstIndex(elems, (e: Element) => Parse(e).Err?)
    case Some(k) => Err(Parse(elems[k]).error)
    case None => Ok(seq(|elems|, i requires 0 <= i < |elems| => Parse(elems[i]).value))
  }

  /** The declared dependencies that are not the base game, in declaration
      order. */
  function WithoutBaseGame(deps: seq<ModuleDescription>): (r: seq<ModuleDescription>)
    ensures forall i :: 0 <= i < |r| ==> r[i] in deps && !IsBaseGame(r[i])
    ensures forall i :: 0 <= i < |deps| && !IsBaseGame(deps[i]) ==> deps[i] in r
  {
    Filter(deps, (d: ModuleDescription) => !IsBaseGame(d))
  }

  /** The filter works dependency by dependency and keeps the order: the
      result for a list is the results for its parts, concatenated, and a
      single dependency is kept exactly when it is not the base game. */
  lemma WithoutBaseGameKeepsOrder(a: seq<ModuleDescription>, b: seq<ModuleDescription>, d: ModuleDescription)
    ensures WithoutBaseGame(a + b) == WithoutBaseGame(a) + WithoutBaseGame(b)
    ensures WithoutBaseGame([d]) == if IsBaseGame(d) then [] else [d]
  {
    FilterAppend(a, b, (d: ModuleDescription) => !IsBaseGame(d));
  }

  // ------------------------------------------------------------- rendering

  const FIELD_IDS: seq<string> := ["Folder", "MD5", "Name", "PublishHandle", "UUID", "Version64"]
  const FIELD_TYPES: seq<string> := ["LSString", "LSString", "LSString", "uint64", "guid", "int64"]

  /** The publish handle as rendered: "0" when there is none. */
  function PublishHandleText(d: ModuleDescription): string {
    match d.publishHandle
    case Some(h) => h
    case None => "0"
  }

  function FieldValues(d: ModuleDescription): (values: seq<string>)
    ensures |values| == |FIELD_IDS|
  {
    [d.folder, d.md5, d.name, PublishHandleText(d), d.uuid, d.version64]
  }

  /** An `<attribute id=.. type=.. value=../>` element. */
  function AttributeElement(id: string, typeName: string, value: string): Element {
    Element("attribute", map["id" := id, "type" := typeName, "value" := value], [])
  }

  /** The `ModuleShortDesc` node a descriptor is rendered as: one typed
      attribute child per field, in FIELD_IDS order. */
  function ShortDesc(d: ModuleDescription): (e: Element)
    ensures e.name == "node" && Attr(e, "id") == Some("ModuleShortDesc")
    ensures |e.children| == |FIELD_IDS|
    ensures forall i :: 0 <= i < |FIELD_IDS| ==>
      && e.children[i].name == "attribute"
      && Attr(e.children[i], "id") == Some(FIELD_IDS[i])
      && Attr(e.children[i], "type") == Some(FIELD_TYPES[i])
      && Attr(e.children[i], "value") == Some(FieldValues(d)[i])
  {
    var values := FieldValues(d);
    Element("node", map["id" := "ModuleShortDesc"],
      seq(|FIELD_IDS|, i requires 0 <= i < |FIELD_IDS| => AttributeElement(FIELD_IDS[i], FIELD_TYPES[i], values[i])))
  }

  /** What reading a rendered descriptor gives back: the same fields, with
      the publish handle made explicit. */
  function Normalized(d: ModuleDescription): ModuleDescription {
    d.(publishHandle := Some(PublishHandleText(d)))
  }

  /** Reading field `i` back from a rendered descriptor gives its value:
      the field ids are distinct, so the first child with that id is child `i`. */
  lemma ShortDescField(d: ModuleDescription, i: nat)
    requires i < |FIELD_IDS|
    ensures GetAttr(ShortDesc(d), FIELD_IDS[i]) == Some(FieldValues(d)[i])
  {
    assert forall j :: 0 <= j < i ==> FIELD_IDS[j] != FIELD_IDS[i];
    GetAttrFirst(ShortDesc(d), FIELD_IDS[i], i);
  }

  /** Reading a rendered descriptor gives back its fields. */
  lemma ParseShortDesc(d: ModuleDescription)
    ensures Parse(ShortDesc(d)) == Ok(Normalized(d))
    ensures SameModule(Normalized(d), d)
  {
    var e := ShortDesc(d);
    ShortDescField(d, 0);
    ShortDescField(d, 1);
    ShortDescField(d, 2);
    ShortDescField(d, 3);
    ShortDescField(d, 4);
    ShortDescField(d, 5);
    assert GetAttr(e, "Folder") == Some(d.folder);
    assert GetAttr(e, "MD5") == Some(d.md5);
    assert GetAttr(e, "Name") == Some(d.name);
    assert GetAttr(e, "PublishHandle") == Some(PublishHandleText(d));
    assert GetAttr(e, "UUID") == Some(d.uuid);
    assert GetAttr(e, "Version64") == Some(d.version64);
  }

  /** `ModuleDescription::as_xml`: a `node` element labelled
      `ModuleShortDesc`, built by appending the six typed attributes. */
  method AsXml(d: ModuleDescription) returns (elem: Element)
    ensures elem == ShortDesc(d)
  {
    elem := Element("node", map[], []);
    elem := SetAttr(elem, "id", "ModuleShortDesc");
    elem := Append(elem, AttributeElement("Folder", "LSString", d.folder));
    elem := Append(elem, AttributeElement("MD5", "LSString", d.md5));
    elem := Append(elem, AttributeElement("Name", "LSString", d.name));
    var publishHandle := if d.publishHandle.Some? then d.publishHandle.value else "0";
    elem := Append(elem, AttributeElement("PublishHandle", "uint64", publishHandle));
    elem := Append(elem, AttributeElement("UUID", "guid", d.uuid));
    elem := Append(elem, AttributeElement("Version64", "int64", d.version64));
    assert elem.children == ShortDesc(d).children;
  }
}
