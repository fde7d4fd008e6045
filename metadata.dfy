/** `PAKFile::module`: finding the `meta.lsx` entry of an archive, reading
    it, and extracting the mod's descriptor and dependencies from it. */
module Metadata {
  import opened Wrappers
  import opened Bytes
  import opened Seqs
  import opened Pak
  import opened Xml
  import opened Descriptor

  /** "Mods/" */
  const MODS_PREFIX: seq<byte> := [0x4D, 0x6F, 0x64, 0x73, 0x2F]
  /** "/meta.lsx" */
  const META_SUFFIX: seq<byte> := [0x2F, 0x6D, 0x65, 0x74, 0x61, 0x2E, 0x6C, 0x73, 0x78]
  /** U+FEFF, the byte-order mark, in UTF-8. */
  const BOM: seq<byte> := [0xEF, 0xBB, 0xBF]

  /** Where the module list sits in a descriptor document. */
  const INFO_PATH: seq<Step> := [ByName("region"), ByName("node"), ByName("children")]

  /** The document parser; it also rejects text that is not UTF-8. */
  type XmlParser = seq<byte> -> Option<Element>

  predicate IsMetadataName(name: seq<byte>) {
    StartsWith(name, MODS_PREFIX) && EndsWith(name, META_SUFFIX)
  }

  /** The first entry, in directory order, named `Mods/.../meta.lsx`. */
  function FindMetadata(entries: seq<Entry>): (r: Option<nat>)
    ensures r.Some? ==> r.value < |entries| && IsMetadataName(NameOf(entries[r.value].name))
    ensures r.Some? ==> forall j :: 0 <= j < r.value ==> !IsMetadataName(NameOf(entries[j].name))
    ensures r.None? <==> forall j :: 0 <= j < |entries| ==> !IsMetadataName(NameOf(entries[j].name))
  {
    FirstIndex(entries, (e: Entry) => IsMetadataName(NameOf(e.name)))
  }

  /** Removes one leading byte-order mark, if there is one. */
  function StripBom(text: seq<byte>): (r: seq<byte>)
    ensures StartsWith(text, BOM) ==> BOM + r == text
    ensures !StartsWith(text, BOM) ==> r == text
  {
    if StartsWith(text, BOM) then text[|BOM|..] else text
  }

  /** Exactly one mark is removed, even when the text after it starts with
      another. */
  lemma StripBomOnce(text: seq<byte>)
    ensures StripBom(BOM + text) == text
  {
    assert (BOM + text)[..|BOM|] == BOM;
  }

  /** The first half of `PAKFile::module`: locate the metadata entry, read
      and decompress its payload, and drop a byte-order mark. */
  function MetadataText(pak: PakFile, decompress: Decompressor): (r: Result<seq<byte>, PakError>)
    ensures r == Err(NoMetadata) <==> FindMetadata(pak.entries).None?
    ensures r.Ok? ==>
      && FindMetadata(pak.entries).Some?
      && var e := pak.entries[FindMetadata(pak.entries).value];
         && Offset(e) + e.sizeOnDisk <= |pak.file|
         && decompress(pak.file[Offset(e)..Offset(e) + e.sizeOnDisk], e.uncompressedSize).Some?
         && r.value == StripBom(decompress(pak.file[Offset(e)..Offset(e) + e.sizeOnDisk], e.uncompressedSize).value)
    ensures FindMetadata(pak.entries).Some? ==>
      var e := pak.entries[FindMetadata(pak.entries).value];
      && (Offset(e) + e.sizeOnDisk > |pak.file| <==> r == Err(ReadOutOfRange))
      && (Offset(e) + e.sizeOnDisk <= |pak.file| ==>
            (decompress(pak.file[Offset(e)..Offset(e) + e.sizeOnDisk], e.uncompressedSize).Some? <==> r.Ok?))
  {
    match FindMetadata(pak.entries)
    case None => Err(NoMetadata)
    case Some(i) =>
      var e := pak.entries[i];
      match Slice(pak.file, Offset(e), e.sizeOnDisk)
      case None => Err(ReadOutOfRange)
      case Some(compressed) =>
        match decompress(compressed, e.uncompressedSize)
        case None => Err(DecompressionFailed)
        case Some(raw) => Ok(StripBom(raw))
  }

  /** The elements under the `children` element of the `Dependencies` node,
      or none when that node has no `children` element. */
  function DependencyElements(info: Element): (r: Result<seq<Element>, PakError>)
    ensures r.Ok? ==> FindById(info, "Dependencies").Ok?
    ensures r.Err? ==> r.error == MalformedMetadata
    ensures FindById(info, "Dependencies").Ok? ==> r.Ok?
    ensures r.Ok? ==>
      var node := info.children[FindById(info, "Dependencies").value];
      && (FirstByName(node, "children").None? ==> r.value == [])
      && (FirstByName(node, "children").Some? ==> r.value == node.children[FirstByName(node, "children").value].children)
  {
    match FindById(info, "Dependencies")
    case Err(_) => Err(MalformedMetadata)
    case Ok(j) =>
      var node := info.children[j];
      match FirstByName(node, "children")
      case None => Ok([])
      case Some(k) => Ok(node.children[k].children)
  }

  /** The second half of `PAKFile::module`: the `ModuleInfo` descriptor and
      the declared dependencies, without those on the base game. */
  function ModuleFromXml(root: Element): (r: Result<Module, PakError>)
    ensures r.Ok? ==> Locate(root, INFO_PATH).Some?
    ensures r.Ok? ==>
      var info := At(root, Locate(root, INFO_PATH).value);
      && FindById(info, "ModuleInfo").Ok?
      && Parse(info.children[FindById(info, "ModuleInfo").value]) == Ok(r.value.description)
      && DependencyElements(info).Ok?
      && ParseAll(DependencyElements(info).value).Ok?
      && r.value.dependencies == WithoutBaseGame(ParseAll(DependencyElements(info).value).value)
    ensures r.Ok? ==> forall i :: 0 <= i < |r.value.dependencies| ==> !IsBaseGame(r.value.dependencies[i])
    ensures Locate(root, INFO_PATH).Some? ==>
      var info := At(root, Locate(root, INFO_PATH).value);
      (&& FindById(info, "ModuleInfo").Ok?
       && Parse(info.children[FindById(info, "ModuleInfo").value]).Ok?
       && DependencyElements(info).Ok?
       && ParseAll(DependencyElements(info).value).Ok?) ==> r.Ok?
    ensures r.Err? ==> r.error == MalformedMetadata
  {
    match Locate(root, INFO_PATH)
    case None => Err(MalformedMetadata)
    case Some(path) =>
      var info := At(root, path);
      match FindById(info, "ModuleInfo")
      case Err(_) => Err(MalformedMetadata)
      case Ok(i) =>
        match Parse(info.children[i])
        case Err(_) => Err(MalformedMetadata)
        case Ok(description) =>
          match DependencyElements(info)
          case Err(e) => Err(e)
          case Ok(elems) =>
            match ParseAll(elems)
            case Err(_) => Err(MalformedMetadata)
            case Ok(deps) => Ok(Module(description, WithoutBaseGame(deps)))
  }

  /** `PAKFile::module`. */
  function ModuleOf(pak: PakFile, decompress: Decompressor, parse: XmlParser): (r: Result<Module, PakError>)
    ensures r == Err(NoMetadata) <==> FindMetadata(pak.entries).None?
    ensures r.Ok? ==> MetadataText(pak, decompress).Ok? && parse(MetadataText(pak, decompress).value).Some?
    ensures r.Ok? ==> ModuleFromXml(parse(MetadataText(pak, decompress).value).value) == r
    ensures MetadataText(pak, decompress).Err? ==> r == Err(MetadataText(pak, decompress).error)
    ensures MetadataText(pak, decompress).Ok? && parse(MetadataText(pak, decompress).value).None? ==>
      r == Err(MalformedMetadata)
    ensures MetadataText(pak, decompress).Ok? && parse(MetadataText(pak, decompress).value).Some? ==>
      r == ModuleFromXml(parse(MetadataText(pak, decompress).value).value)
  {
    match MetadataText(pak, decompress)
    case Err(e) => Err(e)
    case Ok(text) =>
      match parse(text)
      case None => Err(MalformedMetadata)
      case Some(root) => ModuleFromXml(root)
  }
}
