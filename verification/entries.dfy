/**
 * The package's two entry tables and the signed UIndex addressing scheme.
 *
 * A UIndex `u` names an export when `u > 0` (export table slot `u - 1`), an
 * import when `u < 0` (import table slot `-u - 1`) and the package root when
 * `u == 0`. Every entry carries its parent as a raw `idxLink` in the same
 * encoding.
 */
module Entries {
  import opened Text

  datatype Option<T> = None | Some(value: T)

  /** Name of the quarantine package that trashed entries are moved under. */
  const TrashPackageName: string := "ME3ExplorerTrashPackage"

  /**
   * One row of the export or import table, reduced to the fields the editor's
   * tree and indexing logic read: the raw parent link, the object name with
   * its instance number (`indexValue`), the class name and, for exports,
   * whether the export is itself a class definition.
   */
  datatype Entry = Entry(idxLink: int, objectName: string, indexValue: int, className: string, isClass: bool)

  datatype Tables = Tables(exports: seq<Entry>, imports: seq<Entry>)
  {
    /** `GetEntry(u) != null`. */
    predicate Has(u: int)
    {
      (0 < u <= |exports|) || (0 < -u <= |imports|)
    }

    function Get(u: int): Entry
      requires Has(u)
    {
      if u > 0 then exports[u - 1] else imports[-u - 1]
    }

    function Count(): nat
    {
      |exports| + |imports|
    }
  }

  /** The tagged reading of a raw link or UIndex. */
  datatype EntryRef = Root | ExportRef(slot: nat) | ImportRef(slot: nat)

  function DecodeUIndex(u: int): (r: EntryRef)
    ensures r.Root? <==> u == 0
    ensures r.ExportRef? <==> u > 0
  {
    if u == 0 then Root else if u > 0 then ExportRef(u - 1) else ImportRef(-u - 1)
  }

  function EncodeRef(r: EntryRef): (u: int)
    ensures DecodeUIndex(u) == r
  {
    match r
    case Root => 0
    case ExportRef(i) => i + 1
    case ImportRef(j) => -(j + 1)
  }

  /** Decoding then encoding gives back the raw integer. */
  lemma EncodeDecodeRoundTrip(u: int)
    ensures EncodeRef(DecodeUIndex(u)) == u
  {
  }

  /** A UIndex that decodes to a slot inside its table names an existing entry. */
  lemma DecodedSlotIsEntry(t: Tables, u: int)
    ensures t.Has(u) <==> match DecodeUIndex(u)
                          case Root => false
                          case ExportRef(i) => i < |t.exports|
                          case ImportRef(j) => j < |t.imports|
  {
  }

  /** `NameReference.Instanced`: the name, suffixed with `_` and the number minus one when it is positive. */
  function InstancedName(name: string, number: int): (r: string)
    ensures number <= 0 ==> r == name
    ensures number > 0 ==> |r| > |name| && r[..|name|] == name && r[|name|] == '_'
  {
    if number > 0 then name + "_" + NatToString(number - 1) else name
  }

  /** Two positive instance numbers give the same instanced name only when they are equal. */
  lemma InstancedNameInjective(name: string, a: int, b: int)
    requires a > 0 && b > 0 && InstancedName(name, a) == InstancedName(name, b)
    ensures a == b
  {
    var ra := InstancedName(name, a);
    assert ra[|name| + 1..] == NatToString(a - 1);
    assert InstancedName(name, b)[|name| + 1..] == NatToString(b - 1);
    NatToStringInjective(a - 1, b - 1);
  }

  /**
   * The dot-joined path of names from the topmost ancestor down to `u`,
   * following `idxLink` while it names an existing entry. With `instanced`
   * every name carries its instance suffix (`InstancedFullPath`), otherwise
   * not (`FullPath`). `fuel` bounds the walk; it is never exhausted on a
   * package whose parent links are acyclic when it is the entry count.
   */
  function PathOf(t: Tables, u: int, instanced: bool, fuel: nat): string
    decreases fuel
  {
    if !t.Has(u) then ""
    else
      var e := t.Get(u);
      if fuel == 0 || !t.Has(e.idxLink) then OwnName(e, instanced)
      else PathOf(t, e.idxLink, instanced, fuel - 1) + "." + OwnName(e, instanced)
  }

  /** The name an entry contributes to a path: instanced or bare. */
  function OwnName(e: Entry, instanced: bool): string
  {
    if instanced then InstancedName(e.objectName, e.indexValue) else e.objectName
  }

  function InstancedFullPath(t: Tables, u: int): string
  {
    PathOf(t, u, true, t.Count())
  }

  function FullPath(t: Tables, u: int): string
  {
    PathOf(t, u, false, t.Count())
  }

  /** The parent's `InstancedFullPath`, or the empty string for an entry at the package root. */
  function ParentInstancedFullPath(t: Tables, u: int): string
    requires t.Has(u)
  {
    var link := t.Get(u).idxLink;
    if t.Has(link) then InstancedFullPath(t, link) else ""
  }

  /** `path.StartsWith(UnrealPackageFile.TrashPackageName)`. */
  predicate IsTrashPath(path: string)
  {
    StartsWith(path, TrashPackageName)
  }

  /**
   * An entry's path starts with its topmost ancestor's name: an entry whose
   * topmost ancestor is the trash package is always recognised as trashed.
   */
  lemma {:induction false} PathStartsWithTopmostName(t: Tables, u: int, instanced: bool, fuel: nat)
    requires t.Has(u)
    ensures StartsWith(PathOf(t, u, instanced, fuel), OwnName(t.Get(TopmostAncestor(t, u, fuel)), instanced))
    decreases fuel
  {
    var e := t.Get(u);
    if fuel != 0 && t.Has(e.idxLink) {
      PathStartsWithTopmostName(t, e.idxLink, instanced, fuel - 1);
      var top := OwnName(t.Get(TopmostAncestor(t, u, fuel)), instanced);
      var parentPath := PathOf(t, e.idxLink, instanced, fuel - 1);
      StartsWithExtended(parentPath, ".", top);
      StartsWithExtended(parentPath + ".", OwnName(e, instanced), top);
    } else {
      var own := OwnName(e, instanced);
      assert own[..|own|] == own;
    }
  }

  /** The last entry reached by following parent links within `fuel` steps. */
  function TopmostAncestor(t: Tables, u: int, fuel: nat): (r: int)
    requires t.Has(u)
    ensures t.Has(r)
    decreases fuel
  {
    var link := t.Get(u).idxLink;
    if fuel == 0 || !t.Has(link) then u else TopmostAncestor(t, link, fuel - 1)
  }
}
