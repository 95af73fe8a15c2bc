/**
 * Dependency emission for one scanned module: the type-reference table is
 * walked first, then the member-reference table, and every reference whose
 * defining assembly passes the injected filter becomes a `MemberDependency`.
 *
 * The binary tables are given already decoded: each row is either the type
 * or member as the metadata type provider renders it, or `Malformed` when
 * decoding it raises `BadImageFormatException`.
 */
module DependencyFinder {
  import opened Wrappers
  import opened Text
  import opened ObjectModel
  import opened Sequences
  import AlwaysTrueDependencyFilter

  /** A type as the metadata type provider renders it. */
  datatype MemberMetadataInfo = MemberMetadataInfo(
    Rendered: string,
    DefinedInAssembly: Option<AssemblyReferenceInformation>,
    IsPrimitiveType: bool,
    IsTypeDef: bool)

  /** The kind read from a member reference's signature; any other kind keeps its name. */
  datatype MemberReferenceKind = Field | Method | OtherKind(Name: string)

  datatype TypeReferenceRow =
    | TypeReference(Type: MemberMetadataInfo)
    | MalformedTypeReference

  datatype MemberReferenceRow =
    | MemberReference(Kind: MemberReferenceKind, ParentType: MemberMetadataInfo, Rendered: string)
    | MalformedMemberReference

  /**
   * What the metadata reader tells about the module: its rendered identity,
   * its target-framework attribute, its own assembly definition (formatted and
   * by simple name) and its two reference tables. `FormattedIdentity`,
   * `Definition` and `DefinitionName` all come from the one assembly
   * definition; they are independent fields here, and no contract relies on
   * their agreeing.
   */
  datatype MetadataImage = MetadataImage(
    FormattedIdentity: string,
    TargetFrameworkMoniker: Option<string>,
    Definition: AssemblyReferenceInformation,
    DefinitionName: string,
    TypeReferences: seq<TypeReferenceRow>,
    MemberReferences: seq<MemberReferenceRow>)

  /** The file the module was read from. */
  datatype AssemblyFile = AssemblyFile(Name: string, Version: Option<string>)

  /** The legacy root library whose primitive owners are attributed to itself. */
  const Mscorlib := "mscorlib"

  /** The doc-id prefix of a member reference. */
  function GetPrefix(kind: MemberReferenceKind): (r: string)
    ensures kind == Field ==> r == "F"
    ensures kind == Method ==> r == "M"
    ensures kind.OtherKind? ==> r == kind.Name
  {
    match kind
    case Field => "F"
    case Method => "M"
    case OtherKind(name) => name
  }

  /** Number of rows of a type-reference table that decode. */
  function DecodedTypeRows(rows: seq<TypeReferenceRow>): nat {
    if rows == [] then 0
    else DecodedTypeRows(rows[..|rows| - 1]) + (if rows[|rows| - 1].TypeReference? then 1 else 0)
  }

  /**
   * Number of entries a member-reference table yields when nothing is
   * filtered out: two for a decodable row whose parent needs its own entry,
   * one for any other decodable row.
   */
  function UnfilteredMemberEntries(rows: seq<MemberReferenceRow>, needsParent: MemberMetadataInfo -> bool): nat {
    if rows == [] then 0
    else
      var last := rows[|rows| - 1];
      UnfilteredMemberEntries(rows[..|rows| - 1], needsParent)
      + (if last.MalformedMemberReference? then 0 else if needsParent(last.ParentType) then 2 else 1)
  }

  class DependencyFinderEngineHelper {
    const assemblyFilter: DependencyFilter
    const reader: MetadataImage
    const assemblyLocation: string
    const currentAssemblyInfo: AssemblyReferenceInformation
    const currentAssemblyName: string
    const CallingAssembly: AssemblyInfo

    /** The dependencies found so far, in emission order. */
    var MemberDependency: seq<ObjectModel.MemberDependency>

    constructor (assemblyFilter: DependencyFilter, metadataReader: MetadataImage, file: AssemblyFile)
      ensures this.assemblyFilter == assemblyFilter && reader == metadataReader
      ensures assemblyLocation == file.Name
      ensures CallingAssembly.AssemblyIdentity == metadataReader.FormattedIdentity
      ensures CallingAssembly.FileVersion == (if file.Version.Some? then file.Version.value else "")
      ensures CallingAssembly.TargetFrameworkMoniker ==
                (if metadataReader.TargetFrameworkMoniker.Some? then metadataReader.TargetFrameworkMoniker.value else "")
      ensures currentAssemblyInfo == metadataReader.Definition
      ensures currentAssemblyName == metadataReader.DefinitionName
      ensures MemberDependency == []
    {
      this.assemblyFilter := assemblyFilter;
      reader := metadataReader;
      assemblyLocation := file.Name;
      MemberDependency := [];
      CallingAssembly := AssemblyInfo(
        metadataReader.FormattedIdentity,
        file.Version.GetOr(""),
        metadataReader.TargetFrameworkMoniker.GetOr(""));
      currentAssemblyInfo := metadataReader.Definition;
      currentAssemblyName := metadataReader.DefinitionName;
    }

    /** The module is the legacy root library (case-insensitive name match). */
    predicate IsMscorlib() {
      EqualsIgnoreCase(currentAssemblyName, Mscorlib)
    }

    /** Where a referenced type is defined: its own assembly, else this module. */
    function TypeDefinedIn(t: MemberMetadataInfo): (r: AssemblyReferenceInformation)
      ensures t.DefinedInAssembly.Some? ==> r == t.DefinedInAssembly.value
      ensures t.DefinedInAssembly.None? ==> r == currentAssemblyInfo
    {
      t.DefinedInAssembly.GetOr(currentAssemblyInfo)
    }

    /** `d` is the entry of type `t`: `T:` doc id, this module as caller, the type's assembly, no type doc id, not primitive. */
    predicate IsTypeEntry(d: ObjectModel.MemberDependency, t: MemberMetadataInfo) {
      && d.MemberDocId == "T:" + t.Rendered
      && d.CallingAssembly == CallingAssembly
      && d.DefinedInAssemblyIdentity == Some(TypeDefinedIn(t))
      && d.TypeDocId.None?
      && !d.IsPrimitive
    }

    /** The `T:` entry for a type, unless the filter rejects its defining assembly. */
    function CreateMemberDependency(t: MemberMetadataInfo): (r: Option<ObjectModel.MemberDependency>)
      ensures r.Some? <==> Accepts(assemblyFilter, Some(TypeDefinedIn(t)))
      ensures r.Some? ==> IsTypeEntry(r.value, t)
    {
      var definedInAssembly := TypeDefinedIn(t);
      if !assemblyFilter.IsFrameworkAssembly(Some(definedInAssembly))
         && !assemblyFilter.IsKnownThirdPartyAssembly(Some(definedInAssembly)) then
        None
      else
        Some(ObjectModel.MemberDependency(CallingAssembly, "T:" + t.Rendered, None, false, Some(definedInAssembly)))
    }

    /**
     * Where a referenced member is defined: the parent type's assembly when it
     * has one; otherwise this module, except for a primitive parent outside
     * the legacy root library, which has no defining assembly.
     */
    function MemberDefinedIn(parent: MemberMetadataInfo): (r: Option<AssemblyReferenceInformation>)
      ensures parent.DefinedInAssembly.Some? ==> r == parent.DefinedInAssembly
      ensures parent.DefinedInAssembly.None? && r.Some? ==> r.value == currentAssemblyInfo
      ensures r.None? <==> parent.DefinedInAssembly.None? && parent.IsPrimitiveType && !IsMscorlib()
    {
      if parent.DefinedInAssembly.Some? then parent.DefinedInAssembly
      else if !parent.IsPrimitiveType || IsMscorlib() then Some(currentAssemblyInfo)
      else None
    }

    /** The parent type also gets its own entry when it is local, or primitive in the root library. */
    predicate NeedsParentEntry(parent: MemberMetadataInfo) {
      parent.IsTypeDef || (parent.IsPrimitiveType && IsMscorlib())
    }

    /** The entries a type-reference row contributes. */
    function TypeRowEntries(row: TypeReferenceRow): (r: seq<ObjectModel.MemberDependency>)
      ensures |r| <= 1
      ensures row.MalformedTypeReference? ==> r == []
      ensures row.TypeReference? ==> (|r| == 1 <==> Accepts(assemblyFilter, Some(TypeDefinedIn(row.Type))))
      ensures |r| == 1 ==> row.TypeReference? && IsTypeEntry(r[0], row.Type)
    {
      match row
      case MalformedTypeReference => []
      case TypeReference(t) =>
        var d := CreateMemberDependency(t);
        if d.Some? then [d.value] else []
    }

    /** The synthetic parent entries (zero or one) a member reference contributes before its own. */
    function ParentEntries(parent: MemberMetadataInfo): (r: seq<ObjectModel.MemberDependency>)
      ensures |r| <= 1
      ensures |r| == 1 <==> NeedsParentEntry(parent) && Accepts(assemblyFilter, Some(TypeDefinedIn(parent)))
      ensures |r| == 1 ==> IsTypeEntry(r[0], parent)
    {
      if NeedsParentEntry(parent) then
        var d := CreateMemberDependency(parent);
        if d.Some? then [d.value] else []
      else []
    }

    /** The member's own entry, when its defining assembly passes the filter. */
    function MemberEntry(kind: MemberReferenceKind, parent: MemberMetadataInfo, rendered: string)
      : (r: Option<ObjectModel.MemberDependency>)
      ensures r.Some? <==> Accepts(assemblyFilter, MemberDefinedIn(parent))
      ensures r.Some? ==> r.value.MemberDocId == GetPrefix(kind) + ":" + rendered
      ensures r.Some? ==> r.value.TypeDocId == Some("T:" + parent.Rendered)
      ensures r.Some? ==> r.value.IsPrimitive == parent.IsPrimitiveType
      ensures r.Some? ==> r.value.CallingAssembly == CallingAssembly
      ensures r.Some? ==> r.value.DefinedInAssemblyIdentity == MemberDefinedIn(parent)
    {
      var definedIn := MemberDefinedIn(parent);
      if !assemblyFilter.IsFrameworkAssembly(definedIn) && !assemblyFilter.IsKnownThirdPartyAssembly(definedIn) then
        None
      else
        Some(ObjectModel.MemberDependency(
          CallingAssembly, GetPrefix(kind) + ":" + rendered, Some("T:" + parent.Rendered),
          parent.IsPrimitiveType, definedIn))
    }

    /** The entries a member-reference row contributes: maybe the parent, then the member. */
    function MemberRowEntries(row: MemberReferenceRow): (r: seq<ObjectModel.MemberDependency>)
      ensures |r| <= 2
      ensures row.MalformedMemberReference? ==> r == []
      ensures row.MemberReference? && !Accepts(assemblyFilter, MemberDefinedIn(row.ParentType)) ==> r == []
      ensures row.MemberReference? && Accepts(assemblyFilter, MemberDefinedIn(row.ParentType)) ==>
                r == ParentEntries(row.ParentType) + [MemberEntry(row.Kind, row.ParentType, row.Rendered).value]
    {
      match row
      case MalformedMemberReference => []
      case MemberReference(kind, parent, rendered) =>
        var m := MemberEntry(kind, parent, rendered);
        if m.None? then [] else ParentEntries(parent) + [m.value]
    }

    /** The entries of a whole type-reference table, in table order. */
    function TypeTableEntries(rows: seq<TypeReferenceRow>): seq<ObjectModel.MemberDependency> {
      FlatMap(rows, TypeRowEntries)
    }

    /** The entries of a whole member-reference table, in table order. */
    function MemberTableEntries(rows: seq<MemberReferenceRow>): seq<ObjectModel.MemberDependency> {
      FlatMap(rows, MemberRowEntries)
    }

    /**
     * Handles one decoded member reference: appends the synthetic parent entry
     * (if any) to `MemberDependency` and returns the member's own entry.
     */
    method GetMemberReferenceMemberDependency(kind: MemberReferenceKind, parentType: MemberMetadataInfo, rendered: string)
      returns (r: Option<ObjectModel.MemberDependency>)
      modifies this`MemberDependency
      ensures r == MemberEntry(kind, parentType, rendered)
      ensures MemberDependency ==
                old(MemberDependency) + (if r.Some? then ParentEntries(parentType) else [])
    {
      var definedInAssemblyIdentity: Option<AssemblyReferenceInformation> := None;
      if parentType.DefinedInAssembly.Some? {
        definedInAssemblyIdentity := parentType.DefinedInAssembly;
      } else if !parentType.IsPrimitiveType || EqualsIgnoreCase(currentAssemblyName, Mscorlib) {
        definedInAssemblyIdentity := Some(currentAssemblyInfo);
      }

      if !assemblyFilter.IsFrameworkAssembly(definedInAssemblyIdentity)
         && !assemblyFilter.IsKnownThirdPartyAssembly(definedInAssemblyIdentity) {
        return None;
      }

      if parentType.IsTypeDef || (parentType.IsPrimitiveType && EqualsIgnoreCase(currentAssemblyName, Mscorlib)) {
        var memberDependency := CreateMemberDependency(parentType);
        if memberDependency.Some? {
          MemberDependency := MemberDependency + [memberDependency.value];
        }
      }

      r := Some(ObjectModel.MemberDependency(
        CallingAssembly,
        GetPrefix(kind) + ":" + rendered,
        Some("T:" + parentType.Rendered),
        parentType.IsPrimitiveType,
        definedInAssemblyIdentity));
    }

    /** Appends the entries of the type-reference table, skipping malformed rows. */
    method AddTypeReferences()
      modifies this`MemberDependency
      ensures MemberDependency == old(MemberDependency) + TypeTableEntries(reader.TypeReferences)
    {
      var types := reader.TypeReferences;
      var i := 0;
      while i < |types|
        invariant 0 <= i <= |types|
        invariant MemberDependency == old(MemberDependency) + TypeTableEntries(types[..i])
      {
        ghost var before := MemberDependency;
        match types[i] {
          case MalformedTypeReference =>
          case TypeReference(t) =>
            var typeReferenceMemberDependency := CreateMemberDependency(t);
            if typeReferenceMemberDependency.Some? {
              MemberDependency := MemberDependency + [typeReferenceMemberDependency.value];
            }
        }
        assert MemberDependency == before + TypeRowEntries(types[i]);
        FlatMapPrefixStep(types, i, TypeRowEntries);
        i := i + 1;
      }
      assert types[..i] == types;
    }

    /** Handles one row of the member-reference table, skipping it when malformed. */
    method AddMemberReference(row: MemberReferenceRow)
      modifies this`MemberDependency
      ensures MemberDependency == old(MemberDependency) + MemberRowEntries(row)
    {
      match row {
        case MalformedMemberReference =>
        case MemberReference(kind, parent, rendered) =>
          var memberReferenceMemberDependency := GetMemberReferenceMemberDependency(kind, parent, rendered);
          if memberReferenceMemberDependency.Some? {
            MemberDependency := MemberDependency + [memberReferenceMemberDependency.value];
          }
      }
    }

    /** Appends the entries of the member-reference table, in table order. */
    method AddMemberReferences()
      modifies this`MemberDependency
      ensures MemberDependency == old(MemberDependency) + MemberTableEntries(reader.MemberReferences)
    {
      var members := reader.MemberReferences;
      var j := 0;
      while j < |members|
        invariant 0 <= j <= |members|
        invariant MemberDependency == old(MemberDependency) + MemberTableEntries(members[..j])
      {
        AddMemberReference(members[j]);
        FlatMapPrefixStep(members, j, MemberRowEntries);
        j := j + 1;
      }
      assert members[..j] == members;
    }

    /**
     * Scans the module: every type reference, then every member reference;
     * malformed rows are skipped.
     */
    method ComputeData()
      modifies this`MemberDependency
      ensures MemberDependency ==
                old(MemberDependency) + TypeTableEntries(reader.TypeReferences) + MemberTableEntries(reader.MemberReferences)
    {
      AddTypeReferences();
      AddMemberReferences();
    }

    /**
     * Every type-table entry is a `T:` doc id attributed to this module, with a
     * defining assembly and not primitive.
     */
    lemma TypeTableEntriesShape(rows: seq<TypeReferenceRow>, e: ObjectModel.MemberDependency)
      requires e in TypeTableEntries(rows)
      ensures e.CallingAssembly == CallingAssembly && |e.MemberDocId| >= 2 && e.MemberDocId[..2] == "T:"
      ensures e.DefinedInAssemblyIdentity.Some? && !e.IsPrimitive
    {
      FlatMapMember(rows, TypeRowEntries, e);
      var i :| 0 <= i < |rows| && e in TypeRowEntries(rows[i]);
      assert ("T:" + rows[i].Type.Rendered)[..2] == "T:";
    }

    /**
     * Every member-table entry is attributed to this module, and only an API
     * of a primitive type can lack a defining assembly.
     */
    lemma MemberTableEntriesShape(rows: seq<MemberReferenceRow>, e: ObjectModel.MemberDependency)
      requires e in MemberTableEntries(rows)
      ensures e.CallingAssembly == CallingAssembly
      ensures e.DefinedInAssemblyIdentity.None? ==> e.IsPrimitive
    {
      FlatMapMember(rows, MemberRowEntries, e);
    }

    /** A type reference adds at most one entry, a member reference at most two. */
    lemma TableEntriesBound(types: seq<TypeReferenceRow>, members: seq<MemberReferenceRow>)
      ensures |TypeTableEntries(types)| <= |types|
      ensures |MemberTableEntries(members)| <= 2 * |members|
    {
      FlatMapLengthBound(types, TypeRowEntries, 1);
      FlatMapLengthBound(members, MemberRowEntries, 2);
    }

    /** A malformed type reference, wherever it stands, changes nothing in the scan. */
    lemma MalformedTypeReferenceSkipped(a: seq<TypeReferenceRow>, b: seq<TypeReferenceRow>)
      ensures TypeTableEntries(a + [MalformedTypeReference] + b) == TypeTableEntries(a + b)
    {
      FlatMapSkip(a, MalformedTypeReference, b, TypeRowEntries);
    }

    /** A malformed member reference, wherever it stands, changes nothing in the scan. */
    lemma MalformedMemberReferenceSkipped(a: seq<MemberReferenceRow>, b: seq<MemberReferenceRow>)
      ensures MemberTableEntries(a + [MalformedMemberReference] + b) == MemberTableEntries(a + b)
    {
      FlatMapSkip(a, MalformedMemberReference, b, MemberRowEntries);
    }

    /** When the filter accepts everything, every decodable type reference yields exactly one entry. */
    lemma {:induction false} AcceptAllKeepsEveryTypeReference(rows: seq<TypeReferenceRow>)
      requires forall a :: Accepts(assemblyFilter, a)
      ensures |TypeTableEntries(rows)| == DecodedTypeRows(rows)
    {
      if rows != [] {
        AcceptAllKeepsEveryTypeReference(rows[..|rows| - 1]);
        var last := rows[|rows| - 1];
        if last.TypeReference? {
          assert Accepts(assemblyFilter, Some(TypeDefinedIn(last.Type)));
        }
      }
    }

    /**
     * When the filter accepts everything, every decodable member reference
     * yields its own entry, plus the parent entry when the parent is local.
     */
    lemma AcceptAllKeepsEveryMemberReference(kind: MemberReferenceKind, parent: MemberMetadataInfo, rendered: string)
      requires forall a :: Accepts(assemblyFilter, a)
      ensures |MemberRowEntries(MemberReference(kind, parent, rendered))| == if NeedsParentEntry(parent) then 2 else 1
    {
      assert Accepts(assemblyFilter, MemberDefinedIn(parent));
      assert Accepts(assemblyFilter, Some(TypeDefinedIn(parent)));
    }

    /** With the `AlwaysTrueDependencyFilter` no decodable member reference is dropped, nor any parent entry. */
    lemma {:induction false} AlwaysTrueFilterKeepsEveryMemberReference(rows: seq<MemberReferenceRow>)
      requires assemblyFilter == AlwaysTrueDependencyFilter.Filter()
      ensures |MemberTableEntries(rows)| == UnfilteredMemberEntries(rows, NeedsParentEntry)
    {
      if rows != [] {
        var n := |rows|;
        AlwaysTrueFilterKeepsEveryMemberReference(rows[..n - 1]);
        match rows[n - 1] {
          case MalformedMemberReference =>
          case MemberReference(kind, parent, rendered) =>
            AcceptAllKeepsEveryMemberReference(kind, parent, rendered);
        }
      }
    }

    /** The `AlwaysTrueDependencyFilter` drops no type reference. */
    lemma AlwaysTrueFilterKeepsEveryTypeReference(rows: seq<TypeReferenceRow>)
      requires forall a :: assemblyFilter.IsFrameworkAssembly(a) == AlwaysTrueDependencyFilter.IsFrameworkAssembly(a)
      ensures |TypeTableEntries(rows)| == DecodedTypeRows(rows)
    {
      forall a ensures Accepts(assemblyFilter, a) {
        assert AlwaysTrueDependencyFilter.IsFrameworkAssembly(a);
      }
      AcceptAllKeepsEveryTypeReference(rows);
    }
  }
}
