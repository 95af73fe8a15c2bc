/**
 * The records the dependency finder produces and the analysis engine consumes.
 */
module ObjectModel {
  import opened Wrappers
  import opened Versions

  /** An assembly as the dependency finder reports it: rendered identity plus two module attributes. */
  datatype AssemblyInfo = AssemblyInfo(AssemblyIdentity: string, FileVersion: string, TargetFrameworkMoniker: string)

  /**
   * A decoded assembly reference: its simple name and its rendered identity
   * (name, version, culture, public key token).
   */
  datatype AssemblyReferenceInformation = AssemblyReferenceInformation(Name: string, Identity: string)

  /** A target platform; `FullName` is its rendering by `System.Runtime.Versioning.FrameworkName`. */
  datatype FrameworkName = FrameworkName(Identifier: string, Version: Version, FullName: string)

  /** One API reference found in a scanned module. */
  datatype MemberDependency = MemberDependency(
    CallingAssembly: AssemblyInfo,
    MemberDocId: string,
    TypeDocId: Option<string>,
    IsPrimitive: bool,
    DefinedInAssemblyIdentity: Option<AssemblyReferenceInformation>)

  /** A catalogued breaking change; `VersionFixed` is absent for unfixed breaks. */
  datatype BreakingChange = BreakingChange(
    Id: string,
    VersionBroken: Version,
    VersionFixed: Option<Version>,
    IsRetargeting: bool)

  /** A user request to leave an assembly out of breaking-change analysis. */
  datatype IgnoreAssemblyInfo = IgnoreAssemblyInfo(
    AssemblyIdentity: string,
    IgnoreForAllTargets: bool,
    TargetsIgnored: seq<string>)

  /**
   * A referenced API, the key of the aggregated dependency map. Its identity
   * (doc id and defining assembly) is fixed; the analysis engine fills in the rest.
   */
  class MemberInfo {
    const MemberDocId: string
    const DefinedInAssemblyIdentity: Option<string>
    var IsSupportedAcrossTargets: bool
    var TargetStatus: seq<Option<Version>>
    var RecommendedChanges: string
    var SourceCompatibleChange: string

    /**
     * A member not yet analysed. The empty status list and empty strings stand
     * for the `null` the analysis fields hold until the engine assigns them.
     */
    constructor (memberDocId: string, definedInAssemblyIdentity: Option<string>)
      ensures MemberDocId == memberDocId && DefinedInAssemblyIdentity == definedInAssemblyIdentity
      ensures !IsSupportedAcrossTargets && TargetStatus == []
      ensures RecommendedChanges == "" && SourceCompatibleChange == ""
    {
      MemberDocId := memberDocId;
      DefinedInAssemblyIdentity := definedInAssemblyIdentity;
      IsSupportedAcrossTargets := false;
      TargetStatus := [];
      RecommendedChanges := "";
      SourceCompatibleChange := "";
    }
  }

  /** One key/value pair of the dependency map, in enumeration order. */
  datatype DependencyEntry = DependencyEntry(Key: MemberInfo, Value: seq<AssemblyInfo>)

  /** The keys of a dependency map. */
  function Keys(entries: seq<DependencyEntry>): (r: set<MemberInfo>)
    ensures forall k :: 0 <= k < |entries| ==> entries[k].Key in r
  {
    set k | 0 <= k < |entries| :: entries[k].Key
  }

  /** No two entries share a key, as in a dictionary. */
  predicate DistinctKeys(entries: seq<DependencyEntry>) {
    forall i, j :: 0 <= i < j < |entries| ==> entries[i].Key != entries[j].Key
  }

  /** The key set holds nothing but the entries' keys. */
  lemma KeysExactly(entries: seq<DependencyEntry>, m: MemberInfo)
    ensures m in Keys(entries) <==> exists k :: 0 <= k < |entries| && entries[k].Key == m
  {
  }

  /** One reported breaking change: which break, which user assembly, which API. */
  datatype BreakingChangeDependency = BreakingChangeDependency(
    Break: BreakingChange,
    DependantAssembly: AssemblyInfo,
    Member: MemberInfo)

  /** The injected policy deciding which defining assemblies are worth reporting. */
  datatype DependencyFilter = DependencyFilter(
    IsFrameworkAssembly: Option<AssemblyReferenceInformation> -> bool,
    IsKnownThirdPartyAssembly: Option<AssemblyReferenceInformation> -> bool)

  /** A reference defined in `assembly` is kept by the filter. */
  predicate Accepts(filter: DependencyFilter, assembly: Option<AssemblyReferenceInformation>) {
    filter.IsFrameworkAssembly(assembly) || filter.IsKnownThirdPartyAssembly(assembly)
  }
}
