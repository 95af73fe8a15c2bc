/**
 * The analysis engine: given the aggregated map from referenced APIs to the
 * user assemblies that reference them, it finds the APIs missing from the
 * requested targets, the breaking changes that apply, the assemblies the user
 * asked to skip and the unresolved assemblies that are not framework ones.
 *
 * The catalogue and the recommendations are read-only collaborators, given as
 * records of functions. Every operation here is sequential; the engine's
 * parallel query is modelled by the same per-member steps run in a loop.
 */
module Analysis {
  import opened Wrappers
  import opened Text
  import opened Versions
  import opened ObjectModel

  /** The identifier of the targets breaking changes apply to. */
  const FullFrameworkIdentifier := ".NET Framework"

  /** The answer of `IsMemberInTarget`: whether the API is there, and the out-parameter status. */
  datatype CatalogAnswer = CatalogAnswer(Present: bool, Status: Option<Version>)

  /** The platform API catalogue, as far as the engine queries it. */
  datatype ApiCatalogLookup = ApiCatalogLookup(
    IsFrameworkAssembly: string -> bool,
    IsFrameworkMember: string -> bool,
    IsMemberInTarget: (string, FrameworkName) -> CatalogAnswer,
    GetSourceCompatibilityEquivalent: string -> Option<string>)

  /** The recommendations store, as far as the engine queries it. */
  datatype ApiRecommendations = ApiRecommendations(
    GetBreakingChanges: string -> seq<BreakingChange>,
    GetRecommendedChanges: string -> string,
    GetSourceCompatibleChanges: string -> string)

  /** Whether an API is supported on one target, and the status recorded for it. */
  datatype TargetSupport = TargetSupport(IsSupported: bool, Status: Option<Version>)

  // ---------------------------------------------------------------------------
  // Breaking-change version ranges

  /**
   * A break applies to a target version that is the version it appeared in,
   * or later than that and before the version that fixed it (if any). The
   * first case also covers breaks fixed in the same version they appeared in.
   */
  predicate IsInVersionRange(targetVersion: Version, b: BreakingChange) {
    || targetVersion == b.VersionBroken
    || (Less(b.VersionBroken, targetVersion) && (b.VersionFixed.None? || Less(targetVersion, b.VersionFixed.value)))
  }

  /** Some target version is in the break's range. */
  predicate AnyInVersionRange(targetVersions: seq<Version>, b: BreakingChange) {
    exists i :: 0 <= i < |targetVersions| && IsInVersionRange(targetVersions[i], b)
  }

  /** Looks for a target version in the break's range, stopping at the first one. */
  method BreakingChangeIsInVersionRange(targetVersions: seq<Version>, breakingChange: BreakingChange) returns (r: bool)
    ensures r <==> AnyInVersionRange(targetVersions, breakingChange)
  {
    for i := 0 to |targetVersions|
      invariant forall k :: 0 <= k < i ==> !IsInVersionRange(targetVersions[k], breakingChange)
    {
      var targetVersion := targetVersions[i];
      if targetVersion == breakingChange.VersionBroken
         || (Less(breakingChange.VersionBroken, targetVersion)
             && (breakingChange.VersionFixed.None? || Less(targetVersion, breakingChange.VersionFixed.value)))
      {
        return true;
      }
    }
    return false;
  }

  /** The range is half-open: from `VersionBroken` included to `VersionFixed` excluded. */
  lemma VersionRangeIsHalfOpen(t: Version, b: BreakingChange)
    requires b.VersionFixed.Some? && Less(b.VersionBroken, b.VersionFixed.value)
    ensures IsInVersionRange(t, b) <==> !Less(t, b.VersionBroken) && Less(t, b.VersionFixed.value)
  {
    LessIsStrictTotalOrder(t, b.VersionBroken, b.VersionFixed.value);
  }

  /** Without a fix, every version from `VersionBroken` on is in range. */
  lemma UnfixedBreakCoversLaterVersions(t: Version, b: BreakingChange)
    requires b.VersionFixed.None?
    ensures IsInVersionRange(t, b) <==> !Less(t, b.VersionBroken)
  {
    LessIsStrictTotalOrder(t, b.VersionBroken, t);
  }

  /** A break fixed in the version it appeared in applies to exactly that version. */
  lemma SameVersionFixCoversOnlyThatVersion(t: Version, b: BreakingChange)
    requires b.VersionFixed == Some(b.VersionBroken)
    ensures IsInVersionRange(t, b) <==> t == b.VersionBroken
  {
    LessIsStrictTotalOrder(t, b.VersionBroken, t);
  }

  /** The boundary cases: broken in 4.0 and fixed in 4.5. */
  lemma VersionRangeBoundaries(id: string, retargeting: bool)
    ensures IsInVersionRange(V2(4, 0), BreakingChange(id, V2(4, 0), Some(V2(4, 5)), retargeting))
    ensures IsInVersionRange(V2(4, 2), BreakingChange(id, V2(4, 0), Some(V2(4, 5)), retargeting))
    ensures !IsInVersionRange(V2(4, 5), BreakingChange(id, V2(4, 0), Some(V2(4, 5)), retargeting))
    ensures !IsInVersionRange(V2(3, 5), BreakingChange(id, V2(4, 0), Some(V2(4, 5)), retargeting))
    ensures IsInVersionRange(V2(4, 8), BreakingChange(id, V2(4, 0), None, retargeting))
  {
  }

  // ---------------------------------------------------------------------------
  // Support on targets

  /**
   * Whether the catalogue has the API on `target`, directly or through a
   * non-empty source-compatible equivalent. The status is the out-parameter
   * of the last catalogue query made.
   */
  function IsSupportedOnTarget(catalog: ApiCatalogLookup, memberDocId: string, target: FrameworkName): (r: TargetSupport)
    ensures r.IsSupported <==>
              || catalog.IsMemberInTarget(memberDocId, target).Present
              || (var eq := catalog.GetSourceCompatibilityEquivalent(memberDocId);
                  eq.Some? && eq.value != "" && catalog.IsMemberInTarget(eq.value, target).Present)
    ensures catalog.IsMemberInTarget(memberDocId, target).Present ==>
              r.Status == catalog.IsMemberInTarget(memberDocId, target).Status
    ensures !catalog.IsMemberInTarget(memberDocId, target).Present ==>
              var eq := catalog.GetSourceCompatibilityEquivalent(memberDocId);
              if eq.Some? && eq.value != "" then r.Status == catalog.IsMemberInTarget(eq.value, target).Status
              else r.Status == catalog.IsMemberInTarget(memberDocId, target).Status
  {
    var direct := catalog.IsMemberInTarget(memberDocId, target);
    if direct.Present then TargetSupport(true, direct.Status)
    else
      var sourceEquivalent := catalog.GetSourceCompatibilityEquivalent(memberDocId);
      if sourceEquivalent.Some? && sourceEquivalent.value != "" then
        var viaEquivalent := catalog.IsMemberInTarget(sourceEquivalent.value, target);
        TargetSupport(viaEquivalent.Present, viaEquivalent.Status)
      else
        TargetSupport(false, direct.Status)
  }

  /** The catalogue reports a status exactly for the APIs it has on the target. */
  ghost predicate StatusMatchesPresence(catalog: ApiCatalogLookup, target: FrameworkName) {
    forall docId :: catalog.IsMemberInTarget(docId, target).Present <==> catalog.IsMemberInTarget(docId, target).Status.Some?
  }

  /** With such a catalogue, the recorded status is absent exactly when the API is unsupported. */
  lemma StatusAbsentIffUnsupported(catalog: ApiCatalogLookup, memberDocId: string, target: FrameworkName)
    requires StatusMatchesPresence(catalog, target)
    ensures IsSupportedOnTarget(catalog, memberDocId, target).IsSupported <==>
            IsSupportedOnTarget(catalog, memberDocId, target).Status.Some?
  {
    var eq := catalog.GetSourceCompatibilityEquivalent(memberDocId);
    assert catalog.IsMemberInTarget(memberDocId, target).Present <==> catalog.IsMemberInTarget(memberDocId, target).Status.Some?;
    if eq.Some? {
      assert catalog.IsMemberInTarget(eq.value, target).Present <==> catalog.IsMemberInTarget(eq.value, target).Status.Some?;
    }
  }

  /**
   * Computes, target by target, the status of an API (one entry per target, in
   * target order) and whether every target supports it.
   */
  method IsSupportedAcrossTargets(catalog: ApiCatalogLookup, memberDocId: string, targets: seq<FrameworkName>)
    returns (isSupported: bool, targetStatus: seq<Option<Version>>)
    ensures |targetStatus| == |targets|
    ensures forall i :: 0 <= i < |targets| ==> targetStatus[i] == IsSupportedOnTarget(catalog, memberDocId, targets[i]).Status
    ensures isSupported <==> forall i :: 0 <= i < |targets| ==> IsSupportedOnTarget(catalog, memberDocId, targets[i]).IsSupported
  {
    targetStatus := [];
    isSupported := true;
    for i := 0 to |targets|
      invariant |targetStatus| == i
      invariant forall k :: 0 <= k < i ==> targetStatus[k] == IsSupportedOnTarget(catalog, memberDocId, targets[k]).Status
      invariant isSupported <==> forall k :: 0 <= k < i ==> IsSupportedOnTarget(catalog, memberDocId, targets[k]).IsSupported
    {
      var status := IsSupportedOnTarget(catalog, memberDocId, targets[i]);
      if !status.IsSupported {
        isSupported := false;
      }
      targetStatus := targetStatus + [status.Status];
    }
  }

  // ---------------------------------------------------------------------------
  // Ignore lists and filters

  /** Targets that take part in breaking-change analysis. */
  predicate IsFullFramework(t: FrameworkName) {
    EqualsIgnoreCase(t.Identifier, FullFrameworkIdentifier)
  }

  /** The versions of the full-framework targets, in target order. */
  function FullFrameworkVersions(targets: seq<FrameworkName>): (r: seq<Version>)
    ensures |r| <= |targets|
    ensures forall v :: v in r <==> exists t :: t in targets && IsFullFramework(t) && t.Version == v
  {
    if targets == [] then []
    else
      var last := targets[|targets| - 1];
      var rest := FullFrameworkVersions(targets[..|targets| - 1]);
      assert targets == targets[..|targets| - 1] + [last];
      if IsFullFramework(last) then rest + [last.Version] else rest
  }

  /** Adding a target that is not the full framework leaves the versions used for ranges unchanged. */
  lemma OtherTargetsDoNotAffectVersions(targets: seq<FrameworkName>, t: FrameworkName)
    requires !IsFullFramework(t)
    ensures FullFrameworkVersions(targets + [t]) == FullFrameworkVersions(targets)
  {
    assert (targets + [t])[..|targets|] == targets;
  }

  /** Targets none of which is the full framework contribute no version. */
  lemma {:induction false} NoFullFrameworkNoVersions(targets: seq<FrameworkName>)
    requires forall t :: t in targets ==> !IsFullFramework(t)
    ensures FullFrameworkVersions(targets) == []
  {
    if targets != [] {
      NoFullFrameworkNoVersions(targets[..|targets| - 1]);
    }
  }

  /** An ignore-list entry covers an assembly for the requested targets. */
  predicate IgnoreEntryCovers(targets: seq<FrameworkName>, i: IgnoreAssemblyInfo, a: AssemblyInfo) {
    && EqualsIgnoreCase(i.AssemblyIdentity, a.AssemblyIdentity)
    && (i.IgnoreForAllTargets || forall f :: f in targets ==> ContainsIgnoreCase(i.TargetsIgnored, f.FullName))
  }

  /** Some ignore-list entry covers the assembly. */
  predicate IsSkipped(targets: seq<FrameworkName>, assembliesToIgnore: seq<IgnoreAssemblyInfo>, a: AssemblyInfo) {
    exists i :: i in assembliesToIgnore && IgnoreEntryCovers(targets, i, a)
  }

  /** The skipped user assemblies, in input order. */
  function SkippedAssemblies(targets: seq<FrameworkName>, userAssemblies: seq<AssemblyInfo>, assembliesToIgnore: seq<IgnoreAssemblyInfo>)
    : (r: seq<AssemblyInfo>)
    ensures forall a :: a in r <==> a in userAssemblies && IsSkipped(targets, assembliesToIgnore, a)
  {
    if userAssemblies == [] then []
    else
      var last := userAssemblies[|userAssemblies| - 1];
      var rest := SkippedAssemblies(targets, userAssemblies[..|userAssemblies| - 1], assembliesToIgnore);
      assert userAssemblies == userAssemblies[..|userAssemblies| - 1] + [last];
      if IsSkipped(targets, assembliesToIgnore, last) then rest + [last] else rest
  }

  /** An optional list that, when present, contains `x` (a null list contains nothing). */
  predicate ContainsIfPresent<T(==)>(xs: Option<seq<T>>, x: T) {
    xs.Some? && x in xs.value
  }

  /** Some non-null user assembly was specified with this identity (case-insensitive). */
  predicate IsSpecified(specifiedUserAssemblies: Option<seq<Option<AssemblyInfo>>>, identity: string) {
    && specifiedUserAssemblies.Some?
    && exists ua :: ua in specifiedUserAssemblies.value && ua.Some? && EqualsIgnoreCase(ua.value.AssemblyIdentity, identity)
  }

  /** The identities that match no non-null user input (ignoring case), each occurrence kept, in order. */
  function UnspecifiedAssemblies(identities: seq<string>, specifiedUserAssemblies: Option<seq<Option<AssemblyInfo>>>)
    : (r: seq<string>)
    ensures forall x :: x in r <==> x in identities && !IsSpecified(specifiedUserAssemblies, x)
    ensures forall x :: multiset(r)[x] == (if IsSpecified(specifiedUserAssemblies, x) then 0 else multiset(identities)[x])
  {
    if identities == [] then []
    else
      var last := identities[|identities| - 1];
      var rest := UnspecifiedAssemblies(identities[..|identities| - 1], specifiedUserAssemblies);
      assert identities == identities[..|identities| - 1] + [last];
      if IsSpecified(specifiedUserAssemblies, last) then rest else rest + [last]
  }

  /** Keeps, in order, the identities that match no non-null user input. */
  method ReportUnspecifiedAssemblies(userUnreferencedAssemblies: seq<string>,
                                     specifiedUserAssemblies: Option<seq<Option<AssemblyInfo>>>)
    returns (r: seq<string>)
    ensures r == UnspecifiedAssemblies(userUnreferencedAssemblies, specifiedUserAssemblies)
  {
    r := [];
    for i := 0 to |userUnreferencedAssemblies|
      invariant r == UnspecifiedAssemblies(userUnreferencedAssemblies[..i], specifiedUserAssemblies)
    {
      var userAsm := userUnreferencedAssemblies[i];
      assert userUnreferencedAssemblies[..i + 1][..i] == userUnreferencedAssemblies[..i];
      // An identity the user did specify was resolved after all.
      if IsSpecified(specifiedUserAssemblies, userAsm) {
        continue;
      }
      r := r + [userAsm];
    }
    assert userUnreferencedAssemblies[..|userUnreferencedAssemblies|] == userUnreferencedAssemblies;
  }

  /** `Distinct()`: the first occurrence of each element, in order. */
  function Distinct<T(==,!new)>(s: seq<T>): (r: seq<T>)
    ensures forall x :: x in r <==> x in s
    ensures forall i, j :: 0 <= i < j < |r| ==> r[i] != r[j]
  {
    if s == [] then []
    else
      var last := s[|s| - 1];
      var rest := Distinct(s[..|s| - 1]);
      assert s == s[..|s| - 1] + [last];
      if last in rest then rest else rest + [last]
  }

  // ---------------------------------------------------------------------------
  // The engine

  class AnalysisEngine {
    const catalog: ApiCatalogLookup
    const recommendations: ApiRecommendations
    /** Renders an identity with version and culture cleared (`System.Reflection.AssemblyName`). */
    const stripIdentity: string -> string

    constructor (catalog: ApiCatalogLookup, recommendations: ApiRecommendations, stripIdentity: string -> string)
      ensures this.catalog == catalog && this.recommendations == recommendations && this.stripIdentity == stripIdentity
    {
      this.catalog := catalog;
      this.recommendations := recommendations;
      this.stripIdentity := stripIdentity;
    }

    /**
     * An API counts as part of the framework unless its assembly was
     * submitted for analysis; an API without an assembly (a primitive) always
     * does; otherwise the catalogue must know both the assembly and the API.
     */
    function MemberIsInFramework(dep: MemberInfo, submittedAssemblies: seq<Option<string>>): (r: bool)
      ensures dep.DefinedInAssemblyIdentity in submittedAssemblies ==> !r
      ensures dep.DefinedInAssemblyIdentity !in submittedAssemblies && dep.DefinedInAssemblyIdentity.None? ==> r
      ensures dep.DefinedInAssemblyIdentity !in submittedAssemblies && dep.DefinedInAssemblyIdentity.Some? ==>
                (r <==> catalog.IsFrameworkAssembly(stripIdentity(dep.DefinedInAssemblyIdentity.value))
                        && catalog.IsFrameworkMember(dep.MemberDocId))
    {
      if dep.DefinedInAssemblyIdentity in submittedAssemblies then false
      else
        dep.DefinedInAssemblyIdentity.None?
        || (catalog.IsFrameworkAssembly(stripIdentity(dep.DefinedInAssemblyIdentity.value))
            && catalog.IsFrameworkMember(dep.MemberDocId))
    }

    /** The third-party hook: every API is accepted. */
    function MemberIsInKnownThirdPartyLibrary(m: MemberInfo, submittedAssemblies: seq<Option<string>>): (r: bool)
      ensures r
    {
      true
    }

    /** The user assemblies an ignore-list entry covers, in input order. */
    method FindBreakingChangeSkippedAssemblies(targets: seq<FrameworkName>, userAssemblies: seq<AssemblyInfo>,
                                               assembliesToIgnore: seq<IgnoreAssemblyInfo>)
      returns (r: seq<AssemblyInfo>)
      ensures r == SkippedAssemblies(targets, userAssemblies, assembliesToIgnore)
    {
      r := [];
      for k := 0 to |userAssemblies|
        invariant r == SkippedAssemblies(targets, userAssemblies[..k], assembliesToIgnore)
      {
        var a := userAssemblies[k];
        assert userAssemblies[..k + 1][..k] == userAssemblies[..k];
        if exists i :: i in assembliesToIgnore && IgnoreEntryCovers(targets, i, a) {
          r := r + [a];
        }
      }
      assert userAssemblies[..|userAssemblies|] == userAssemblies;
    }

    /** A break is reported for its member: shown kind, in range, not suppressed. */
    predicate IsReportable(b: BreakingChange, fullFrameworkVersions: seq<Version>,
                           breakingChangesToSuppress: Option<seq<string>>, showRetargettingIssues: bool) {
      && (showRetargettingIssues || !b.IsRetargeting)
      && AnyInVersionRange(fullFrameworkVersions, b)
      && !ContainsIfPresent(breakingChangesToSuppress, b.Id)
    }

    /** One record per non-ignored referencing assembly, in order. */
    function AssemblyEmissions(b: BreakingChange, m: MemberInfo, assemblies: seq<AssemblyInfo>,
                               assembliesToIgnore: Option<seq<AssemblyInfo>>): seq<BreakingChangeDependency>
    {
      if assemblies == [] then []
      else
        var a := assemblies[|assemblies| - 1];
        var rest := AssemblyEmissions(b, m, assemblies[..|assemblies| - 1], assembliesToIgnore);
        if ContainsIfPresent(assembliesToIgnore, a) then rest else rest + [BreakingChangeDependency(b, a, m)]
    }

    /** The records for one member, break by break. */
    function BreakEmissions(m: MemberInfo, assemblies: seq<AssemblyInfo>, breaks: seq<BreakingChange>,
                            fullFrameworkVersions: seq<Version>, assembliesToIgnore: Option<seq<AssemblyInfo>>,
                            breakingChangesToSuppress: Option<seq<string>>, showRetargettingIssues: bool)
      : seq<BreakingChangeDependency>
    {
      if breaks == [] then []
      else
        var b := breaks[|breaks| - 1];
        var rest := BreakEmissions(m, assemblies, breaks[..|breaks| - 1], fullFrameworkVersions, assembliesToIgnore,
                                   breakingChangesToSuppress, showRetargettingIssues);
        if IsReportable(b, fullFrameworkVersions, breakingChangesToSuppress, showRetargettingIssues)
        then rest + AssemblyEmissions(b, m, assemblies, assembliesToIgnore)
        else rest
    }

    /** The records for one dependency-map entry. */
    function EntryEmissions(e: DependencyEntry, fullFrameworkVersions: seq<Version>,
                            assembliesToIgnore: Option<seq<AssemblyInfo>>, breakingChangesToSuppress: Option<seq<string>>,
                            submittedAssemblies: seq<Option<string>>, showRetargettingIssues: bool)
      : seq<BreakingChangeDependency>
    {
      if MemberIsInFramework(e.Key, submittedAssemblies) then
        BreakEmissions(e.Key, e.Value, Distinct(recommendations.GetBreakingChanges(e.Key.MemberDocId)),
                       fullFrameworkVersions, assembliesToIgnore, breakingChangesToSuppress, showRetargettingIssues)
      else []
    }

    /** The records for the first entries of the dependency map. */
    function EntriesEmissions(entries: seq<DependencyEntry>, fullFrameworkVersions: seq<Version>,
                              assembliesToIgnore: Option<seq<AssemblyInfo>>, breakingChangesToSuppress: Option<seq<string>>,
                              submittedAssemblies: seq<Option<string>>, showRetargettingIssues: bool)
      : seq<BreakingChangeDependency>
    {
      if entries == [] then []
      else
        EntriesEmissions(entries[..|entries| - 1], fullFrameworkVersions, assembliesToIgnore,
                         breakingChangesToSuppress, submittedAssemblies, showRetargettingIssues)
        + EntryEmissions(entries[|entries| - 1], fullFrameworkVersions, assembliesToIgnore,
                         breakingChangesToSuppress, submittedAssemblies, showRetargettingIssues)
    }

    /** Everything `FindBreakingChanges` yields, in order. */
    function ExpectedBreakingChanges(targets: seq<FrameworkName>, dependencies: seq<DependencyEntry>,
                                     assembliesToIgnore: Option<seq<AssemblyInfo>>,
                                     breakingChangesToSuppress: Option<seq<string>>,
                                     submittedAssemblies: seq<Option<string>>, showRetargettingIssues: bool)
      : seq<BreakingChangeDependency>
    {
      var fullFrameworkVersions := FullFrameworkVersions(targets);
      if fullFrameworkVersions == [] then []
      else EntriesEmissions(dependencies, fullFrameworkVersions, assembliesToIgnore, breakingChangesToSuppress,
                            submittedAssemblies, showRetargettingIssues)
    }

    /** The records of one break on one member: exactly its non-ignored referencing assemblies. */
    lemma {:induction false} AssemblyEmissionsMember(b: BreakingChange, m: MemberInfo, assemblies: seq<AssemblyInfo>,
                                                     assembliesToIgnore: Option<seq<AssemblyInfo>>, x: BreakingChangeDependency)
      ensures x in AssemblyEmissions(b, m, assemblies, assembliesToIgnore) <==>
                && x.Break == b && x.Member == m && x.DependantAssembly in assemblies
                && !ContainsIfPresent(assembliesToIgnore, x.DependantAssembly)
    {
      if assemblies != [] {
        var n := |assemblies|;
        AssemblyEmissionsMember(b, m, assemblies[..n - 1], assembliesToIgnore, x);
        assert assemblies == assemblies[..n - 1] + [assemblies[n - 1]];
      }
    }

    /** The records of one member: the reportable breaks times the non-ignored referencing assemblies. */
    lemma {:induction false} BreakEmissionsMember(m: MemberInfo, assemblies: seq<AssemblyInfo>, breaks: seq<BreakingChange>,
                                                  fullFrameworkVersions: seq<Version>, assembliesToIgnore: Option<seq<AssemblyInfo>>,
                                                  breakingChangesToSuppress: Option<seq<string>>, showRetargettingIssues: bool,
                                                  x: BreakingChangeDependency)
      ensures x in BreakEmissions(m, assemblies, breaks, fullFrameworkVersions, assembliesToIgnore,
                                  breakingChangesToSuppress, showRetargettingIssues) <==>
                && x.Member == m && x.Break in breaks
                && IsReportable(x.Break, fullFrameworkVersions, breakingChangesToSuppress, showRetargettingIssues)
                && x.DependantAssembly in assemblies && !ContainsIfPresent(assembliesToIgnore, x.DependantAssembly)
    {
      if breaks != [] {
        var n := |breaks|;
        BreakEmissionsMember(m, assemblies, breaks[..n - 1], fullFrameworkVersions, assembliesToIgnore,
                             breakingChangesToSuppress, showRetargettingIssues, x);
        AssemblyEmissionsMember(breaks[n - 1], m, assemblies, assembliesToIgnore, x);
        assert breaks == breaks[..n - 1] + [breaks[n - 1]];
      }
    }

    /** A record comes from some entry whose key is a framework API with that catalogued break. */
    lemma {:induction false} EntriesEmissionsMember(entries: seq<DependencyEntry>, fullFrameworkVersions: seq<Version>,
                                                    assembliesToIgnore: Option<seq<AssemblyInfo>>,
                                                    breakingChangesToSuppress: Option<seq<string>>,
                                                    submittedAssemblies: seq<Option<string>>, showRetargettingIssues: bool,
                                                    x: BreakingChangeDependency)
      ensures x in EntriesEmissions(entries, fullFrameworkVersions, assembliesToIgnore, breakingChangesToSuppress,
                                    submittedAssemblies, showRetargettingIssues) <==>
                exists k :: 0 <= k < |entries| && IsEmittedFor(entries[k], fullFrameworkVersions, assembliesToIgnore,
                                                               breakingChangesToSuppress, submittedAssemblies,
                                                               showRetargettingIssues, x)
    {
      if entries != [] {
        var n := |entries|;
        var e := entries[n - 1];
        var prefix := entries[..n - 1];
        EntriesEmissionsMember(prefix, fullFrameworkVersions, assembliesToIgnore, breakingChangesToSuppress,
                               submittedAssemblies, showRetargettingIssues, x);
        BreakEmissionsMember(e.Key, e.Value, Distinct(recommendations.GetBreakingChanges(e.Key.MemberDocId)),
                             fullFrameworkVersions, assembliesToIgnore, breakingChangesToSuppress,
                             showRetargettingIssues, x);
        var last := EntryEmissions(e, fullFrameworkVersions, assembliesToIgnore, breakingChangesToSuppress,
                                   submittedAssemblies, showRetargettingIssues);
        assert x in last <==> IsEmittedFor(e, fullFrameworkVersions, assembliesToIgnore, breakingChangesToSuppress,
                                           submittedAssemblies, showRetargettingIssues, x);
        if exists k :: 0 <= k < n && IsEmittedFor(entries[k], fullFrameworkVersions, assembliesToIgnore,
                                                  breakingChangesToSuppress, submittedAssemblies,
                                                  showRetargettingIssues, x) {
          var k :| 0 <= k < n && IsEmittedFor(entries[k], fullFrameworkVersions, assembliesToIgnore,
                                              breakingChangesToSuppress, submittedAssemblies,
                                              showRetargettingIssues, x);
          if k < n - 1 {
            assert prefix[k] == entries[k];
          }
        }
        if x in EntriesEmissions(prefix, fullFrameworkVersions, assembliesToIgnore, breakingChangesToSuppress,
                                 submittedAssemblies, showRetargettingIssues) {
          var k :| 0 <= k < n - 1 && IsEmittedFor(prefix[k], fullFrameworkVersions, assembliesToIgnore,
                                                  breakingChangesToSuppress, submittedAssemblies,
                                                  showRetargettingIssues, x);
          assert prefix[k] == entries[k];
        }
      }
    }

    /** The conditions under which one dependency-map entry yields record `x`. */
    ghost predicate IsEmittedFor(e: DependencyEntry, fullFrameworkVersions: seq<Version>,
                                 assembliesToIgnore: Option<seq<AssemblyInfo>>, breakingChangesToSuppress: Option<seq<string>>,
                                 submittedAssemblies: seq<Option<string>>, showRetargettingIssues: bool,
                                 x: BreakingChangeDependency)
    {
      && e.Key == x.Member
      && MemberIsInFramework(x.Member, submittedAssemblies)
      && x.Break in recommendations.GetBreakingChanges(x.Member.MemberDocId)
      && IsReportable(x.Break, fullFrameworkVersions, breakingChangesToSuppress, showRetargettingIssues)
      && x.DependantAssembly in e.Value
      && !ContainsIfPresent(assembliesToIgnore, x.DependantAssembly)
    }

    /**
     * `FindBreakingChanges` yields (b, a, m) exactly when some target is the
     * full framework and an entry for m, a framework API, lists a among its
     * referencing assemblies, a is not ignored, and b is a catalogued break of
     * m that is shown, not suppressed and in range of a full-framework version.
     */
    lemma BreakingChangesEmittedIff(targets: seq<FrameworkName>, dependencies: seq<DependencyEntry>,
                                    assembliesToIgnore: Option<seq<AssemblyInfo>>,
                                    breakingChangesToSuppress: Option<seq<string>>,
                                    submittedAssemblies: seq<Option<string>>, showRetargettingIssues: bool,
                                    x: BreakingChangeDependency)
      ensures x in ExpectedBreakingChanges(targets, dependencies, assembliesToIgnore, breakingChangesToSuppress,
                                           submittedAssemblies, showRetargettingIssues) <==>
                && (exists t :: t in targets && IsFullFramework(t))
                && (exists k :: 0 <= k < |dependencies| &&
                      IsEmittedFor(dependencies[k], FullFrameworkVersions(targets), assembliesToIgnore,
                                   breakingChangesToSuppress, submittedAssemblies, showRetargettingIssues, x))
    {
      var versions := FullFrameworkVersions(targets);
      if versions != [] {
        assert versions[0] in versions;
        EntriesEmissionsMember(dependencies, versions, assembliesToIgnore, breakingChangesToSuppress,
                               submittedAssemblies, showRetargettingIssues, x);
      } else if exists t :: t in targets && IsFullFramework(t) {
        var t :| t in targets && IsFullFramework(t);
        assert t.Version in versions;
      }
    }

    /** Without a full-framework target nothing is reported. */
    lemma NoFullFrameworkNoBreakingChanges(targets: seq<FrameworkName>, dependencies: seq<DependencyEntry>,
                                           assembliesToIgnore: Option<seq<AssemblyInfo>>,
                                           breakingChangesToSuppress: Option<seq<string>>,
                                           submittedAssemblies: seq<Option<string>>, showRetargettingIssues: bool)
      requires forall t :: t in targets ==> !IsFullFramework(t)
      ensures ExpectedBreakingChanges(targets, dependencies, assembliesToIgnore, breakingChangesToSuppress,
                                      submittedAssemblies, showRetargettingIssues) == []
    {
      NoFullFrameworkNoVersions(targets);
    }

    /**
     * The breaking changes that affect the user's assemblies: for each
     * framework API, each distinct catalogued break that is shown, in range of
     * a full-framework target and not suppressed, one record per referencing
     * assembly that is not ignored.
     */
    method FindBreakingChanges(targets: seq<FrameworkName>, dependencies: seq<DependencyEntry>,
                               assembliesToIgnore: Option<seq<AssemblyInfo>>,
                               breakingChangesToSuppress: Option<seq<string>>,
                               submittedAssemblies: seq<Option<string>>, showRetargettingIssues: bool)
      returns (r: seq<BreakingChangeDependency>)
      ensures r == ExpectedBreakingChanges(targets, dependencies, assembliesToIgnore, breakingChangesToSuppress,
                                           submittedAssemblies, showRetargettingIssues)
    {
      var fullFrameworkVersions := FullFrameworkVersions(targets);
      if fullFrameworkVersions == [] {
        return [];
      }

      r := [];
      for i := 0 to |dependencies|
        invariant r == EntriesEmissions(dependencies[..i], fullFrameworkVersions, assembliesToIgnore,
                                        breakingChangesToSuppress, submittedAssemblies, showRetargettingIssues)
      {
        var kvp := dependencies[i];
        assert dependencies[..i + 1][..i] == dependencies[..i];
        if MemberIsInFramework(kvp.Key, submittedAssemblies) {
          var breakingChanges := Distinct(recommendations.GetBreakingChanges(kvp.Key.MemberDocId));
          var records := BreakingChangeRecords(kvp.Key, kvp.Value, breakingChanges, fullFrameworkVersions,
                                               assembliesToIgnore, breakingChangesToSuppress, showRetargettingIssues);
          r := r + records;
        }
      }
      assert dependencies[..|dependencies|] == dependencies;
    }

    /**
     * The records of one framework API: each break that is shown, in range and
     * not suppressed, once per referencing assembly that is not ignored.
     */
    method BreakingChangeRecords(member: MemberInfo, assemblies: seq<AssemblyInfo>, breakingChanges: seq<BreakingChange>,
                                 fullFrameworkVersions: seq<Version>, assembliesToIgnore: Option<seq<AssemblyInfo>>,
                                 breakingChangesToSuppress: Option<seq<string>>, showRetargettingIssues: bool)
      returns (records: seq<BreakingChangeDependency>)
      ensures records == BreakEmissions(member, assemblies, breakingChanges, fullFrameworkVersions, assembliesToIgnore,
                                        breakingChangesToSuppress, showRetargettingIssues)
    {
      records := [];
      for j := 0 to |breakingChanges|
        invariant records == BreakEmissions(member, assemblies, breakingChanges[..j], fullFrameworkVersions,
                                            assembliesToIgnore, breakingChangesToSuppress, showRetargettingIssues)
      {
        var b := breakingChanges[j];
        ghost var prev := records;
        ghost var reportable := IsReportable(b, fullFrameworkVersions, breakingChangesToSuppress, showRetargettingIssues);
        assert breakingChanges[..j + 1][..j] == breakingChanges[..j];
        assert BreakEmissions(member, assemblies, breakingChanges[..j + 1], fullFrameworkVersions,
                              assembliesToIgnore, breakingChangesToSuppress, showRetargettingIssues)
               == prev + (if reportable then AssemblyEmissions(b, member, assemblies, assembliesToIgnore) else []);
        if !showRetargettingIssues && b.IsRetargeting {
          continue;
        }
        var inRange := BreakingChangeIsInVersionRange(fullFrameworkVersions, b);
        if inRange && !ContainsIfPresent(breakingChangesToSuppress, b.Id) {
          var dependants := DependantAssemblyRecords(b, member, assemblies, assembliesToIgnore);
          records := records + dependants;
        }
      }
      assert breakingChanges[..|breakingChanges|] == breakingChanges;
    }

    /** One record of `b` on `member` per referencing assembly that is not ignored, in order. */
    method DependantAssemblyRecords(b: BreakingChange, member: MemberInfo, assemblies: seq<AssemblyInfo>,
                                    assembliesToIgnore: Option<seq<AssemblyInfo>>)
      returns (records: seq<BreakingChangeDependency>)
      ensures records == AssemblyEmissions(b, member, assemblies, assembliesToIgnore)
    {
      records := [];
      for k := 0 to |assemblies|
        invariant records == AssemblyEmissions(b, member, assemblies[..k], assembliesToIgnore)
      {
        var a := assemblies[k];
        assert assemblies[..k + 1][..k] == assemblies[..k];
        // A referencing assembly on the ignore list is passed over.
        if ContainsIfPresent(assembliesToIgnore, a) {
          continue;
        }
        records := records + [BreakingChangeDependency(b, a, member)];
      }
      assert assemblies[..|assemblies|] == assemblies;
    }

    /** The analysis fields of `m` hold its status on `targets` per `catalog`, and its recommendations. */
    ghost predicate IsProcessed(catalog: ApiCatalogLookup, m: MemberInfo, targets: seq<FrameworkName>)
      reads m
    {
      && |m.TargetStatus| == |targets|
      && (forall i :: 0 <= i < |targets| ==> m.TargetStatus[i] == IsSupportedOnTarget(catalog, m.MemberDocId, targets[i]).Status)
      && (m.IsSupportedAcrossTargets <==>
            forall i :: 0 <= i < |targets| ==> IsSupportedOnTarget(catalog, m.MemberDocId, targets[i]).IsSupported)
      && m.RecommendedChanges == recommendations.GetRecommendedChanges(m.MemberDocId)
      && m.SourceCompatibleChange == recommendations.GetSourceCompatibleChanges(m.MemberDocId)
    }

    /** Fills in a member's status on every target and its recommendations. */
    method ProcessMemberInfo(catalog: ApiCatalogLookup, targets: seq<FrameworkName>, member: MemberInfo)
      returns (r: MemberInfo)
      modifies member
      ensures r == member && IsProcessed(catalog, member, targets)
    {
      var isSupported, targetStatus := IsSupportedAcrossTargets(catalog, member.MemberDocId, targets);
      member.IsSupportedAcrossTargets := isSupported;
      member.TargetStatus := targetStatus;
      member.RecommendedChanges := recommendations.GetRecommendedChanges(member.MemberDocId);
      member.SourceCompatibleChange := recommendations.GetSourceCompatibleChanges(member.MemberDocId);
      return member;
    }

    /** The keys of an optional dependency map. */
    function KeysIfPresent(dependencies: Option<seq<DependencyEntry>>): set<MemberInfo> {
      if dependencies.Some? then Keys(dependencies.value) else {}
    }

    /**
     * The APIs of the dependency map that some target does not support. Every
     * key is evaluated (the third-party hook accepts everything) and left with
     * its status filled in. No order is promised.
     */
    method FindMembersNotInTargets(targets: Option<seq<FrameworkName>>, submittedAssemblies: seq<Option<string>>,
                                   dependencies: Option<seq<DependencyEntry>>)
      returns (r: seq<MemberInfo>)
      modifies KeysIfPresent(dependencies)
      ensures dependencies.None? || targets.None? ==> r == [] && unchanged(KeysIfPresent(dependencies))
      ensures dependencies.Some? && targets.Some? ==>
                && (forall k :: 0 <= k < |dependencies.value| ==> IsProcessed(catalog, dependencies.value[k].Key, targets.value))
                && (forall m :: m in r ==> m in Keys(dependencies.value) && !m.IsSupportedAcrossTargets)
                && (forall k :: 0 <= k < |dependencies.value| && !dependencies.value[k].Key.IsSupportedAcrossTargets ==>
                      dependencies.value[k].Key in r)
      ensures dependencies.Some? && targets.Some? && DistinctKeys(dependencies.value) ==>
                forall i, j :: 0 <= i < j < |r| ==> r[i] != r[j]
    {
      if dependencies.None? || targets.None? {
        return [];
      }
      var entries := dependencies.value;
      var ts := targets.value;
      r := [];
      for i := 0 to |entries|
        invariant forall k :: 0 <= k < i ==> IsProcessed(catalog, entries[k].Key, ts)
        invariant forall m :: m in r ==> (exists k :: 0 <= k < i && entries[k].Key == m) && !m.IsSupportedAcrossTargets
        invariant forall k :: 0 <= k < i && !entries[k].Key.IsSupportedAcrossTargets ==> entries[k].Key in r
        invariant DistinctKeys(entries) ==> forall a, b :: 0 <= a < b < |r| ==> r[a] != r[b]
      {
        var m := entries[i].Key;
        if MemberIsInFramework(m, submittedAssemblies) || MemberIsInKnownThirdPartyLibrary(m, submittedAssemblies) {
          var processed := ProcessMemberInfo(catalog, ts, m);
          if !processed.IsSupportedAcrossTargets {
            if DistinctKeys(entries) {
              forall a | 0 <= a < |r|
                ensures r[a] != processed
              {
                assert r[a] in r;
                var k :| 0 <= k < i && entries[k].Key == r[a];
              }
            }
            r := r + [processed];
          }
        }
      }
    }

    /**
     * The unresolved assemblies to report: non-null, not framework assemblies
     * (judged on the stripped identity) and not among the user's inputs, each
     * kept occurrence once. No order is promised.
     */
    method FindUnreferencedAssemblies(unreferencedAssemblies: Option<seq<Option<string>>>,
                                      specifiedUserAssemblies: Option<seq<Option<AssemblyInfo>>>)
      returns (r: seq<string>)
      ensures unreferencedAssemblies.None? ==> r == []
      ensures unreferencedAssemblies.Some? ==>
                forall x :: x in r <==>
                  && Some(x) in unreferencedAssemblies.value
                  && !catalog.IsFrameworkAssembly(stripIdentity(x))
                  && !IsSpecified(specifiedUserAssemblies, x)
      ensures unreferencedAssemblies.Some? ==>
                multiset(r) == multiset(UnspecifiedAssemblies(NonFrameworkAssemblies(unreferencedAssemblies.value),
                                                              specifiedUserAssemblies))
    {
      if unreferencedAssemblies.None? {
        return [];
      }
      var userUnreferencedAssemblies := NonFrameworkAssemblies(unreferencedAssemblies.value);
      r := ReportUnspecifiedAssemblies(userUnreferencedAssemblies, specifiedUserAssemblies);
    }

    /** The non-null identities that the catalogue does not know as framework assemblies, in order. */
    function NonFrameworkAssemblies(identities: seq<Option<string>>): (r: seq<string>)
      ensures forall x :: x in r <==> Some(x) in identities && !catalog.IsFrameworkAssembly(stripIdentity(x))
      ensures forall x :: multiset(r)[x] ==
                (if catalog.IsFrameworkAssembly(stripIdentity(x)) then 0 else multiset(identities)[Some(x)])
    {
      if identities == [] then []
      else
        var last := identities[|identities| - 1];
        var rest := NonFrameworkAssemblies(identities[..|identities| - 1]);
        assert identities == identities[..|identities| - 1] + [last];
        if last.Some? && !catalog.IsFrameworkAssembly(stripIdentity(last.value)) then rest + [last.value] else rest
    }
  }
}
