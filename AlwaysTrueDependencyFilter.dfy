/** The dependency filter that keeps every reference. */
module AlwaysTrueDependencyFilter {
  import opened Wrappers
  import opened ObjectModel

  /** Every assembly, including a missing one, counts as a framework assembly. */
  function IsFrameworkAssembly(assembly: Option<AssemblyReferenceInformation>): (r: bool)
    ensures r
  {
    true
  }

  /** No assembly counts as a known third-party assembly. */
  function IsKnownThirdPartyAssembly(assembly: Option<AssemblyReferenceInformation>): (r: bool)
    ensures !r
  {
    false
  }

  /** The filter as a value; it has no state, so its answers never change between calls. */
  function Filter(): (f: DependencyFilter)
    ensures forall a :: Accepts(f, a)
  {
    DependencyFilter(IsFrameworkAssembly, IsKnownThirdPartyAssembly)
  }
}
