/**
 * The references handed to the script compiler: every assembly loaded in the
 * process that is not dynamic and has a file location, one per simple name,
 * the one with the lowest version.
 */
module CSharpScript {
  import opened Wrappers
  import opened Queries

  /** `System.Version`; an undefined build or revision component is -1. */
  datatype Version = Version(major: int, minor: int, build: int, revision: int)

  /** One version compares below another: component by component, major first. */
  predicate VersionLess(a: Version, b: Version)
    ensures VersionLess(a, b) ==> a != b && a.major <= b.major
  {
    || a.major < b.major
    || (a.major == b.major && a.minor < b.minor)
    || (a.major == b.major && a.minor == b.minor && a.build < b.build)
    || (a.major == b.major && a.minor == b.minor && a.build == b.build && a.revision < b.revision)
  }

  /** An assembly loaded in the AppDomain: its simple name, version, whether it is dynamic, and its location (null or a path). */
  datatype Assembly = Assembly(name: string, version: Version, isDynamic: bool, location: Option<string>)

  /** An assembly is referenced only if it is not dynamic and its location is neither null nor empty. */
  predicate Qualifies(a: Assembly)
    ensures Qualifies(a) <==> !a.isDynamic && a.location != None && a.location != Some("")
  {
    !a.isDynamic && a.location.Some? && a.location.value != ""
  }

  function NameOf(a: Assembly): string { a.name }

  /** Version order is a strict total order: any two different versions are ordered one way. */
  lemma VersionLessIsStrictTotalOrder(a: Version, b: Version, c: Version)
    ensures !VersionLess(a, a)
    ensures VersionLess(a, b) && VersionLess(b, c) ==> VersionLess(a, c)
    ensures a != b ==> VersionLess(a, b) || VersionLess(b, a)
  {
  }

  /** `r` is the earliest element of `g` with the lowest version. */
  ghost predicate EarliestLowest(g: seq<Assembly>, r: Assembly) {
    && (forall b :: b in g ==> !VersionLess(b.version, r.version))
    && exists i :: 0 <= i < |g| && g[i] == r && forall j :: 0 <= j < i ==> VersionLess(r.version, g[j].version)
  }

  /** A later element that is strictly lower than the first stays the earliest lowest. */
  lemma EarliestLowestSkipsFirst(g: seq<Assembly>, m: Assembly)
    requires |g| > 1 && EarliestLowest(g[1..], m) && VersionLess(m.version, g[0].version)
    ensures EarliestLowest(g, m)
  {
    var i :| 0 <= i < |g| - 1 && g[1..][i] == m && forall j :: 0 <= j < i ==> VersionLess(m.version, g[1..][j].version);
    assert g[i + 1] == m;
    assert forall j :: 1 <= j < i + 1 ==> g[j] == g[1..][j - 1];
    assert forall b :: b in g ==> b == g[0] || b in g[1..];
  }

  /** The first element is the earliest lowest when nothing after it is strictly lower. */
  lemma EarliestLowestKeepsFirst(g: seq<Assembly>, m: Assembly)
    requires |g| > 1 && EarliestLowest(g[1..], m) && !VersionLess(m.version, g[0].version)
    ensures EarliestLowest(g, g[0])
  {
    forall b | b in g ensures !VersionLess(b.version, g[0].version) {
      if b != g[0] {
        assert b in g[1..];
        VersionLessIsStrictTotalOrder(b.version, m.version, g[0].version);
      } else {
        VersionLessIsStrictTotalOrder(b.version, b.version, b.version);
      }
    }
  }

  /**
   * The first element of the group once it is sorted by version: the sort is
   * stable, so this is the earliest element of `g` whose version is lowest.
   */
  function Lowest(g: seq<Assembly>): (r: Assembly)
    requires |g| > 0
    ensures r in g
    ensures EarliestLowest(g, r)
  {
    if |g| == 1 then
      VersionLessIsStrictTotalOrder(g[0].version, g[0].version, g[0].version);
      g[0]
    else
      var m := Lowest(g[1..]);
      if VersionLess(m.version, g[0].version) then
        EarliestLowestSkipsFirst(g, m);
        m
      else
        EarliestLowestKeepsFirst(g, m);
        g[0]
  }

  /** The qualifying assemblies, in load order. */
  function Candidates(loaded: seq<Assembly>): (r: seq<Assembly>)
    ensures forall a :: a in r ==> a in loaded && Qualifies(a)
    ensures forall i :: 0 <= i < |loaded| && Qualifies(loaded[i]) ==> loaded[i] in r
  {
    Where(loaded, Qualifies)
  }

  /** The groups of qualifying assemblies, keyed by simple name, in first-occurrence order. */
  function Names(loaded: seq<Assembly>): (r: seq<string>)
    ensures forall i :: 0 <= i < |Candidates(loaded)| ==> Candidates(loaded)[i].name in r
    ensures forall a, b :: 0 <= a < b < |r| ==> r[a] != r[b]
  {
    GroupKeys(Candidates(loaded), NameOf)
  }

  /** The qualifying assemblies named `name`, in load order. */
  function Group(loaded: seq<Assembly>, name: string): (r: seq<Assembly>)
    ensures forall a :: a in r ==> a in loaded && Qualifies(a) && a.name == name
  {
    GroupOf(Candidates(loaded), NameOf, name)
  }

  /** Every name that is a group key has a non-empty group. */
  lemma GroupNonEmpty(loaded: seq<Assembly>, name: string)
    requires name in Names(loaded)
    ensures |Group(loaded, name)| > 0
  {
    var q := Candidates(loaded);
    GroupKeysSound(q, NameOf, name);
    var k :| 0 <= k < |q| && NameOf(q[k]) == name;
    assert q[k] in Group(loaded, name);
  }

  /**
   * `GetReferencedAssemblies`: keep the qualifying assemblies, group them by
   * simple name, and from each group take the lowest version. There is one
   * result per group, and the groups come in the order in which their names
   * first occur among the qualifying assemblies.
   */
  function GetReferencedAssemblies(loaded: seq<Assembly>): (r: seq<Assembly>)
    ensures |r| == |Names(loaded)|
    ensures forall i :: 0 <= i < |r| ==> r[i].name == Names(loaded)[i] && r[i] in Group(loaded, r[i].name)
  {
    var names := Names(loaded);
    seq(|names|, i requires 0 <= i < |names| =>
      GroupNonEmpty(loaded, names[i]);
      Lowest(Group(loaded, names[i])))
  }

  /** Only loaded assemblies that are not dynamic and have a non-empty location are referenced. */
  lemma ReferencedQualify(loaded: seq<Assembly>, a: Assembly)
    requires a in GetReferencedAssemblies(loaded)
    ensures a in loaded && Qualifies(a)
  {
    var r := GetReferencedAssemblies(loaded);
    var i :| 0 <= i < |r| && r[i] == a;
  }

  /** At most one assembly is referenced per simple name. */
  lemma ReferencedNamesDistinct(loaded: seq<Assembly>, i: nat, j: nat)
    requires i < j < |GetReferencedAssemblies(loaded)|
    ensures GetReferencedAssemblies(loaded)[i].name != GetReferencedAssemblies(loaded)[j].name
  {
  }

  /** Every simple name among the qualifying assemblies is referenced. */
  lemma EveryNameReferenced(loaded: seq<Assembly>, b: Assembly)
    requires b in loaded && Qualifies(b)
    ensures exists a :: a in GetReferencedAssemblies(loaded) && a.name == b.name
  {
    var q := Candidates(loaded);
    var k :| 0 <= k < |q| && q[k] == b;
    var names := Names(loaded);
    var i :| 0 <= i < |names| && names[i] == NameOf(q[k]);
    assert GetReferencedAssemblies(loaded)[i] in GetReferencedAssemblies(loaded);
  }

  /**
   * The referenced assembly has the lowest version of its name, and any
   * qualifying assembly of that name loaded before it has a strictly higher
   * version (on a tie the earliest wins).
   */
  lemma ReferencedIsEarliestLowest(loaded: seq<Assembly>, i: nat)
    requires i < |GetReferencedAssemblies(loaded)|
    ensures var a := GetReferencedAssemblies(loaded)[i];
            && (forall b :: b in loaded && Qualifies(b) && b.name == a.name ==> !VersionLess(b.version, a.version))
            && EarliestLowest(Group(loaded, a.name), a)
  {
    var names := Names(loaded);
    var a := GetReferencedAssemblies(loaded)[i];
    GroupNonEmpty(loaded, names[i]);
    assert a == Lowest(Group(loaded, a.name));
    forall b | b in loaded && Qualifies(b) && b.name == a.name ensures !VersionLess(b.version, a.version) {
      InOwnGroup(loaded, b);
    }
  }

  /** A qualifying assembly belongs to the group of its name. */
  lemma InOwnGroup(loaded: seq<Assembly>, b: Assembly)
    requires b in loaded && Qualifies(b)
    ensures b in Group(loaded, b.name)
  {
    var q := Candidates(loaded);
    var k :| 0 <= k < |q| && q[k] == b;
  }

  /**
   * The order of the result follows first occurrence: when the assembly at `i`
   * comes before the one at `j`, some qualifying assembly named like the first
   * was loaded before every qualifying assembly named like the second.
   */
  lemma ReferencedInFirstOccurrenceOrder(loaded: seq<Assembly>, i: nat, j: nat)
    requires i < j < |GetReferencedAssemblies(loaded)|
    ensures var r := GetReferencedAssemblies(loaded);
            var q := Candidates(loaded);
            exists k :: 0 <= k < |q| && q[k].name == r[i].name && forall m :: 0 <= m <= k ==> q[m].name != r[j].name
  {
    GroupKeysFirstOccurrenceOrder(Candidates(loaded), NameOf, i, j);
  }
}
