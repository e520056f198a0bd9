/**
 * The catalog index as the package manager hands it over: catalogs, each with
 * solutions, each with a `setup` record. Every dictionary key the builder reads
 * with a default or with `.get` is an `Option` field; `None` means the key is absent.
 */
module CatalogIndex {
  import opened Wrappers

  /** One entry of a setup's `args` list: its `name` and `description` keys. */
  datatype ArgDef = ArgDef(name: Option<string>, description: Option<string>)

  /** The `setup` record of a solution. */
  datatype Setup = Setup(
    group: Option<string>,
    name: Option<string>,
    version: Option<string>,
    args: Option<seq<ArgDef>>)

  /** A solution entry of a catalog, with its (possibly absent) `setup` key. */
  datatype Solution = Solution(setup: Option<Setup>)

  /** A catalog, with its (possibly absent) `solutions` key. */
  datatype Catalog = Catalog(solutions: Option<seq<Solution>>)

  /** The whole index, with its (possibly absent) `catalogs` key. */
  datatype Index = Index(catalogs: Option<seq<Catalog>>)

  /** The group used when a setup has no `group` key. */
  const DefaultGroup: string := "album"

  /** What `sol.get("setup", {})` gives for a solution without a setup: no keys at all. */
  const EmptySetup: Setup := Setup(None, None, None, None)

  function SetupOf(sol: Solution): Setup {
    sol.setup.GetOr(EmptySetup)
  }

  function CatalogsOf(index: Index): seq<Catalog> {
    index.catalogs.GetOr([])
  }

  function SolutionsOf(catalog: Catalog): seq<Solution> {
    catalog.solutions.GetOr([])
  }

  function ArgsOf(setup: Setup): seq<ArgDef> {
    setup.args.GetOr([])
  }

  /** The solutions of the catalogs in catalog order, then solution order. */
  function Flatten(catalogs: seq<Catalog>): seq<Solution> {
    if catalogs == [] then []
    else Flatten(catalogs[..|catalogs| - 1]) + SolutionsOf(catalogs[|catalogs| - 1])
  }

  /** Every solution the builder visits, in the order it visits them. */
  function AllSolutions(index: Index): seq<Solution> {
    Flatten(CatalogsOf(index))
  }

  /** Python truthiness of an optional string value: present and not empty. */
  predicate Truthy(v: Option<string>) {
    v.Some? && v.value != ""
  }

  /** A solution the builder turns into a definition: truthy `name` and `version`. */
  predicate IsListed(sol: Solution) {
    Truthy(SetupOf(sol).name) && Truthy(SetupOf(sol).version)
  }

  /** The `group` key, or "album" when it is absent; a present group is used as it is. */
  function GroupOf(setup: Setup): string {
    setup.group.GetOr(DefaultGroup)
  }

  /** The solution identifier `group:name:version`. */
  function Identifier(setup: Setup): string
    requires setup.name.Some? && setup.version.Some?
  {
    GroupOf(setup) + ":" + setup.name.value + ":" + setup.version.value
  }

  /** Flattening distributes over concatenation of catalog lists. */
  lemma {:induction false} FlattenConcat(a: seq<Catalog>, b: seq<Catalog>)
    ensures Flatten(a + b) == Flatten(a) + Flatten(b)
    decreases |b|
  {
    if b == [] {
      assert a + b == a;
    } else {
      var b' := b[..|b| - 1];
      assert (a + b)[..|a + b| - 1] == a + b';
      assert (a + b)[|a + b| - 1] == b[|b| - 1];
      FlattenConcat(a, b');
    }
  }

  /** The position of the first colon of `s`, or `|s|` when it has none. */
  function FirstColon(s: string): (k: nat)
    ensures k <= |s|
  {
    if s == [] || s[0] == ':' then 0 else 1 + FirstColon(s[1..])
  }

  /** In `a + ":" + r` with a colon-free `a`, the first colon is the one after `a`. */
  lemma {:induction false} FirstColonAfter(a: string, r: string)
    requires ':' !in a
    ensures FirstColon(a + ":" + r) == |a|
  {
    if a != [] {
      assert a[0] in a;
      assert (a + ":" + r)[1..] == a[1..] + ":" + r;
      assert forall c :: c in a[1..] ==> c in a;
      FirstColonAfter(a[1..], r);
    }
  }

  /** A colon-free prefix ending at the first colon can be split off again. */
  lemma SplitAtFirstColon(a1: string, r1: string, a2: string, r2: string)
    requires ':' !in a1 && ':' !in a2
    requires a1 + ":" + r1 == a2 + ":" + r2
    ensures a1 == a2 && r1 == r2
  {
    var s := a1 + ":" + r1;
    FirstColonAfter(a1, r1);
    FirstColonAfter(a2, r2);
    assert a1 == s[..|a1|] && a2 == s[..|a2|];
    assert r1 == s[|a1| + 1..] && r2 == s[|a2| + 1..];
  }

  /**
   * When neither group nor name contains a colon, the identifier determines the
   * group, name and version it was built from, so two such solutions share an
   * identifier only when they share all three.
   */
  lemma IdentifierInjective(s1: Setup, s2: Setup)
    requires s1.name.Some? && s1.version.Some? && s2.name.Some? && s2.version.Some?
    requires ':' !in GroupOf(s1) && ':' !in s1.name.value
    requires ':' !in GroupOf(s2) && ':' !in s2.name.value
    requires Identifier(s1) == Identifier(s2)
    ensures GroupOf(s1) == GroupOf(s2) && s1.name == s2.name && s1.version == s2.version
  {
    var g1, n1, v1 := GroupOf(s1), s1.name.value, s1.version.value;
    var g2, n2, v2 := GroupOf(s2), s2.name.value, s2.version.value;
    assert Identifier(s1) == g1 + ":" + (n1 + ":" + v1);
    assert Identifier(s2) == g2 + ":" + (n2 + ":" + v2);
    SplitAtFirstColon(g1, n1 + ":" + v1, g2, n2 + ":" + v2);
    SplitAtFirstColon(n1, v1, n2, v2);
  }

  /** Without that condition, distinct solutions can share an identifier. */
  lemma ColonsCanCollide()
    ensures Identifier(Setup(Some("a:b"), Some("c"), Some("1"), None)) ==
            Identifier(Setup(Some("a"), Some("b:c"), Some("1"), None))
  {
  }
}
