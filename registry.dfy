/**
 * The definition registry and `register_all_solutions` itself: the nested walk over
 * catalogs and solutions that registers one template per listed solution, keyed by
 * its identifier. The registry is passed in explicitly instead of being a
 * process-wide default.
 */
module TaskRegistry {
  import opened Wrappers
  import opened CatalogIndex
  import opened DefinitionBuilder
  import opened BuilderProperties

  /** A `TemplateInput`: the definition, its dependencies, its interface and whether it is dynamic. */
  datatype Template = Template(definition: Definition, dependencies: seq<string>, interface: string, dynamic: bool)

  /** The actor a registration builds: when assigned work it runs the solution with this identifier. */
  datatype Actor = RunSolution(solutionId: string)

  /** One `register_at_interface` call: the interface it registers under, the template and the actor. */
  datatype Registration = Registration(interface: string, template: Template, actor: Actor)

  /** The registration the builder makes for an entry. */
  function RegistrationFor(e: Entry): Registration {
    Registration(e.id, Template(e.definition, [], e.id, false), RunSolution(e.id))
  }

  /** The `register_at_interface` calls for a sequence of entries, in order. */
  function RegistrationsOf(es: seq<Entry>): seq<Registration> {
    if es == [] then []
    else RegistrationsOf(es[..|es| - 1]) + [RegistrationFor(es[|es| - 1])]
  }

  /** There is one registration call per entry, in the entries' order. */
  lemma {:induction false} RegistrationsOfSpec(es: seq<Entry>)
    ensures |RegistrationsOf(es)| == |es|
    ensures forall k :: 0 <= k < |es| ==> RegistrationsOf(es)[k] == RegistrationFor(es[k])
  {
    if es != [] {
      var init := es[..|es| - 1];
      assert forall k :: 0 <= k < |init| ==> init[k] == es[k];
      RegistrationsOfSpec(init);
    }
  }

  /**
   * The registry, keyed by interface, after registering `es` in order on top of `m`.
   * A later registration under an interface replaces an earlier one.
   */
  function RegisterAll(m: map<string, Registration>, es: seq<Entry>): map<string, Registration> {
    if es == [] then m
    else
      var last := es[|es| - 1];
      RegisterAll(m, es[..|es| - 1])[last.id := RegistrationFor(last)]
  }

  /** Some entry of `es` has identifier `id`. */
  predicate Names(es: seq<Entry>, id: string) {
    exists k :: 0 <= k < |es| && es[k].id == id
  }

  /** Entry `k` is the last entry of `es` with identifier `id`. */
  predicate LastNaming(es: seq<Entry>, id: string, k: int) {
    0 <= k < |es| && es[k].id == id && forall j :: k < j < |es| ==> es[j].id != id
  }

  /**
   * After registering `es`, an interface is present exactly when it was before or
   * some entry has it as identifier; an interface that no entry names keeps its old
   * registration.
   */
  lemma {:induction false} RegisterAllKeys(m: map<string, Registration>, es: seq<Entry>, id: string)
    ensures id in RegisterAll(m, es) <==> id in m || Names(es, id)
    ensures !Names(es, id) && id in m ==> RegisterAll(m, es)[id] == m[id]
  {
    if es != [] {
      var init, last := es[..|es| - 1], es[|es| - 1];
      RegisterAllKeys(m, init, id);
      if Names(init, id) {
        var k :| 0 <= k < |init| && init[k].id == id;
        assert es[k] == init[k];
      }
      if Names(es, id) && last.id != id {
        var k :| 0 <= k < |es| && es[k].id == id;
        assert init[k] == es[k];
      }
    }
  }

  /** After registering `es`, an interface holds the registration of the last entry naming it. */
  lemma {:induction false} RegisterAllLast(m: map<string, Registration>, es: seq<Entry>, id: string, k: int)
    requires LastNaming(es, id, k)
    ensures id in RegisterAll(m, es) && RegisterAll(m, es)[id] == RegistrationFor(es[k])
  {
    var init, last := es[..|es| - 1], es[|es| - 1];
    if k < |es| - 1 {
      assert forall j :: 0 <= j < |init| ==> init[j] == es[j];
      assert LastNaming(init, id, k);
      RegisterAllLast(m, init, id, k);
    }
  }

  /** The walked solution `sols[i]`, listed and with well-formed arguments, gave entry `e`. */
  predicate ComesFrom(sols: seq<Solution>, e: Entry) {
    exists i :: 0 <= i < |sols| && IsListed(sols[i]) && ArgsOk(sols[i]) && e == EntryOf(sols[i])
  }

  /**
   * Every entry the walk emits comes from a listed solution of the walk whose
   * arguments are well formed, as `EntryOf` describes it.
   */
  lemma {:induction false} EmittedFromListed(sols: seq<Solution>)
    ensures forall k :: 0 <= k < |Run(sols).emitted| ==> ComesFrom(sols, Run(sols).emitted[k])
  {
    if sols != [] {
      var init, last := sols[..|sols| - 1], sols[|sols| - 1];
      EmittedFromListed(init);
      var t := Run(init);
      var es := Run(sols).emitted;
      assert es == t.emitted || (IsListed(last) && ArgsOk(last) && es == t.emitted + [EntryOf(last)]);
      forall k | 0 <= k < |es| ensures ComesFrom(sols, es[k]) {
        if k < |t.emitted| {
          assert ComesFrom(init, t.emitted[k]);
          var i :| 0 <= i < |init| && IsListed(init[i]) && ArgsOk(init[i]) && t.emitted[k] == EntryOf(init[i]);
          assert sols[i] == init[i];
        } else {
          assert es[k] == EntryOf(sols[|sols| - 1]);
        }
      }
    } else {
      assert Run(sols).emitted == [];
    }
  }

  /**
   * After a walk from an empty registry, every registered interface holds a
   * registration with that interface, a template whose interface and definition name
   * are that interface, an actor that runs that solution, and the interface is the
   * `group:name:version` identifier of some listed solution.
   */
  lemma RegistrationsConsistent(sols: seq<Solution>, id: string)
    requires id in RegisterAll(map[], Run(sols).emitted)
    ensures var r := RegisterAll(map[], Run(sols).emitted)[id];
      r.interface == id && r.template.interface == id && r.template.definition.name == id &&
      r.actor == RunSolution(id) && r.template.dependencies == [] && !r.template.dynamic &&
      FixedShape(r.template.definition)
    ensures exists i :: 0 <= i < |sols| && IsListed(sols[i]) && Identifier(SetupOf(sols[i])) == id
  {
    var i := RegisteredEntry(sols, id);
    assert Identifier(SetupOf(sols[i])) == id;
  }

  /** A registered interface holds the registration of the entry of some listed, well-formed solution. */
  lemma RegisteredEntry(sols: seq<Solution>, id: string) returns (i: int)
    requires id in RegisterAll(map[], Run(sols).emitted)
    ensures 0 <= i < |sols| && IsListed(sols[i]) && ArgsOk(sols[i]) && EntryOf(sols[i]).id == id
    ensures RegisterAll(map[], Run(sols).emitted)[id] == RegistrationFor(EntryOf(sols[i]))
  {
    var es := Run(sols).emitted;
    RegisterAllKeys(map[], es, id);
    var k :| 0 <= k < |es| && es[k].id == id;
    var last := LastWith(es, id, k);
    RegisterAllLast(map[], es, id, last);
    EmittedFromListed(sols);
    assert ComesFrom(sols, es[last]);
    i :| 0 <= i < |sols| && IsListed(sols[i]) && ArgsOk(sols[i]) && es[last] == EntryOf(sols[i]);
  }

  /** The last index, from `k` on, whose entry has identifier `id`. */
  function LastWith(es: seq<Entry>, id: string, k: nat): (last: nat)
    requires k < |es| && es[k].id == id
    ensures k <= last && LastNaming(es, id, last)
    decreases |es| - k
  {
    if exists j :: k < j < |es| && es[j].id == id then
      var j :| k < j < |es| && es[j].id == id;
      LastWith(es, id, j)
    else k
  }

  /**
   * The default definition registry: registrations keyed by interface, and the
   * calls made to it so far.
   */
  class DefinitionRegistry {
    var registrations: map<string, Registration>
    /** Every registration made, in call order. */
    ghost var history: seq<Registration>

    constructor ()
      ensures registrations == map[] && history == []
    {
      registrations := map[];
      history := [];
    }

    /** `register_at_interface`: registers under `interface`, replacing what was there. */
    method RegisterAtInterface(interface: string, template: Template, actor: Actor)
      modifies this
      ensures registrations == old(registrations)[interface := Registration(interface, template, actor)]
      ensures history == old(history) + [Registration(interface, template, actor)]
    {
      registrations := registrations[interface := Registration(interface, template, actor)];
      history := history + [Registration(interface, template, actor)];
    }
  }

  /**
   * The body of the solution loop: skips a solution without a truthy `name` and
   * `version`, raises the `KeyError` of a malformed argument, and otherwise registers
   * the solution's template and actor under its identifier.
   */
  method RegisterSolution(sol: Solution, registry: DefinitionRegistry) returns (raised: Option<Error>)
    modifies registry
    ensures raised == if Visit(sol).Raised? then Some(Visit(sol).error) else None
    ensures Visit(sol).Defined? ==>
      registry.registrations == old(registry.registrations)[Visit(sol).entry.id := RegistrationFor(Visit(sol).entry)] &&
      registry.history == old(registry.history) + [RegistrationFor(Visit(sol).entry)]
    ensures !Visit(sol).Defined? ==>
      registry.registrations == old(registry.registrations) && registry.history == old(registry.history)
  {
    var setup := SetupOf(sol);
    var group := setup.group.GetOr(DefaultGroup);
    var name, version := setup.name, setup.version;
    if !Truthy(name) || !Truthy(version) {
      return None;
    }
    var solutionId := group + ":" + name.value + ":" + version.value;
    var ports := ArgPorts(ArgsOf(setup));
    if ports.Err? {
      return Some(ports.error);
    }
    var definition := MakeDefinition(solutionId, ports.value);
    registry.RegisterAtInterface(solutionId, Template(definition, [], solutionId, false), RunSolution(solutionId));
    return None;
  }

  /**
   * The solution loop of one catalog: registers its solutions in order and stops at
   * the first `KeyError`, leaving the registrations made before it.
   */
  method RegisterCatalog(sols: seq<Solution>, registry: DefinitionRegistry) returns (raised: Option<Error>)
    modifies registry
    ensures raised == Run(sols).failure
    ensures registry.registrations == RegisterAll(old(registry.registrations), Run(sols).emitted)
    ensures registry.history == old(registry.history) + RegistrationsOf(Run(sols).emitted)
  {
    ghost var m0, h0 := registry.registrations, registry.history;
    var j := 0;
    while j < |sols|
      invariant 0 <= j <= |sols|
      invariant Run(sols[..j]).failure.None?
      invariant registry.registrations == RegisterAll(m0, Run(sols[..j]).emitted)
      invariant registry.history == h0 + RegistrationsOf(Run(sols[..j]).emitted)
    {
      ghost var m, h := registry.registrations, registry.history;
      raised := RegisterSolution(sols[j], registry);
      assert sols[..j + 1] == sols[..j] + [sols[j]];
      RegisterStep(m0, h0, sols[..j], sols[j], m, h, registry.registrations, registry.history);
      if raised.Some? {
        assert sols == sols[..j + 1] + sols[j + 1..];
        RunStopsAtError(sols[..j + 1], sols[j + 1..]);
        return;
      }
      j := j + 1;
    }
    assert sols[..|sols|] == sols;
    raised := None;
  }

  /**
   * `register_all_solutions`: walks the catalogs in order and their solutions in
   * order, skips those without a truthy `name` and `version`, and registers a
   * template for each other one under its identifier. An argument without a `name`
   * or `description` key raises a `KeyError`, which ends the walk and is returned
   * here; the registrations made before it stay.
   */
  method RegisterAllSolutions(index: Index, registry: DefinitionRegistry) returns (raised: Option<Error>)
    modifies registry
    ensures raised == Run(AllSolutions(index)).failure
    ensures registry.registrations == RegisterAll(old(registry.registrations), Run(AllSolutions(index)).emitted)
    ensures registry.history == old(registry.history) + RegistrationsOf(Run(AllSolutions(index)).emitted)
  {
    ghost var m0, h0 := registry.registrations, registry.history;
    var catalogs := CatalogsOf(index);
    var i := 0;
    while i < |catalogs|
      invariant 0 <= i <= |catalogs|
      invariant Run(Flatten(catalogs[..i])).failure.None?
      invariant registry.registrations == RegisterAll(m0, Run(Flatten(catalogs[..i])).emitted)
      invariant registry.history == h0 + RegistrationsOf(Run(Flatten(catalogs[..i])).emitted)
    {
      ghost var m, h := registry.registrations, registry.history;
      var sols := SolutionsOf(catalogs[i]);
      raised := RegisterCatalog(sols, registry);
      CatalogStep(catalogs, i);
      RegisterCatalogStep(m0, h0, Flatten(catalogs[..i]), sols, m, h, registry.registrations, registry.history);
      if raised.Some? {
        StopAfterCatalog(catalogs, i);
        return;
      }
      i := i + 1;
    }
    assert catalogs[..|catalogs|] == catalogs;
    raised := None;
  }

  /**
   * One more solution walked: the registry changes as `RegisterSolution` promises
   * exactly when the walk's registrations grow by that solution's entry.
   */
  lemma RegisterStep(m0: map<string, Registration>, h0: seq<Registration>, walked: seq<Solution>, x: Solution,
                     m: map<string, Registration>, h: seq<Registration>,
                     m': map<string, Registration>, h': seq<Registration>)
    requires Run(walked).failure.None?
    requires m == RegisterAll(m0, Run(walked).emitted) && h == h0 + RegistrationsOf(Run(walked).emitted)
    requires Visit(x).Defined? ==>
      m' == m[Visit(x).entry.id := RegistrationFor(Visit(x).entry)] && h' == h + [RegistrationFor(Visit(x).entry)]
    requires !Visit(x).Defined? ==> m' == m && h' == h
    ensures Run(walked + [x]).failure == if Visit(x).Raised? then Some(Visit(x).error) else None
    ensures m' == RegisterAll(m0, Run(walked + [x]).emitted)
    ensures h' == h0 + RegistrationsOf(Run(walked + [x]).emitted)
  {
    RunSnoc(walked, x);
    if Visit(x).Defined? {
      var e := Visit(x).entry;
      RegisterOneMore(m0, Run(walked).emitted, e);
      AppendAssoc(h0, RegistrationsOf(Run(walked).emitted), [RegistrationFor(e)]);
    }
  }

  /** One more catalog walked, as `RegisterSolution` does for one more solution. */
  lemma RegisterCatalogStep(m0: map<string, Registration>, h0: seq<Registration>, done: seq<Solution>, sols: seq<Solution>,
                            m: map<string, Registration>, h: seq<Registration>,
                            m': map<string, Registration>, h': seq<Registration>)
    requires Run(done).failure.None?
    requires m == RegisterAll(m0, Run(done).emitted) && h == h0 + RegistrationsOf(Run(done).emitted)
    requires m' == RegisterAll(m, Run(sols).emitted) && h' == h + RegistrationsOf(Run(sols).emitted)
    ensures Run(done + sols).failure == Run(sols).failure
    ensures m' == RegisterAll(m0, Run(done + sols).emitted)
    ensures h' == h0 + RegistrationsOf(Run(done + sols).emitted)
  {
    var a, b := Run(done).emitted, Run(sols).emitted;
    RunConcatOk(done, sols);
    RegisterAllConcat(m0, a, b);
    AppendAssoc(h0, RegistrationsOf(a), RegistrationsOf(b));
  }

  lemma AppendAssoc(x: seq<Registration>, y: seq<Registration>, z: seq<Registration>)
    ensures (x + y) + z == x + (y + z)
  {
  }

  /** A catalog whose walk raised ends the whole walk. */
  lemma StopAfterCatalog(catalogs: seq<Catalog>, i: nat)
    requires i < |catalogs| && Run(Flatten(catalogs[..i + 1])).failure.Some?
    ensures Run(Flatten(catalogs)) == Run(Flatten(catalogs[..i + 1]))
  {
    assert catalogs == catalogs[..i + 1] + catalogs[i + 1..];
    FlattenConcat(catalogs[..i + 1], catalogs[i + 1..]);
    RunStopsAtError(Flatten(catalogs[..i + 1]), Flatten(catalogs[i + 1..]));
  }

  /** One more solution walked. */
  lemma RunSnoc(a: seq<Solution>, x: Solution)
    ensures Run(a + [x]) == Advance(Run(a), x)
  {
    assert (a + [x])[..|a|] == a;
  }

  /** The catalogs up to and including catalog `i` hold the earlier ones' solutions, then its own. */
  lemma CatalogStep(catalogs: seq<Catalog>, i: nat)
    requires i < |catalogs|
    ensures Flatten(catalogs[..i + 1]) == Flatten(catalogs[..i]) + SolutionsOf(catalogs[i])
  {
    assert catalogs[..i + 1][..i] == catalogs[..i];
  }

  /** Registering `a` and then `b` is registering `a + b`. */
  lemma {:induction false} RegisterAllConcat(m: map<string, Registration>, a: seq<Entry>, b: seq<Entry>)
    ensures RegisterAll(m, a + b) == RegisterAll(RegisterAll(m, a), b)
    ensures RegistrationsOf(a + b) == RegistrationsOf(a) + RegistrationsOf(b)
    decreases |b|
  {
    if b == [] {
      assert a + b == a;
    } else {
      var init := b[..|b| - 1];
      assert (a + b)[..|a + b| - 1] == a + init;
      assert (a + b)[|a + b| - 1] == b[|b| - 1];
      RegisterAllConcat(m, a, init);
    }
  }

  /** Registering one more entry. */
  lemma RegisterOneMore(m: map<string, Registration>, es: seq<Entry>, e: Entry)
    ensures RegisterAll(m, es + [e]) == RegisterAll(m, es)[e.id := RegistrationFor(e)]
    ensures RegistrationsOf(es + [e]) == RegistrationsOf(es) + [RegistrationFor(e)]
  {
    assert (es + [e])[..|es|] == es;
  }
}
