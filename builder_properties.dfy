/**
 * What the walk of `register_all_solutions` guarantees, stated against a reference
 * description of its output: the listed solutions (truthy `name` and `version`), in
 * walk order, each turned into its entry.
 */
module BuilderProperties {
  import opened Wrappers
  import opened CatalogIndex
  import opened DefinitionBuilder

  /** The listed solutions, in order: the ones the builder does not skip. */
  function Listed(sols: seq<Solution>): (r: seq<Solution>)
    ensures |r| <= |sols|
    ensures forall k :: 0 <= k < |r| ==> IsListed(r[k]) && r[k] in sols
    ensures forall i :: 0 <= i < |sols| && IsListed(sols[i]) ==> sols[i] in r
  {
    if sols == [] then []
    else
      var init, last := sols[..|sols| - 1], sols[|sols| - 1];
      assert forall i :: 0 <= i < |init| ==> init[i] == sols[i];
      Listed(init) + (if IsListed(last) then [last] else [])
  }

  /** Every listed solution has arguments that all carry both keys. */
  predicate AllArgsOk(sols: seq<Solution>) {
    forall i :: 0 <= i < |sols| && IsListed(sols[i]) ==> ArgsOk(sols[i])
  }

  /** Solution `i` is the first listed one whose arguments raise. */
  predicate FirstFault(sols: seq<Solution>, i: int) {
    0 <= i < |sols| && IsListed(sols[i]) && !ArgsOk(sols[i]) && AllArgsOk(sols[..i])
  }

  /** The walk ends without error exactly when no listed solution has an argument without a key. */
  lemma {:induction false} RunSucceedsIff(sols: seq<Solution>)
    ensures Run(sols).failure.None? <==> AllArgsOk(sols)
  {
    if sols != [] {
      var n := |sols|;
      var init, last := sols[..n - 1], sols[n - 1];
      assert forall i :: 0 <= i < |init| ==> init[i] == sols[i];
      RunSucceedsIff(init);
      assert Run(sols) == Advance(Run(init), last);
      if !AllArgsOk(init) {
        var i :| 0 <= i < |init| && IsListed(init[i]) && !ArgsOk(init[i]);
        assert sols[i] == init[i];
      }
    }
  }

  /** A walk without error emits one entry per listed solution, in order. */
  lemma {:induction false} RunEmitsListed(sols: seq<Solution>)
    requires Run(sols).failure.None?
    ensures |Run(sols).emitted| == |Listed(sols)|
    ensures forall k :: 0 <= k < |Listed(sols)| ==>
      ArgsOk(Listed(sols)[k]) && Run(sols).emitted[k] == EntryOf(Listed(sols)[k])
  {
    if sols != [] {
      var n := |sols|;
      var init, last := sols[..n - 1], sols[n - 1];
      var t := Run(init);
      assert Run(sols) == Advance(t, last);
      RunEmitsListed(init);
      if IsListed(last) {
        assert Run(sols) == Trace(t.emitted + [EntryOf(last)], None);
        assert Listed(sols) == Listed(init) + [last];
      } else {
        assert Listed(sols) == Listed(init);
      }
    }
  }

  /**
   * A walk that raises reports the error of the first faulty listed solution, and the
   * entries emitted (and so registered) before it are those of the solutions before it.
   */
  lemma {:induction false} RunFailsAtFirstFault(sols: seq<Solution>)
    requires Run(sols).failure.Some?
    ensures exists i :: (FirstFault(sols, i) &&
      Run(sols).failure.value == Ports(ArgsOf(SetupOf(sols[i]))).error &&
      Run(sols).emitted == Run(sols[..i]).emitted)
  {
    var n := |sols|;
    var init, last := sols[..n - 1], sols[n - 1];
    var t := Run(init);
    assert Run(sols) == Advance(t, last);
    if t.failure.Some? {
      RunFailsAtFirstFault(init);
      var i :| FirstFault(init, i) && t.failure.value == Ports(ArgsOf(SetupOf(init[i]))).error &&
        t.emitted == Run(init[..i]).emitted;
      assert sols[..i] == init[..i];
      assert sols[i] == init[i];
      assert FirstFault(sols, i);
    } else {
      RunSucceedsIff(init);
      assert sols[..n - 1] == init;
      assert FirstFault(sols, n - 1);
    }
  }

  /**
   * The build succeeds exactly when every listed solution's arguments carry both
   * keys; then its entries are those of the listed solutions, in catalog order and
   * then solution order, one per listed solution. Otherwise it reports the error of
   * the first faulty listed solution.
   */
  lemma BuildSpec(index: Index)
    ensures Build(index).Ok? <==> AllArgsOk(AllSolutions(index))
    ensures Build(index).Ok? ==> |Build(index).value| == |Listed(AllSolutions(index))|
    ensures Build(index).Ok? ==> forall k :: 0 <= k < |Build(index).value| ==>
      ArgsOk(Listed(AllSolutions(index))[k]) &&
      Build(index).value[k] == EntryOf(Listed(AllSolutions(index))[k])
    ensures Build(index).Err? ==>
      exists i :: (FirstFault(AllSolutions(index), i) &&
        Build(index).error == Ports(ArgsOf(SetupOf(AllSolutions(index)[i]))).error)
  {
    var sols := AllSolutions(index);
    RunSucceedsIff(sols);
    if Run(sols).failure.None? {
      RunEmitsListed(sols);
    } else {
      RunFailsAtFirstFault(sols);
    }
  }

  /** The walk over `a` followed by the walk over `b`, cut short by an error in `a`. */
  function Then(t1: Trace, t2: Trace): Trace {
    if t1.failure.Some? then t1 else Trace(t1.emitted + t2.emitted, t2.failure)
  }

  /** Walking a concatenation is walking its parts one after the other. */
  lemma {:induction false} RunConcat(a: seq<Solution>, b: seq<Solution>)
    ensures Run(a + b) == Then(Run(a), Run(b))
    decreases |b|
  {
    if b == [] {
      assert a + b == a;
    } else {
      var init, last := b[..|b| - 1], b[|b| - 1];
      assert (a + b)[..|a + b| - 1] == a + init;
      assert (a + b)[|a + b| - 1] == last;
      RunConcat(a, init);
      var t1, t2 := Run(a), Run(init);
      if t1.failure.None? && t2.failure.None? && Visit(last).Defined? {
        assert t1.emitted + t2.emitted + [Visit(last).entry] == t1.emitted + (t2.emitted + [Visit(last).entry]);
      }
    }
  }

  /** After a walk without error, walking `b` adds its entries and its outcome. */
  lemma RunConcatOk(a: seq<Solution>, b: seq<Solution>)
    requires Run(a).failure.None?
    ensures Run(a + b).emitted == Run(a).emitted + Run(b).emitted
    ensures Run(a + b).failure == Run(b).failure
  {
    RunConcat(a, b);
  }

  /** An error ends the walk: nothing after it is visited. */
  lemma RunStopsAtError(a: seq<Solution>, b: seq<Solution>)
    requires Run(a).failure.Some?
    ensures Run(a + b) == Run(a)
  {
    RunConcat(a, b);
  }

  /**
   * A solution without a setup, or whose `name` or `version` is absent or empty,
   * changes nothing: it produces no entry and raises no error, whatever its arguments.
   */
  lemma UnlistedSolutionSkipped(a: seq<Solution>, s: Solution, b: seq<Solution>)
    requires s.setup.None? || !Truthy(SetupOf(s).name) || !Truthy(SetupOf(s).version)
    ensures Run(a + [s] + b) == Run(a + b)
  {
    RunConcat(a + [s], b);
    RunConcat(a, [s]);
    RunConcat(a, b);
    assert Run([s]) == Advance(Run([]), s);
  }

  /**
   * A catalog without solutions, whether its `solutions` key is absent or its list is
   * empty, changes nothing; an index without a `catalogs` key builds nothing.
   */
  lemma {:induction false} EmptyCatalogSkipped(c1: seq<Catalog>, c: Catalog, c2: seq<Catalog>)
    requires c.solutions.None? || c.solutions == Some([])
    ensures Build(Index(Some(c1 + [c] + c2))) == Build(Index(Some(c1 + c2)))
    ensures Build(Index(None)) == Ok([])
  {
    FlattenConcat(c1 + [c], c2);
    FlattenConcat(c1, [c]);
    FlattenConcat(c1, c2);
    assert Flatten([c]) == Flatten([]) + SolutionsOf(c);
    assert Flatten(c1 + [c]) == Flatten(c1);
  }

  /**
   * A catalog with the `denoise` solution and one other whose version is empty: the
   * first gives `album:denoise:1.0` with one port, the other is skipped.
   */
  lemma DenoiseExample()
    ensures var denoise := Solution(Some(Setup(None, Some("denoise"), Some("1.0"),
              Some([ArgDef(Some("input_image_path"), Some("path"))]))));
      var unversioned := Solution(Some(Setup(Some(""), Some("blur"), Some(""), None)));
      Build(Index(Some([Catalog(Some([denoise, unversioned]))]))) ==
        Ok([Entry("album:denoise:1.0",
          MakeDefinition("album:denoise:1.0", [Port("input_image_path", "path", String, Local, false)]))])
  {
    var args := [ArgDef(Some("input_image_path"), Some("path"))];
    var denoise := Solution(Some(Setup(None, Some("denoise"), Some("1.0"), Some(args))));
    var unversioned := Solution(Some(Setup(Some(""), Some("blur"), Some(""), None)));
    var c := Catalog(Some([denoise, unversioned]));
    assert [c][..0] == [];
    assert Flatten([c]) == Flatten([]) + SolutionsOf(c);
    assert args[..0] == [];
    assert Ports(args) == Ok([] + [StringPort(args[0])]);
    assert [denoise, unversioned][..1] == [denoise];
    assert [denoise][..0] == [];
    assert Identifier(SetupOf(denoise)) == "album:denoise:1.0";
    var e := Entry("album:denoise:1.0",
      MakeDefinition("album:denoise:1.0", [Port("input_image_path", "path", String, Local, false)]));
    assert Visit(denoise) == Defined(e);
    assert Visit(unversioned) == Skipped;
    assert Run([]) == Trace([], None);
    assert Run([denoise]) == Advance(Run([]), denoise) == Trace([e], None);
    assert Run([denoise, unversioned]) == Advance(Run([denoise]), unversioned) == Trace([e], None);
    assert AllSolutions(Index(Some([c]))) == [denoise, unversioned];
  }

  /** A present but empty group is kept: the identifier then starts with the colon. */
  lemma EmptyGroupExample()
    ensures var s := Solution(Some(Setup(Some(""), Some("blur"), Some("2"), None)));
      Build(Index(Some([Catalog(Some([s]))]))) == Ok([Entry(":blur:2", MakeDefinition(":blur:2", []))])
  {
    var s := Solution(Some(Setup(Some(""), Some("blur"), Some("2"), None)));
    var c := Catalog(Some([s]));
    assert [c][..0] == [];
    assert Flatten([c]) == Flatten([]) + SolutionsOf(c);
    assert [s][..0] == [];
    assert Identifier(SetupOf(s)) == ":blur:2";
    assert Visit(s) == Defined(Entry(":blur:2", MakeDefinition(":blur:2", [])));
    assert Run([]) == Trace([], None);
    assert Run([s]) == Advance(Run([]), s) == Trace([Entry(":blur:2", MakeDefinition(":blur:2", []))], None);
    assert AllSolutions(Index(Some([c]))) == [s];
  }
}
