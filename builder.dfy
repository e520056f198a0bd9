/**
 * The definition builder: the walk of `register_all_solutions` over the catalog
 * index, given here as functions. `Run` is the walk itself (including the point
 * where an argument without `name` or `description` raises a `KeyError` and ends
 * it) and `Build` is its outcome as a result.
 */
module DefinitionBuilder {
  import opened Wrappers
  import opened CatalogIndex

  /**
   * Port kind, port scope and node kind of the task schema. The builder only uses
   * `String`, `Local` and `Function`; the second constructor of each stands for the
   * schema's other values, which this model does not enumerate.
   */
  datatype PortKind = String | Int
  datatype PortScope = Local | Global
  datatype NodeKind = Function | Generator

  /** A `PortInput`: one argument of a task definition. */
  datatype Port = Port(key: string, description: string, kind: PortKind, scope: PortScope, nullable: bool)

  /** A `DefinitionInput`: the schema of one task. */
  datatype Definition = Definition(
    name: string,
    args: seq<Port>,
    returnPorts: seq<Port>,  // the `returns` field (a keyword in Dafny)
    collections: seq<string>,
    stateful: bool,
    portGroups: seq<string>,
    kind: NodeKind,
    isTestFor: seq<string>,
    interfaces: seq<string>,
    isDev: bool)

  /** A Python `KeyError` for the named key. */
  datatype Error = KeyError(key: string)

  /** A built task: its identifier and its definition. */
  datatype Entry = Entry(id: string, definition: Definition)

  /** What one solution does to the walk: nothing, one new entry, or a raised error. */
  datatype Step = Skipped | Defined(entry: Entry) | Raised(error: Error)

  /** The walk so far: the entries built, in order, and the error that ended it, if any. */
  datatype Trace = Trace(emitted: seq<Entry>, failure: Option<Error>)

  /** Both keys that the port construction indexes are present. */
  predicate HasKeys(a: ArgDef) {
    a.name.Some? && a.description.Some?
  }

  /** The error indexing an argument raises; `name` is looked up before `description`. */
  function MissingKey(a: ArgDef): Error {
    if a.name.None? then KeyError("name") else KeyError("description")
  }

  /** One argument as a string-typed, local, non-nullable port. */
  function ToPort(a: ArgDef): Result<Port, Error> {
    if !HasKeys(a) then Err(MissingKey(a)) else Ok(StringPort(a))
  }

  /** The port an argument with both keys becomes. */
  function StringPort(a: ArgDef): Port
    requires HasKeys(a)
  {
    Port(a.name.value, a.description.value, String, Local, false)
  }

  /** Argument `i` is the first one without both keys. */
  predicate FirstMissing(args: seq<ArgDef>, i: int) {
    0 <= i < |args| && !HasKeys(args[i]) && forall j :: 0 <= j < i ==> HasKeys(args[j])
  }

  /** The ports of a list of declared arguments, built left to right. */
  function Ports(args: seq<ArgDef>): Result<seq<Port>, Error> {
    if args == [] then Ok([])
    else match Ports(args[..|args| - 1])
      case Err(e) => Err(e)
      case Ok(ps) =>
        match ToPort(args[|args| - 1])
        case Err(e) => Err(e)
        case Ok(p) => Ok(ps + [p])
  }

  /**
   * The ports are one string-typed, local, non-nullable port per declared argument,
   * in declaration order, exactly when every argument has both keys; otherwise the
   * result is the `KeyError` of the first argument that lacks one.
   */
  lemma {:induction false} PortsSpec(args: seq<ArgDef>)
    ensures Ports(args).Ok? <==> forall i :: 0 <= i < |args| ==> HasKeys(args[i])
    ensures Ports(args).Ok? ==> |Ports(args).value| == |args|
    ensures Ports(args).Ok? ==>
      forall i :: 0 <= i < |args| ==> Ports(args).value[i] == StringPort(args[i])
    ensures Ports(args).Err? ==>
      exists i :: FirstMissing(args, i) && Ports(args).error == MissingKey(args[i])
  {
    if args != [] {
      var init, last := args[..|args| - 1], args[|args| - 1];
      assert forall j :: 0 <= j < |init| ==> init[j] == args[j];
      PortsSpec(init);
      match Ports(init)
      case Err(e) =>
        var i :| FirstMissing(init, i) && e == MissingKey(init[i]);
        assert FirstMissing(args, i);
      case Ok(ps) =>
        if HasKeys(last) {
          var r := ps + [StringPort(last)];
          assert Ports(args) == Ok(r);
          forall i | 0 <= i < |args| ensures r[i] == StringPort(args[i]) {
            if i < |init| { assert r[i] == ps[i]; }
          }
        } else {
          assert FirstMissing(args, |init|);
        }
    }
  }

  /** The fixed part of every built definition (everything but its name and arguments). */
  predicate FixedShape(d: Definition) {
    && d.returnPorts == []
    && d.collections == []
    && !d.stateful
    && d.portGroups == []
    && d.kind == Function
    && d.isTestFor == []
    && d.interfaces == []
    && d.isDev
  }

  /** The definition built for identifier `id` with argument ports `ports`. */
  function MakeDefinition(id: string, ports: seq<Port>): (d: Definition)
    ensures d.name == id && d.args == ports && FixedShape(d)
  {
    Definition(id, ports, [], [], false, [], Function, [], [], true)
  }

  /** The declared arguments of a solution do not make the build raise. */
  predicate ArgsOk(sol: Solution) {
    Ports(ArgsOf(SetupOf(sol))).Ok?
  }

  /** What one solution contributes to the walk. */
  function Visit(sol: Solution): Step {
    var setup := SetupOf(sol);
    if !Truthy(setup.name) || !Truthy(setup.version) then Skipped
    else
      var id := Identifier(setup);
      match Ports(ArgsOf(setup))
      case Err(e) => Raised(e)
      case Ok(ps) => Defined(Entry(id, MakeDefinition(id, ps)))
  }

  /** The walk after one more solution; once an error is raised nothing else happens. */
  function Advance(t: Trace, sol: Solution): Trace {
    if t.failure.Some? then t
    else match Visit(sol)
      case Skipped => t
      case Defined(e) => Trace(t.emitted + [e], None)
      case Raised(err) => Trace(t.emitted, Some(err))
  }

  /** The walk over a sequence of solutions, in order. */
  function Run(sols: seq<Solution>): Trace {
    if sols == [] then Trace([], None)
    else Advance(Run(sols[..|sols| - 1]), sols[|sols| - 1])
  }

  /** The build as a value: all entries in walk order, or the error that ended the walk. */
  function Build(index: Index): Result<seq<Entry>, Error> {
    var t := Run(AllSolutions(index));
    if t.failure.None? then Ok(t.emitted) else Err(t.failure.value)
  }

  /**
   * The entry a listed solution with well-formed arguments gives: its identifier is
   * `group:name:version` with group "album" by default, the definition is named by
   * that identifier, has the fixed shape and one port per declared argument, in order.
   */
  function EntryOf(sol: Solution): (e: Entry)
    requires IsListed(sol) && ArgsOk(sol)
    ensures var s := SetupOf(sol);
      e.id == s.group.GetOr("album") + ":" + s.name.value + ":" + s.version.value
    ensures e.definition.name == e.id && FixedShape(e.definition)
    ensures var args := ArgsOf(SetupOf(sol));
      |e.definition.args| == |args| &&
      forall i :: 0 <= i < |args| ==> HasKeys(args[i]) && e.definition.args[i] == StringPort(args[i])
    ensures Visit(sol) == Defined(e)
  {
    var s := SetupOf(sol);
    PortsSpec(ArgsOf(s));
    Entry(Identifier(s), MakeDefinition(Identifier(s), Ports(ArgsOf(s)).value))
  }

  /**
   * The builder's declared-arguments loop: it appends one port per argument and
   * raises on the first one without a `name` or `description` key.
   */
  method ArgPorts(args: seq<ArgDef>) returns (r: Result<seq<Port>, Error>)
    ensures r == Ports(args)
  {
    var ports: seq<Port> := [];
    for k := 0 to |args|
      invariant Ports(args[..k]) == Ok(ports)
    {
      var a := args[k];
      assert args[..k + 1][..k] == args[..k];
      if a.name.None? {
        PortsStopAtError(args, k + 1);
        return Err(KeyError("name"));
      }
      if a.description.None? {
        PortsStopAtError(args, k + 1);
        return Err(KeyError("description"));
      }
      ports := ports + [StringPort(a)];
    }
    assert args[..|args|] == args;
    r := Ok(ports);
  }

  /** Once a prefix of the arguments raises, the whole list raises the same error. */
  lemma {:induction false} PortsStopAtError(args: seq<ArgDef>, n: nat)
    requires n <= |args|
    requires Ports(args[..n]).Err?
    ensures Ports(args) == Ports(args[..n])
    decreases |args| - n
  {
    if n < |args| {
      assert args[..n + 1][..n] == args[..n];
      assert Ports(args[..n + 1]) == Ports(args[..n]);
      PortsStopAtError(args, n + 1);
    } else {
      assert args[..n] == args;
    }
  }
}
