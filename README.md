# Album solutions as task definitions — a Dafny model

The application turns the solution catalog of the album package manager into task
definitions for the arkitekt task runtime. Its one operation, `register_all_solutions`,
reads the catalog index (catalogs, each with solutions, each with a `setup` holding
`group`, `name`, `version` and `args`), skips solutions without a truthy `name` and
`version`, builds the identifier `group:name:version` (group "album" by default), turns
every declared argument into a string-typed, local, non-nullable port, wraps the ports in
a definition of fixed shape and registers a template for it under the identifier. An
argument without a `name` or `description` key raises a `KeyError`, which ends the walk.

The model has five files:

- `wrappers.dfy` (`Wrappers`): `Option` for a dictionary key that may be absent, `Result`.
- `catalog.dfy` (`CatalogIndex`): the index as records with optional keys, the walk order
  (`Flatten`), Python truthiness, the default group and the identifier, with the lemma
  that the identifier determines group, name and version when group and name hold no colon.
- `builder.dfy` (`DefinitionBuilder`): ports, definitions and the walk as functions —
  `Ports`, `Visit` (one solution), `Advance`/`Run` (the walk, stopping at the first
  error) and `Build` (its outcome as a result) — plus `ArgPorts`, the argument loop as a
  method proved equal to `Ports`.
- `builder_properties.dfy` (`BuilderProperties`): what the walk produces, against a
  reference description (`Listed`: the solutions with truthy name and version, in order,
  each turned into `EntryOf` it), skipping rules, and two worked examples.
- `registry.dfy` (`TaskRegistry`): the definition registry as a class with a map keyed by
  interface, and `RegisterAllSolutions`, the nested catalog/solution loop, proved to leave
  the registry exactly as registering `Run`'s entries in order would. The loop body and
  the inner loop are the methods `RegisterSolution` and `RegisterCatalog`, each proved
  against the same functions.

`Build` is a function of the index alone, so building twice from the same index gives
the same entries; `RegisterAllSolutions`' postconditions fix the final registry as a
function of the index and the registry it started from.

A `KeyError` is a returned `Some(error)` of `RegisterAllSolutions` instead of a Python
exception; the registrations made before it stay, as in the source, where each
registration happens inside the loop.

The code skips solutions whose `name` or `version` is present but empty (Python
truthiness); an argument without `name` or `description` makes the build fail rather
than being skipped; and the identifier is not unique in general: a colon inside a group
or name lets two different solutions share one (`ColonsCanCollide`). This code has no
install-then-run dispatch, install cache or progress reporting: the registered actor
simply runs the solution.

## Model

| member | source | states |
|---|---|---|
| `CatalogIndex.CatalogsOf` | app.py:24 | `index.get("catalogs", [])`: the catalogs, none when the key is absent |
| `CatalogIndex.SolutionsOf` | app.py:26 | `catalog.get("solutions", [])`: the catalog's solutions, none when the key is absent |
| `CatalogIndex.SetupOf` | app.py:27 | `sol.get("setup", {})`: the setup, one with no keys at all when the key is absent |
| `CatalogIndex.ArgsOf` | app.py:42 | `setup.get("args", [])`: the declared arguments, none when the key is absent |
| `CatalogIndex.Flatten` | app.py:24-26 | the order of the nested loops: the solutions of the catalogs in catalog order, each catalog's in its own order; stated by `FlattenConcat` |
| `CatalogIndex.AllSolutions` | app.py:21-26 | every solution the builder visits, in visiting order: `Flatten` of the index's catalogs |
| `CatalogIndex.Truthy` | app.py:31 | the test `not name or not version`: a value counts as true exactly when the key is present and the string is not empty |
| `CatalogIndex.IsListed` | app.py:27-33 | a solution is kept exactly when its setup (an empty one when the key is absent) has truthy `name` and `version` |
| `CatalogIndex.GroupOf` | app.py:28 | the `group` key, "album" when it is absent, a present group (even an empty one) as it is |
| `CatalogIndex.Identifier` | app.py:36 | the identifier `group:name:version`; what it determines is stated by `IdentifierInjective` and `ColonsCanCollide` |
| `CatalogIndex.FlattenConcat` | app.py:24-26 | walking catalogs `a` then `b` visits the solutions of `a` and then those of `b`, each catalog's in order |
| `CatalogIndex.IdentifierInjective` | app.py:36 | when group and name contain no colon, equal identifiers `group:name:version` mean equal group, name and version |
| `CatalogIndex.ColonsCanCollide` | app.py:36 | group "a:b" with name "c" and group "a" with name "b:c" give the same identifier |
| `DefinitionBuilder.MissingKey` | app.py:44 | the `KeyError` an argument lacking a key raises: "name" when `name` is absent (looked up first), otherwise "description" |
| `DefinitionBuilder.ToPort` | app.py:44 | one argument: the `KeyError` of its missing key (`MissingKey`: "name" before "description"), or its `StringPort` |
| `DefinitionBuilder.StringPort` | app.py:44 | the port of an argument with both keys: key = name, description = description, kind string, scope local, not nullable |
| `DefinitionBuilder.Ports` | app.py:41-45 | the ports of all declared arguments, left to right, stopping at the first error; what it yields is stated by `PortsSpec` |
| `DefinitionBuilder.PortsSpec` | app.py:41-45 | the ports are one per declared argument, in order, with key = name, description = description, kind string, scope local, not nullable, exactly when every argument has both keys; otherwise the error is the `KeyError` of the first argument lacking one, "name" checked before "description" |
| `DefinitionBuilder.PortsStopAtError` | app.py:43-44 | once an argument raises, the arguments after it change nothing |
| `DefinitionBuilder.ArgPorts` | app.py:41-45 | the loop that appends one port per argument returns exactly `Ports(args)`, including its error |
| `DefinitionBuilder.MakeDefinition` | app.py:47-58 | the definition is named by the identifier, has the given ports as arguments, and the fixed shape: no returns, collections, port groups, test targets or interfaces, not stateful, a function, marked dev |
| `DefinitionBuilder.Visit` | app.py:27-58 | one solution: skipped when not listed, the `KeyError` of its arguments when they raise, otherwise its entry; `EntryOf` states the entry |
| `DefinitionBuilder.Advance` | app.py:26-58 | one more solution walked; after an error nothing more happens |
| `DefinitionBuilder.Run` | app.py:24-58 | the walk over the solutions in order, with the entries built and the error that ended it; stated by `RunSucceedsIff`, `RunEmitsListed`, `RunFailsAtFirstFault` and `RunConcat` |
| `DefinitionBuilder.Build` | app.py:18-58 | the walk over all catalogs' solutions as a result: the entries, or the error that ended it; stated by `BuildSpec` |
| `DefinitionBuilder.EntryOf` | app.py:27-58 | a listed solution's entry has identifier group (default "album", a present group verbatim) `:` name `:` version; its definition is named by that identifier, has no returns, collections, port groups, test targets or interfaces, is not stateful, is a function and is marked dev, and has one port per declared argument in order |
| `BuilderProperties.Listed` | app.py:29-33 | the listed solutions are exactly the walked solutions with truthy name and version |
| `BuilderProperties.RunSucceedsIff` | app.py:24-45 | the walk ends without error exactly when every listed solution's arguments carry both keys |
| `BuilderProperties.RunEmitsListed` | app.py:24-58 | a walk without error emits one entry per listed solution, in walk order, each the `EntryOf` that solution |
| `BuilderProperties.RunFailsAtFirstFault` | app.py:24-45 | a walk that raises reports the `KeyError` of the first listed solution with a malformed argument, and the entries emitted before it are exactly those of the solutions before it |
| `BuilderProperties.BuildSpec` | app.py:18-58 | the build succeeds exactly when no listed solution has an argument without a key; its entries are then those of the listed solutions in catalog order and solution order, as many as there are listed solutions; otherwise it reports the first faulty solution's `KeyError` |
| `BuilderProperties.RunConcat` | app.py:24-33 | walking two sequences of solutions is walking the first and then, unless it raised, the second |
| `BuilderProperties.RunConcatOk` | app.py:24-33 | after a part of the walk that did not raise, the next part adds its own entries and decides the outcome |
| `BuilderProperties.RunStopsAtError` | app.py:43-44 | after an error nothing further is visited or emitted |
| `BuilderProperties.UnlistedSolutionSkipped` | app.py:27-33 | a solution without a setup, or with absent or empty `name` or `version`, produces no entry and no error wherever it stands, even with malformed arguments |
| `BuilderProperties.EmptyCatalogSkipped` | app.py:24-26 | a catalog with no or an empty `solutions` key changes nothing, and an index without `catalogs` builds nothing |
| `BuilderProperties.DenoiseExample` | app.py:28-58 | the `denoise` 1.0 solution without a group gives `album:denoise:1.0` with the single port `input_image_path`; a solution with an empty version beside it is skipped |
| `BuilderProperties.EmptyGroupExample` | app.py:28-36 | a present empty group is kept, giving the identifier `:blur:2` |
| `TaskRegistry.RegistrationFor` | app.py:59-67 | the call made for an entry: under its identifier, a template with its definition, no dependencies, that identifier as interface, not dynamic, and an actor running that solution |
| `TaskRegistry.RegisterAll` | app.py:59-67 | the registry after registering entries in order, a later registration under an interface replacing an earlier one; stated by `RegisterAllKeys` and `RegisterAllLast` |
| `TaskRegistry.RegistrationsOf` | app.py:59-67 | the sequence of `register_at_interface` calls for a sequence of entries, one `RegistrationFor` each, in order; stated by `RegistrationsOfSpec` |
| `TaskRegistry.RegistrationsOfSpec` | app.py:59-67 | the registration calls are one per emitted entry, in order, each registering the entry's definition in a template with no dependencies, not dynamic, under the entry's identifier, with an actor that runs that solution |
| `TaskRegistry.RegisterAllKeys` | app.py:59-67 | after registering entries in order, an interface is present exactly when it was before or some entry has it as identifier; an interface no entry names keeps its registration |
| `TaskRegistry.RegisterAllLast` | app.py:59-67 | after registering entries in order, an interface holds the registration of the last entry with that identifier |
| `TaskRegistry.EmittedFromListed` | app.py:29-58 | every emitted entry is the entry of some walked solution with truthy name and version and well-formed arguments |
| `TaskRegistry.RegistrationsConsistent` | app.py:36-67 | after a walk from an empty registry each registered interface holds a template whose interface and definition name are that interface, with no dependencies, not dynamic, of the fixed definition shape, and an actor that runs that solution; the interface is the identifier of some listed solution |
| `TaskRegistry.DefinitionRegistry.RegisterAtInterface` | app.py:59-67 | registering stores the template and actor under the interface, replacing what was there, and records the call |
| `TaskRegistry.RegisterSolution` | app.py:27-67 | the loop body: a solution without truthy name and version changes nothing; one with a malformed argument returns that `KeyError` and changes nothing; otherwise exactly one registration, of its entry, is made under its identifier |
| `TaskRegistry.RegisterCatalog` | app.py:26-67 | the solution loop of one catalog returns the walk's error over its solutions and leaves the registry as registering that walk's entries in order would |
| `TaskRegistry.RegisterAllSolutions` | app.py:18-67 | the nested loop over catalogs and solutions leaves the registry as registering the walk's entries in order would, makes one call per entry in order, and returns the walk's `KeyError` if it raised |

## Left out

- Creating the album instance and loading its collection (app.py:11-12) and fetching
  the index (app.py:21) are package-manager I/O; the index is a parameter.
- The definition and structure registries (app.py:59-67) belong to a library that is not
  part of this model. `DefinitionRegistry.RegisterAtInterface`: that a second
  registration under the same interface replaces the first is an assumption, not
  visible in this code. The structure registry argument is not modelled.
- The actor class `BlaBla` and `album.run` (app.py:14-15, 67): threaded execution and a
  call into the package manager. The model only records that the actor runs the solution
  with the registered identifier (`RunSolution(id)`).
- Values of other types in the index: the model has strings for `group`, `name`,
  `version` and the argument keys and lists for `catalogs`, `solutions` and `args`.
  Python would format a non-string group or version into the identifier, treat
  `0` or `None` as falsy, and raise `TypeError` on a key holding `None` where a list is
  iterated; none of that is modelled.
- Validation by the schema classes (`PortInput`, `DefinitionInput`, `TemplateInput`) is
  not modelled; `PortKind`, `PortScope` and `NodeKind` have the value the code uses
  (`String`, `Local`, `Function`) and one constructor standing for all other values.
- The call at import time (app.py:70): an exception there aborts loading the module;
  the model returns the error instead.
- Concurrency between invocations.
