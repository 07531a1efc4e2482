# DryIoc container-to-assembly generator: a Dafny model

DryIoc's `ContainerAssemblyGenerator` sets out to compile the resolution
graph of a live container into a dynamic assembly. It defines one factory
type per root entry whose identity (service type, service key) no dependency
occurrence has, then a `ContainerGenerator` type, and builds the block meant
to become that type's `GetContainer` entry point. As written, the call never
gets further: wrapping the block with `Expression.Lambda<Container>` throws,
because `Container` is not a delegate type. So no entry point is compiled and
no `ContainerAssembly` is returned, and the hand-written
`ContainerGenerator.GetContainer` only throws. This project models the
bookkeeping the generator does before it throws and proves its rules. The
rules are:

- **Root selection** (`root_selection.dfy`). With neither a root selector nor
  an explicit root list, the roots are the registrations flagged
  `AsResolutionRoot`. Otherwise the roots are the selector's outputs, one
  registration after another (a null output counts as empty), followed by
  the explicit list.
- **Identity grouping** (`grouping.dfy`). Roots and dependency occurrences
  are grouped by (service type, service key), in LINQ `GroupBy` order. The
  simple factories are the roots whose identity has no dependency group.
  There is one factory per root entry, not one per identity.
- **Type-name allocation** (`naming.dfy`, `type_names.dfy`). The base name is
  the service type's full name with `.` replaced by `_`, plus `_<key>` when
  the key's text is not null. `GetTypeName` tries the base name, then
  `base_1`, `base_2`, … and returns the first one that no type in the module
  has, ignoring case. `DefineType` then adds that name to the module. The
  module is a class whose list of type names grows with each definition.
- **Delegate lookup** (`delegate_lookup.dfy`). `GetDelegateOrDefault` is
  meant to return the delegate of the first (required service type, parent
  request, delegate) entry that fits the request, and null when no entry
  fits. The model states that scan over the list of entries.
- **Entry point and generator** (`generator.dfy`). The entry block assigns a
  new container to its variable, runs the registration lines, and ends with
  the variable. `GenerateContainerAssembly` defines one factory type per
  simple factory, then the `ContainerGenerator` type, builds the entry
  block, and then throws.

Runtime types, service keys and requests are modelled as values. A runtime
type carries a `handle` that stands for the `Type` object, which is unique
per type. A service key carries a `handle` that stands for its class under
`object.Equals`, because the identity pair `KV` compares its parts with
`Equals`: two distinct string objects with the same text are one key.
Requests carry no handle and are compared structurally. The model takes a
key's `ToString()` text to be fixed by its `Equals` class, so keys with one
`handle` always carry the same text. The container's
resolution engine (`GenerateResolutionExpressions`) is a function parameter
`generate` that turns the requested roots into root and dependency
expressions. `Request.Empty` is modelled as a parent of `None`.

The model follows the code as written, including where it stops short of what the generator is meant to do:

- The code does not check that an identity has at most one root.
- `GetDelegateOrDefault` has no fallback to a root delegate.
- `Expression.Lambda<Container>` throws an `ArgumentException`, so the
  generator ends with an exception after it has defined its types.
- Roots are an ordered concatenation, not a set union.
- `registrationLines` is passed to `GenerateSimpleFactory` but nothing is
  ever added to it. The entry block built for `GetContainer` would therefore
  only create and return an empty container.
- The generator type is defined as `ContainerGenerator` directly, without
  going through `GetTypeName`. The model therefore claims distinctness only
  among the factory type names.

## Model

| member | source | states |
|---|---|---|
| `Naming.KeyText` | src/DryIoc/ContainerAssemblyGenerator.cs:84-85 | `ServiceKey?.ToString()`: null without a key, else the key's text; its use in the base name is stated by `Naming.BaseName` |
| `Naming.Sanitize` | src/DryIoc/ContainerAssemblyGenerator.cs:84 | the result has the input's length, replaces every `.` with `_`, keeps every other character, and holds no `.` |
| `Naming.BaseName` | src/DryIoc/ContainerAssemblyGenerator.cs:84-86 | the base name begins with the sanitized full name (no dots). When the key's text is non-null it continues with `_` and that text; otherwise it has exactly the full name's length |
| `Naming.Decimal` | src/DryIoc/ContainerAssemblyGenerator.cs:89 | `i.ToString()`: at least one digit, exactly one below 10, ending in the last digit of `i`; `Naming.DecimalInjective` states that different counters print differently |
| `Naming.Candidate` | src/DryIoc/ContainerAssemblyGenerator.cs:89 | candidate `i` of a base name (the base name itself for 0, else `base_i`); `Naming.CandidatesDistinct` states that one base name's candidates differ ignoring case |
| `Naming.SameIgnoringCase` | src/DryIoc/ContainerAssemblyGenerator.cs:90 | `Equals(…, InvariantCultureIgnoreCase)` as equality after case folding; `Naming.CandidatesDistinct` and `TypeNames.AllocationsDistinct` are stated with it |
| `Naming.Taken` | src/DryIoc/ContainerAssemblyGenerator.cs:90 | `module.GetTypes().Any(…)`: some type name of the module equals the name ignoring case; `TypeNames.GetTypeName` returns a name that is not taken, and `Naming.DefineFree` states how defining a name changes what is taken |
| `Naming.DecimalInjective` | src/DryIoc/ContainerAssemblyGenerator.cs:89 | different counters print as different decimal suffixes |
| `Naming.CandidatesDistinct` | src/DryIoc/ContainerAssemblyGenerator.cs:89 | two candidates for one base name that are equal ignoring case come from the same counter |
| `Naming.FreeCandidateExists` | src/DryIoc/ContainerAssemblyGenerator.cs:87-92 | among the first `|names| + 1` candidates one is free, so the allocation loop terminates |
| `Naming.DefineFree` | src/DryIoc/ContainerAssemblyGenerator.cs:68-69 | defining a free name keeps the module's names distinct ignoring case, makes that name taken, and keeps every earlier name taken |
| `TypeNames.ModuleBuilder.constructor` | src/DryIoc/ContainerAssemblyGenerator.cs:38 | a freshly defined module has no types |
| `TypeNames.ModuleBuilder.DefineType` | src/DryIoc/ContainerAssemblyGenerator.cs:69 | defining a type appends exactly its name to the module's type names |
| `TypeNames.GetTypeName` | src/DryIoc/ContainerAssemblyGenerator.cs:82-93 | the returned name is not a type name of the module, ignoring case. It is candidate `i` of the base name, every earlier candidate is taken, and `i` is at most the number of types in the module |
| `TypeNames.GenerateSimpleFactory` | src/DryIoc/ContainerAssemblyGenerator.cs:65-69 | the factory type's name is the first free candidate, and the module grows by exactly that name |
| `TypeNames.AllocationsDistinct` | src/DryIoc/ContainerAssemblyGenerator.cs:87-92 | names that were each free when defined are pairwise distinct ignoring case |
| `RootSelection.GetGeneratedExpressions` | src/DryIoc/ContainerAssemblyGenerator.cs:95-101 | with no selector and no list, expressions are generated for the flagged registrations. Otherwise they are generated for the selector's outputs in registration order, followed by the explicit list |
| `RootSelection.GetAllRegistrationsAsResolutionRoots` | src/DryIoc/ContainerAssemblyGenerator.cs:103-104 | expressions are generated for exactly the flagged registrations, in order |
| `RootSelection.DefaultSelectsFlagged` | src/DryIoc/ContainerAssemblyGenerator.cs:97-104 | the default selector yields exactly the flagged registrations in order, each as its own service info |
| `RootSelection.FlaggedRootsMembership` | src/DryIoc/ContainerAssemblyGenerator.cs:104 | a service info is a default root if and only if some flagged registration maps to it |
| `RootSelection.SelectorOutput` | src/DryIoc/ContainerAssemblyGenerator.cs:100 | `(selectResolutionRoots?.Invoke(r)).EmptyIfNull()`: no selector or a null output gives no roots; `RootSelection.SelectManyMembership` states membership through it |
| `RootSelection.SelectMany` | src/DryIoc/ContainerAssemblyGenerator.cs:100 | `regs.SelectMany(…)`: the outputs registration after registration; `RootSelection.SelectManyAppend` and `RootSelection.SelectManyMembership` state its order and members |
| `RootSelection.SelectRoots` | src/DryIoc/ContainerAssemblyGenerator.cs:99-101 | the roots lambda: selected roots then the explicit list; `RootSelection.SelectRootsMembership` and `RootSelection.ExplicitRootsLast` state its members and its tail |
| `RootSelection.AsResolutionRootSelector` | src/DryIoc/ContainerAssemblyGenerator.cs:104 | the default selector `reg.AsResolutionRoot ? reg.ToServiceInfo().One() : null`; `RootSelection.DefaultSelectsFlagged` states that it yields exactly the flagged registrations |
| `RootSelection.SelectManyAppend` | src/DryIoc/ContainerAssemblyGenerator.cs:100 | selected roots follow registration order: selecting over `a + b` concatenates the results for `a` and `b` |
| `RootSelection.SelectManyMembership` | src/DryIoc/ContainerAssemblyGenerator.cs:100 | a service info is selected if and only if some registration's selector output (null read as empty) holds it |
| `RootSelection.SelectRootsMembership` | src/DryIoc/ContainerAssemblyGenerator.cs:99-101 | with a selector or a list, a service info is a root if and only if a selector output or the explicit list holds it |
| `RootSelection.ExplicitRootsLast` | src/DryIoc/ContainerAssemblyGenerator.cs:101 | the explicit list ends the roots, verbatim |
| `Grouping.GroupBy` | src/DryIoc/ContainerAssemblyGenerator.cs:29-32 | LINQ `GroupBy` by identity; `Grouping.GroupByContains`, `Grouping.GroupByDistinct`, `Grouping.GroupByLookup`, `Grouping.GroupByFlatten` and `Grouping.GroupByOrder` state which groups exist, their contents and their order |
| `Grouping.Flatten` | src/DryIoc/ContainerAssemblyGenerator.cs:43 | `SelectMany(g => g)`: the groups' elements, group after group; `Grouping.GroupByFlatten` states that flattening a grouping gives back the input as a multiset |
| `Grouping.WhereKeyNotIn` | src/DryIoc/ContainerAssemblyGenerator.cs:34 | `Where(g => !dependenciesByType.Contains(g.Key))`; `Grouping.WhereGroupBy` states that it equals grouping the input without those identities |
| `Grouping.GroupByContains` | src/DryIoc/ContainerAssemblyGenerator.cs:31-32 | an identity has a group if and only if some element carries it |
| `Grouping.GroupByDistinct` | src/DryIoc/ContainerAssemblyGenerator.cs:29-30 | no two groups share an identity |
| `Grouping.GroupByLookup` | src/DryIoc/ContainerAssemblyGenerator.cs:29-30 | the group of an identity holds exactly the elements with that identity, in input order |
| `Grouping.GroupByFlatten` | src/DryIoc/ContainerAssemblyGenerator.cs:29-30 | the groups together hold exactly the input elements, each as often as in the input |
| `Grouping.GroupByOrder` | src/DryIoc/ContainerAssemblyGenerator.cs:29-30 | the groups come in the order of their identities' first appearance in the input: an earlier group's identity first occurs before a later group's |
| `Grouping.AddToGroupsShape` | src/DryIoc/ContainerAssemblyGenerator.cs:29-30 | an element with an identity already grouped keeps every group's identity in place; one with a new identity opens a group at the end |
| `Grouping.FirstIndexPresent` | src/DryIoc/ContainerAssemblyGenerator.cs:29-32 | an identity has a group if and only if it has a first occurrence in the input |
| `Grouping.WhereGroupBy` | src/DryIoc/ContainerAssemblyGenerator.cs:34 | dropping groups by identity equals grouping the input without those identities |
| `Grouping.SimpleFactories` | src/DryIoc/ContainerAssemblyGenerator.cs:29-43 | the root entries iterated at line 43; `Grouping.SimpleFactoriesExact`, `Grouping.SimpleFactoriesMembership`, `Grouping.WhereGroupBy` and `Grouping.GroupByOrder` state which entries they are, how often, and in what order |
| `Grouping.SimpleFactoriesExact` | src/DryIoc/ContainerAssemblyGenerator.cs:29-43 | each root entry is a simple factory as often as it is a root when no dependency has its identity, and never otherwise |
| `Grouping.SimpleFactoriesMembership` | src/DryIoc/ContainerAssemblyGenerator.cs:34 | a root entry is a simple factory if and only if it is a root and no dependency occurrence has its identity |
| `DelegateLookup.Matches` | src/DryIoc/ContainerAssemblyGenerator.cs:141 | `request.RequiredServiceType == t.Item1 && request.Parent.Equals(t.Item2)`; `DelegateLookup.GeneratedFactory.GetDelegateOrDefault` returns the first entry for which it holds, and `DelegateLookup.NullParentNeverMatches` states that a null parent never fits |
| `DelegateLookup.GeneratedFactory.GetDelegateOrDefault` | src/DryIoc/ContainerAssemblyGenerator.cs:140-141 | the result is null if and only if no entry fits. Otherwise it is the delegate of the first entry whose required service type and parent equal the request's |
| `DelegateLookup.NullParentNeverMatches` | src/DryIoc/ContainerAssemblyGenerator.cs:141 | an entry whose parent request is null fits no request, since `Request.Equals(null)` is false |
| `DelegateLookup.GetDelegateOrDefaultAppend` | src/DryIoc/ContainerAssemblyGenerator.cs:140-141 | entries later in the list are consulted only when no earlier entry fits |
| `Generator.EntryBlock` | src/DryIoc/ContainerAssemblyGenerator.cs:52-55 | the block declares the container variable. It first assigns a new container to it, then holds the registration lines in order, and ends with the variable |
| `Generator.EntryBlockReturnsNewContainer` | src/DryIoc/ContainerAssemblyGenerator.cs:52-56 | if no registration line assigns the variable, evaluating the block yields the container it created |
| `Generator.FactoryTypesDistinct` | src/DryIoc/ContainerAssemblyGenerator.cs:43-46 | the factory type names, each allocated by the first-free rule against the names before it, are pairwise distinct ignoring case |
| `Generator.GenerateContainerAssembly` | src/DryIoc/ContainerAssemblyGenerator.cs:23-56 | the call throws at `Expression.Lambda<Container>`. By then the module holds one factory type per simple factory, in order. Each is named by the first-free rule against the names before it, and these names are pairwise distinct ignoring case. Then comes `ContainerGenerator`, and the entry block has no registration lines |

## Left out

- Reflection.Emit and expression compilation are not modelled: `DefineDynamicAssembly`, `DefineMethod`, `CompileToMethod` and `CreateDelegate`. The runtime's own check for duplicate type names inside `DefineType` is left out as well. `DefineType` is only "add the name to the module".
- The namespace split that Reflection.Emit applies to a type name containing `.` is not modelled. A key text may contain dots, and the model compares whole names.
- `GenerateSimpleFactory` also receives the container variable and the registration lines but uses neither, so the model's version takes only the service info and the module.
- The end-to-end behaviour of a container built from the emitted assembly is not modelled (resolving services from it).
- `GeneratedFactoryBase` overrides, `ContainerGenerator.GetContainer` and the `ContainerAssembly` holder are not modelled. They throw, return constants, or only store values.
- `Generator.GenerateContainerAssembly`: the steps after the throw at line 56 are unreachable and not modelled. These are `CompileToMethod`, `CreateDelegate` (which would throw `NotSupportedException` on a `MethodBuilder` in any case) and the construction of the returned `ContainerAssembly`. The result records the exception, the module's type names and the entry block.
- The resolution engine behind `GenerateResolutionExpressions` is a function parameter. `Request.Equals` and the `KV` identity pair are structural equality on values.
- `ServiceKey.ToString()` is the key's stored optional text.
- `InvariantCultureIgnoreCase` is modelled as ASCII case folding, because culture-aware comparison of other letters cannot be reproduced.
- `TypeNames.GetTypeName`: the counter is an unbounded natural, not a 32-bit `int`. The proved bound (at most the module's type count) keeps it within range for any module with fewer than 2^31 - 1 types.
- `DelegateLookup.GeneratedFactory.GetDelegateOrDefault`: `FactoryDelegates` is a get-only auto-property that nothing assigns. It is therefore always null, and the C# call throws `ArgumentNullException` from `FirstOrDefault`. Also, the emitted factory types derive from `GeneratedFactoryBase`, not from `GeneratedFactory`. The model describes the scan over the entry list the property would hold. An entry whose parent request is null is kept apart from `Request.Empty` (`NullParent`), and it never fits.
- `DelegateLookup.GeneratedFactory.GetDelegateOrDefault`: a matching entry whose delegate is null and the absence of any match are distinct results in the model (`Some` of the stored value versus `None`). The C# code returns null for both.
