# protestr in Dafny

A Dafny model of protestr, a Python library for generating test fixtures. The
model covers three parts:

- **`resolve`** turns a *spec* into a concrete value:
  - the type markers `int`, `float`, `complex`, `bool` and `str` become bounded random values;
  - tuples, lists, sets and dicts are rebuilt element by element;
  - callables are called and their result is resolved again, except that a combinator's result is returned as drawn: it is already resolved, and resolving it again gives it back unchanged (`WellFormedness.ResolveAgain`);
  - anything else is returned as it is.
- **The combinators** `between`, `choice`, `sample` and `choices` are deferred specs. Running one resolves its argument specs and then draws from the results. `_unpack` picks the population spec and `_cast` gives the result the population's kind.
- **`provide(**specs)`** is a decorator. It merges its specs with the call's keyword arguments, resolves every entry, and calls the wrapped function. In a `finally` block it tears every resolved value down with `_teardown`, collects the teardown failures, and raises them together.

The project also models the two fake user databases the test suites use
(`UsersDB.insert` and `UsersDB.__teardown__`).

Modules:

| module | file | covers |
|---|---|---|
| `Values` | values.dfy | Python values, exceptions, `Result`/`Option`, set and dict operations |
| `Rand` | rand.dfy | the random source as an explicit oracle, plus `randint`, `random`, `uniform` |
| `CharClasses` | charclasses.dfy | `string.digits`, `ascii_lowercase`, `ascii_uppercase`, `ascii_letters` |
| `Specs` | specs.dfy | the `Spec` datatype, `_unpack`, `_cast`, and the draw step of each combinator |
| `Resolver` | resolver.dfy | `resolve`, plus the resolve step of each combinator (they call each other) |
| `ResolverFacts` | resolver_facts.dfy | properties that relate several resolutions |
| `WellFormedness` | wellformed.dfy | resolution yields values Python can hold: set members and dict keys distinct and hashable |
| `Provider` | provider.dfy | `provide` and `_teardown` |
| `Users` | users.dfy | what the two fakes share: `User`, `UsersDB`, character rules, `int(getenv(...))` |
| `ExampleFakes` | example_fakes.dfy | the fake of `tests/example` (minimum and maximum length) |
| `ExamplesFakes` | examples_fakes.dfy | the fake of `tests/examples` (minimum length only) |

How the model represents Python:

- **Randomness.** Every random draw comes from an oracle `nat -> nat`. A state counts the draws used so far and hands out fresh object identities. Each function promises only what Python's `random` promises: `randint(a, b)` lies in `[a, b]` and `uniform(a, b)` lies between `a` and `b`.
- **Exceptions.** A Python exception is an `Err` carrying an `Error` value.
- **Sets** are duplicate-free sequences in first-insertion order.
- **Dicts** are sequences of pairs with distinct keys. Assigning to an existing key keeps its position.
- **Callable specs.** The only callables modelled are these:
  - `Thunk` returns a further spec;
  - `Failing` raises;
  - `New` calls a class;
  - the four combinators.

## Model

| member | source | states |
|---|---|---|
| `Rand.RandInt` | src/protestr/_specs.py:16 | `randint(lo, hi)` lies in `[lo, hi]` and uses one draw |
| `Rand.Uniform` | src/protestr/_specs.py:18 | `uniform(a, b)` lies between `min(a, b)` and `max(a, b)`, whichever order the bounds are in |
| `Rand.RandomIndex` | src/protestr/_specs.py:47-50 | the index `random.choices` draws is below the population size, and 0 for an empty population |
| `Rand.RandIntCovers` | src/protestr/_resolver.py:7 | every integer in range is `randint`'s result for some oracle, so the bounds above are not vacuous |
| `CharClasses.LettersAreLetters` | src/protestr/_resolver.py:19 | every character of `ascii_letters` is an ASCII letter |
| `Values.Len` | src/protestr/_specs.py:34 | `len(v)` succeeds exactly for strings, tuples, lists, sets and dicts |
| `Values.SetAdd` | src/protestr/_resolver.py:28 | adding to a set keeps it duplicate-free; the new member is present; an existing member leaves the set as it was |
| `Values.DictPut` | src/protestr/_resolver.py:31 | `d[k] = v` keeps keys distinct; an existing key keeps its place; a new key is appended |
| `Values.LookupPut` | src/protestr/_provider.py:8 | after `d[k] = v`, `k` maps to `v` and every other key maps to what it did before |
| `Specs.Unpack` | src/protestr/_specs.py:61-63 | one argument is the population spec itself; several form a tuple spec; none raises `IndexError` |
| `Specs.DrawBetween` | src/protestr/_specs.py:13-18 | succeeds exactly when both bounds are numbers; the result lies between the bounds in either order; it is an int exactly when both bounds are ints |
| `Specs.Subscript` | src/protestr/_specs.py:47-50 | `population[i]` indexes a sequence within its length; on a dict it succeeds exactly when the int key `i` is present and then returns that key's value (otherwise `KeyError`); anything else raises |
| `Specs.DrawChoice` | src/protestr/_specs.py:24 | `random.choice` returns a member of the population; a sequence succeeds exactly when it is non-empty; a set or an object without a length raises |
| `Specs.RemoveAt` | src/protestr/_specs.py:32-35 | removing one position loses exactly that element from the multiset, and keeps distinctness |
| `Specs.PickDistinct` | src/protestr/_specs.py:32-35 | `k` draws at distinct positions: a sub-multiset of the pool, duplicate-free when the pool is |
| `Specs.SampleSize` | src/protestr/_specs.py:34 | the `k` of `random.sample` is accepted exactly when it is an int in `[0, len(population)]` |
| `Specs.DrawSample` | src/protestr/_specs.py:31-35 | `random.sample` accepts only sequences and a `k` in range; it returns exactly `k` elements, a sub-multiset of the population |
| `Specs.DrawMany` | src/protestr/_specs.py:47-50 | `count` draws with replacement, each a member of the population; an empty sequence population fails unless `count` is 0 |
| `Specs.DrawChoices` | src/protestr/_specs.py:47-50 | `random.choices` returns `max(k, 0)` members of the population; a non-int `k` raises |
| `Specs.Join` | src/protestr/_specs.py:58 | `"".join` succeeds exactly on strings; on one-character strings it gives one character per item, in order |
| `Specs.Cast` | src/protestr/_specs.py:57-59 | a string population gives the joined string, a tuple population a tuple of the draws, anything else the list of draws |
| `Specs.DrawnFromString` | src/protestr/_specs.py:58 | members drawn from a string are one-character strings of it |
| `Resolver.DrawString` | src/protestr/_resolver.py:19 | `n` characters drawn from a non-empty pool, all from the pool |
| `Resolver.GenerateStr` | src/protestr/_resolver.py:18-19 | the `str` marker gives 1 to 50 ASCII letters |
| `Resolver.Generate` | src/protestr/_resolver.py:6-19 | each marker gives a value of its domain: int in `[0, 1000]`, float in `[0, 1000]`, complex with both parts in `[-1000, 1000]`, a bool, a letter string |
| `Resolver.Resolve` | src/protestr/_resolver.py:5-36 | markers are generated, never called; tuples and lists keep kind and length; sets and dicts keep kind, have at most one member or entry per item, and stay duplicate-free; a raising callable raises |
| `Resolver.ResolveSeq` | src/protestr/_resolver.py:21-25 | a tuple or list resolves to one value per item |
| `Resolver.ResolveSet` | src/protestr/_resolver.py:27-28 | set members are distinct and hashable, and no larger than the items; the raising case is `ResolverFacts.ResolveSetUnhashable` |
| `Resolver.ResolveDict` | src/protestr/_resolver.py:30-31 | resolved keys are distinct; the dict has at most one entry per spec entry; the raising case is `ResolverFacts.ResolveDictUnhashable` |
| `Resolver.RunBetween` | src/protestr/_specs.py:12-18 | a `between` run gives an int or a real |
| `Resolver.ResolvePopulation` | src/protestr/_specs.py:29 | the population is `resolve(_unpack(elems))`: the one argument, or the tuple of all of them; no argument raises `IndexError` |
| `Resolver.ResolveCount` | src/protestr/_specs.py:34 | a truthy `k` spec is resolved; a falsy one means `len(population)`, drawing nothing and raising only when the population has no length |
| `Resolver.RunChoice` | src/protestr/_specs.py:23-24 | `choice()` with no argument raises |
| `Resolver.RunSampled` | src/protestr/_specs.py:28-37 | a `sample` or `choices` run with no argument raises; a result is a string, tuple or list |
| `Resolver.DrawAndCast` | src/protestr/_specs.py:31-37 | the cast draws are a string, tuple or list |
| `ResolverFacts.ResolveQuote` | src/protestr/_resolver.py:21-36 | resolving a value (no markers, no callables) returns that value and uses no randomness |
| `ResolverFacts.ResolveQuoteSeq` | src/protestr/_resolver.py:21-25 | rebuilding a tuple or list of values gives the same values |
| `ResolverFacts.ResolveQuoteSet` | src/protestr/_resolver.py:27-28 | rebuilding a set of values gives the same set |
| `ResolverFacts.ResolveQuoteDict` | src/protestr/_resolver.py:30-31 | rebuilding a dict of values gives the same dict |
| `ResolverFacts.ResolveChain` | src/protestr/_resolver.py:33-34 | any finite chain of callables, each returning the next, resolves exactly as its innermost spec does |
| `ResolverFacts.ResolveSeqAppend` | src/protestr/_resolver.py:21-25 | resolving `a + b` resolves `a`, then `b` from the state `a` left |
| `ResolverFacts.ResolveSeqElement` | src/protestr/_resolver.py:21-25 | element `i` of a resolved tuple or list is the resolution of item `i`, made after items `0..i-1` |
| `ResolverFacts.ResolveSetContents` | src/protestr/_resolver.py:27-28 | a set spec resolves to exactly its resolved items, duplicates collapsed in first-occurrence order |
| `ResolverFacts.ResolveSetUnhashable` | src/protestr/_resolver.py:27-28 | the first item that resolves to an unhashable value (a list, set, dict, or a tuple holding one) makes the set raise `TypeError`, whatever the later items are |
| `ResolverFacts.ResolveDictContents` | src/protestr/_resolver.py:30-31 | when every key and value resolves, key before value and entry by entry as a tuple of them would, and every key is hashable, the dict is exactly those pairs stored one after another with `d[k] = v` |
| `ResolverFacts.ResolveDictUnhashable` | src/protestr/_resolver.py:30-31 | the first entry whose key resolves to an unhashable value makes the dict raise `TypeError` after its value is resolved, whatever the later entries are |
| `ResolverFacts.ResolveDictValue` | src/protestr/_resolver.py:30-31 | the same for the dict spec itself: it resolves to the pairs stored in spec order, leaving the state the keys and values left |
| `ResolverFacts.PutAllLookup` | src/protestr/_resolver.py:31 | after storing pairs in order, a key that some pair has maps to the value of its last such pair; any other key maps to what it did before |
| `ResolverFacts.PutAllFresh` | src/protestr/_resolver.py:31 | stored into an empty dict, the pairs map exactly their keys, each to its last value |
| `ResolverFacts.LastValueAt` | src/protestr/_resolver.py:31 | the value a key ends up with is the one from the pair no later pair overrides |
| `ResolverFacts.DictOfStr` | tests/test_resolver.py:53-56 | `resolve(dict(key=str))` is a one-entry dict whose key `"key"` maps to a string |
| `ResolverFacts.BetweenContract` | src/protestr/_specs.py:11-18 | `between(x, y)` resolves `x`, then `y`, once each; an error in either is the result; the value lies between the resolved bounds and is an int exactly when both are ints |
| `ResolverFacts.ChoiceContract` | src/protestr/_specs.py:23-24 | `choice` resolves its population once and returns one of its members; an empty sequence raises |
| `ResolverFacts.CastKeepsDraws` | src/protestr/_specs.py:57-59 | for draws from a sequence, `_cast` keeps the population's kind and loses nothing |
| `ResolverFacts.SampleDraws` | src/protestr/_specs.py:31-37 | after population and count: exactly `k` draws, a sub-multiset of the population, in its kind; succeeds exactly for a sequence and an int `k` in range |
| `ResolverFacts.ChoicesDraws` | src/protestr/_specs.py:46-52 | after population and count: `max(k, 0)` members of the population, in its kind; for a string, tuple or list population, succeeds exactly for an int `k` and a non-empty population (or `k <= 0`); dict and set populations: `Specs.DrawChoices` |
| `ResolverFacts.SampledSteps` | src/protestr/_specs.py:28-37 | `sample` and `choices` resolve the population first and the count second, once each, and draw only when both succeeded |
| `WellFormedness.ResolveWellFormed` | src/protestr/_resolver.py:5-36 | a spec whose literals are well formed resolves to a well-formed value: set members and dict keys distinct and hashable, at every depth |
| `WellFormedness.SeqWellFormed` | src/protestr/_resolver.py:21-25 | the items of a resolved tuple or list are well formed |
| `WellFormedness.SetWellFormed` | src/protestr/_resolver.py:27-28 | a resolved set's members are distinct, hashable and well formed |
| `WellFormedness.DictWellFormed` | src/protestr/_resolver.py:30-31 | a resolved dict's keys are distinct, hashable and well formed, and so are its values |
| `WellFormedness.SetAddWellFormed` | src/protestr/_resolver.py:28 | adding a well-formed hashable member keeps a set well formed |
| `WellFormedness.DictPutWellFormed` | src/protestr/_resolver.py:31 | `d[k] = v` with a hashable well-formed key and a well-formed value keeps a dict well formed |
| `WellFormedness.DrawnWellFormed` | src/protestr/_specs.py:24 | a member drawn from a well-formed population is well formed |
| `WellFormedness.DrawsWellFormed` | src/protestr/_specs.py:57-59 | draws from a well-formed population, and any tuple or list of them, are well formed |
| `WellFormedness.SampledFromItems` | src/protestr/_specs.py:32-33 | a sub-multiset of a sequence's items holds only its members |
| `WellFormedness.DrawAndCastWellFormed` | src/protestr/_specs.py:31-37 | the cast result of `sample` or `choices` from a well-formed population is well formed |
| `WellFormedness.PopulationWellFormed` | src/protestr/_specs.py:29 | a resolved population is well formed |
| `WellFormedness.ChoiceWellFormed` | src/protestr/_specs.py:23-24 | a `choice` run gives a well-formed value |
| `WellFormedness.SampledWellFormed` | src/protestr/_specs.py:28-37 | a `sample` or `choices` run gives a well-formed value |
| `WellFormedness.ResolveAgain` | src/protestr/_resolver.py:33-34 | what a spec resolves to, resolved a second time as `resolve(spec())` does with a callable's result, comes back unchanged and draws nothing |
| `Provider.NewKeys` | src/protestr/_provider.py:8 | the keyword names the specs do not have |
| `Provider.Merge` | src/protestr/_provider.py:8 | `specs \| kwds` has distinct keys |
| `Provider.MergeKeys` | src/protestr/_provider.py:8 | merged keys are the spec keys in order, followed by the new keyword names in order |
| `Provider.MergeLookup` | src/protestr/_provider.py:8 | a keyword argument overrides the spec of the same name; every other spec is kept |
| `Provider.ResolveEntries` | src/protestr/_provider.py:7-9 | the resolved dict has the merged keys, in order |
| `Provider.ResolveEntriesValues` | src/protestr/_provider.py:7-9 | the entries are resolved once each, in key order, like a tuple of their specs; the first error is the result |
| `Provider.Attempt` | src/protestr/_provider.py:36-39 | a value with `__teardown__` is attempted once; a raising one adds exactly its exception; any other value leaves the log as it was |
| `Provider.Teardown` | src/protestr/_provider.py:26-39 | `_teardown` attempts exactly the reachable tearables, members before their container, left to right; it collects one failure per raising one, in attempt order; a failure does not stop the walk |
| `Provider.TearablesReach` | src/protestr/_provider.py:29-37 | a tearable is attempted exactly when it is a resolved value or sits inside a tuple, list or set of one |
| `Provider.DictsNotVisited` | src/protestr/_provider.py:29-34 | nothing inside a dict is torn down |
| `Provider.Finish` | src/protestr/_provider.py:11-19 | every resolved value is torn down; the function's outcome stands unless a teardown failed, in which case one exception carrying all failures replaces it |
| `Provider.Provide` | src/protestr/_provider.py:3-19 | the function is called exactly when every merged entry resolved, with the positional args unchanged and exactly the resolved merged dict as keyword arguments; a resolution error propagates without a call or teardown; teardown follows every call whether it returned or raised |
| `Provider.ProvideCalls` | src/protestr/_provider.py:6-19 | once every merged entry has resolved, `provide` is the call with the resolved dict followed by the teardown of what was resolved |
| `Provider.ProvideAsWritten` | src/protestr/_provider.py:6-17 | as written, a resolution error surfaces as `UnboundLocalError` from the `finally` block, with no call and nothing torn down |
| `Provider.ResolutionErrorMasked` | src/protestr/_provider.py:6-14 | the spec `x` that raises `boom`: the corrected decorator raises `boom`, the one as written raises `UnboundLocalError` |
| `Provider.ResolutionErrorAlwaysMasked` | src/protestr/_provider.py:6-14 | whenever a spec raises, the decorator as written reports something other than the spec's exception |
| `Provider.FailingTeardowns` | src/protestr/_provider.py:6-19 | two raising tearables and a passing one, one passed as an overriding keyword: all three are torn down in key order and both failures are raised together |
| `Provider.TearableInList` | src/protestr/_provider.py:29-37 | a tearable created inside a list spec is torn down after the call |
| `Users.Teardown` | tests/example/fakes.py:44-45 | `__teardown__` leaves no users |
| `Users.DirectionsAgree` | tests/examples/fakes.py:31-38 | "no alphabet character is in the password" and "no password character is in the alphabet" agree |
| `Users.ClassScans` | tests/examples/fakes.py:31-38 | scanning for `digits`, `ascii_uppercase` or `ascii_lowercase` decides whether the password has a digit, an upper-case or a lower-case letter |
| `Users.ParseInt` | tests/example/fakes.py:24-25 | `int(s)` accepts exactly an optional sign followed by decimal digits |
| `Users.ShowNat` | tests/example/fakes.py:30 | a number is written as a non-empty string of decimal digits |
| `Users.ParseShow` | tests/example/fakes.py:24 | reading back a written integer gives the integer |
| `Users.ToInt` | tests/examples/fakes.py:24 | `int(x)` keeps ints and bools, truncates a float toward zero, parses strings, and raises `TypeError` for an unset variable |
| `Users.Setting` | tests/examples/fakes.py:24 | an unset variable fails; a text value is parsed |
| `Users.SettingShown` | tests/example/fakes.py:24 | a variable holding a written integer reads as that integer |
| `ExampleFakes.CheckPassword` | tests/example/fakes.py:27-40 | the password passes exactly when its length is in `[min, max]` and it has a digit, an upper-case and a lower-case letter; otherwise the first failing check, in source order, is the refusal |
| `ExampleFakes.Insert` | tests/example/fakes.py:18-42 | a taken username is refused before the environment is read; otherwise MIN then MAX is read; success appends exactly the user; any refusal leaves the database as it was |
| `ExampleFakes.InsertKeepsValid` | tests/example/fakes.py:19-42 | unique usernames and policy-conforming passwords survive `insert` |
| `ExampleFakes.TeardownThenInsert` | tests/example/fakes.py:42-45 | after `__teardown__` the database is valid and an acceptable user is its only member after insertion |
| `ExampleFakes.ShortPasswordRefused` | tests/example/fakes.py:24-31 | with settings 8 and 15, a 7-character password is refused naming both bounds, after reading both settings |
| `ExamplesFakes.CheckPassword` | tests/examples/fakes.py:26-38 | the password passes exactly when it has at least `min` characters, a digit, an upper-case and a lower-case letter; otherwise the first failing check is the refusal |
| `ExamplesFakes.Insert` | tests/examples/fakes.py:18-40 | a taken username is refused before the environment is read; otherwise only MIN is read; success appends exactly the user; any refusal leaves the database as it was |
| `ExamplesFakes.InsertKeepsValid` | tests/examples/fakes.py:19-40 | unique usernames and policy-conforming passwords survive `insert` |
| `ExamplesFakes.FakesAgree` | tests/examples/fakes.py:24-40 | when the password fits under the other fake's maximum, both fakes accept the same users and refuse for the same character rule |
| `ExamplesFakes.ShortPasswordRefused` | tests/examples/fakes.py:24-29 | with the setting 8, a 7-character password is refused after reading only that setting |

## Left out

- Distribution: the oracle promises ranges only. Uniformity and float rounding are not modelled. `uniform` returns an exact `real`.
- Equality across Python number types (`1 == 1.0 == True`) is not modelled. Set members and dict keys are compared as model values.
- Hash order of Python sets is not modelled. A set keeps first-insertion order. `random.choice` on a set raises `TypeError` because a set cannot be indexed, as in Python; its order plays no part in that.
- Arbitrary user callables are not modelled. The callables are the combinators, `Thunk`, `Failing` and class constructors (`New`). A class spec's constructor takes no arguments and cannot fail.
- Combinators that appear only in tests without an implementation are not modelled (`merged`, `recipe`, `either`, `subset`, `sequence`, `single`, `combination`, `permutation`).
- `random.sample` follows Python 3.11 and later: a set or dict population raises `TypeError`.
- Exception messages are kept only as short labels. Their exact text is not modelled.
- Positional specs, parameter-name filtering and layered re-invocation are left out: `provide` as written is keyword-only and has none of them.
- A stacked `provide` is not modelled as such. An outer wrapper's resolved values reach the inner one as keyword specs, and `ResolverFacts.ResolveQuote` shows that re-resolving a value returns it unchanged. They are then among the inner wrapper's resolved values, so the inner `finally` (src/protestr/_provider.py:11-14) tears them down, and the outer `finally` tears them down again. An outer tearable therefore gets one `__teardown__` call per enclosing layer, not one in total. The model covers a single layer only, where each reachable tearable is attempted once (`Provider.Teardown`).
- The wrapped function is a pure parameter from arguments to an outcome. Its side effects on the objects it receives are not modelled.
- Partially resolved values are not torn down when a later spec raises, neither as written nor in the corrected model. The source never binds them.
- `os.getenv` becomes a map from names to values. An int, bool, float or text value reads as an integer (a bool as 0 or 1, a float truncated toward zero, as `int()` does); `int()`'s whitespace, underscores and non-ASCII digits are not modelled.
- `unittest.mock` plumbing, the example projects under `examples/` (MongoDB, Redis) and `tests/example/specs.py` are not modelled.
- Resolver.Resolve: a combinator's result is returned as drawn, without the second `resolve` that `resolve(spec())` (src/protestr/_resolver.py:33-34) applies to it. `WellFormedness.ResolveAgain` proves that second pass returns the value unchanged and draws nothing whenever the spec's literals are well formed. The dict clauses of its contract bound the size only; the contents are `ResolverFacts.ResolveDictValue`.
- Resolver.ResolveSet: its contract speaks of a successful result only; `ResolverFacts.ResolveSetContents` states the contents and `ResolverFacts.ResolveSetUnhashable` the `TypeError`.
- Resolver.ResolveDict: its contract gives distinct keys and a size bound only; `ResolverFacts.ResolveDictContents` states the exact contents and `ResolverFacts.ResolveDictUnhashable` the `TypeError` for an unhashable key.
- ResolverFacts.ResolveChain: a `Thunk` chain is a finite value, so a callable that returns itself, or a chain deeper than Python's recursion limit, cannot be written. The source has no depth guard at src/protestr/_resolver.py:33-34, so Python raises `RecursionError` for both; the model has no such error.
- ResolverFacts.SampleDraws: states what `sample` returns once its population and count are resolved. It does not state this about `resolve(sample(...))` in one lemma; `ResolverFacts.SampledSteps` supplies the link from the resolved population and count to the draw.
- ResolverFacts.ChoicesDraws: states what `choices` returns once its population and count are resolved. It does not state this about `resolve(choices(...))` in one lemma; `ResolverFacts.SampledSteps` supplies the link.
- The `User` and `UsersDB` identity and aliasing of the Python objects are not modelled: a database is a value.

## Findings

| source | as written | input that shows it | evidently intended | confidence | as-written member | corrected member |
|---|---|---|---|---|---|---|
| src/protestr/_provider.py:6-17 | the `finally` block reads `resolved_specs`, which is never bound when a `resolve` call inside the comprehension raises, so `UnboundLocalError` replaces the spec's exception | `provide(x=f)` where calling `f` raises `boom` (`Provider.ResolutionErrorMasked`) | the spec's own exception propagates; the function is not called and nothing is torn down | high, not executed | `Provider.ProvideAsWritten` | `Provider.Provide` |

Three behaviours of the source worth noting:

- `_teardown` does not visit dict values.
- An aggregate teardown failure also replaces an exception raised by the wrapped function.
- `provide` neither layers nor filters.
