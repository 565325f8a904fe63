# firebase-compat shared utilities, in Dafny

The firebase-compat library puts three client SDKs of the same cloud platform
(the modular SDK, the legacy "compat" SDK and the React-Native SDK) behind one
set of Auth, Firestore and Storage contracts. Almost every adapter method
forwards to the SDK. The logic the library owns is in its shared utilities
module `src/utils.ts`, and that module is what this project models:

- **`joinPath(path, ...segments)`** (`paths.dfy`, module `Paths`). The compat and
  React-Native Firestore adapters use it to build document and collection
  paths (the modular adapter hands the segments to its SDK instead). The model keeps the
  source's own pipeline: a left fold that glues each segment on with `/` and
  collapses slash runs (`Reduce`, `Step`), one more collapse, and removal of one
  trailing slash. The two regular expressions are the functions `Collapse` and
  `StripTrailingSlash`. Beside the pipeline sits a reference definition that
  uses no collapsing: `ExpectedJoin`, the non-empty `/`-separated
  `Components` of the base path and of every segment, glued with single
  slashes. `JoinPathCharacterised` proves the two equal for all inputs.
- **`wrapNextOrObserver(current, wrapper)`** (`observers.dfy`, module
  `Observers`). The modular Auth adapter uses it to turn SDK users into wrapped
  users inside `onAuthStateChanged` listeners. A listener is the datatype
  `NextOrObserver`: a bare callback `Fn`, or an observer record `Obs` with
  `next`, `error` and `complete`. A callback is modelled by what it does with
  the value it is handed: a total function into an arbitrary effect type `E`.
  So "the inner callback is invoked with x" becomes "the wrapped listener has
  the effect of the inner callback applied to x" (`Deliver`). `null` and
  `undefined` are both `None`. JavaScript truthiness of a non-null value is a
  parameter, and `JsValue`/`Truthy` give a concrete instance.
- **`sanitiseObject(data, f)`** (`sanitise.dfy`, module `Sanitise`). The three
  Firestore document-data classes use it to turn SDK `Timestamp` values into
  `Date`s. JavaScript objects are references, so a dictionary is a class
  `Dictionary` with a `map` field. `SanitiseObject` allocates a fresh one and
  fills it in a loop over the keys not yet copied, as the source's
  `for … of Object.entries(data)` loop does. `Sanitised` is the map it
  promises to build.

Two behaviours of the source are stated as lemmas because a caller could be
surprised by them:

- `joinPath("", "a")` is `"/a"`. An empty base path gains the leading slash
  of the first glue (`JoinPathExampleEmptyBase`, `JoinPathRooted`).
- The two forms of `wrapNextOrObserver` treat falsy values differently. The
  function form tests `== null`, so `false`, `0` and `""` are wrapped. The
  observer form tests truthiness, so they reach `next` as `null`
  (`FalsyAsymmetry`). The adapters only ever pass SDK users, which are
  objects and therefore truthy.

## Model

| member | source | states |
|---|---|---|
| `Paths.Collapse` | src/utils.ts:13 | collapsing slash runs keeps the string empty or non-empty, and keeps its first character |
| `Paths.CollapseNoDoubleSlash` | src/utils.ts:13 | after every run of two or more slashes is replaced by one slash, no two adjacent slashes remain |
| `Paths.NoDoubleSlashAt` | src/utils.ts:13-15 | "no `//`" holds exactly when no position `i` has `/` at both `i` and `i+1` |
| `Paths.CollapseNormalised` | src/utils.ts:15 | a string without `//` is left as it is by the collapse |
| `Paths.CollapseIdempotent` | src/utils.ts:13-15 | collapsing twice gives the same string as collapsing once |
| `Paths.CollapsePrefix` | src/utils.ts:11-15 | collapsing a prefix before collapsing the whole string changes nothing |
| `Paths.StripTrailingSlash` | src/utils.ts:16 | on a string without `//`, removing one trailing slash leaves no `//` and no trailing `/`, and a non-empty result keeps the first character |
| `Paths.JoinPath` | src/utils.ts:10-17 | the joined path never contains `//` and never ends with `/` |
| `Paths.ComponentsGlue` | src/utils.ts:13 | gluing two strings with `/` concatenates their lists of non-empty components |
| `Paths.ComponentsCollapse` | src/utils.ts:13 | collapsing slash runs keeps the list of components |
| `Paths.ComponentsStrip` | src/utils.ts:16 | removing a trailing slash keeps the list of components |
| `Paths.ComponentsReduce` | src/utils.ts:11-14 | the fold's components are those of the start value and then of every segment, in order |
| `Paths.ReduceFirst` | src/utils.ts:11-14 | with at least one segment the fold is non-empty; it starts with the base path's first character, or with `/` when the base path is empty |
| `Paths.ReduceCollapse` | src/utils.ts:11-15 | collapsing after every fold step and then once more equals one collapse of the raw `/`-joined string |
| `Paths.JoinPathCollapseOnce` | src/utils.ts:11-16 | `joinPath` equals one collapse of the whole `/`-joined string followed by removal of one trailing slash |
| `Paths.JoinPathComponents` | src/utils.ts:10-17 | the result's non-empty components are those of the base path and then of each segment, in the same order |
| `Paths.Reconstruct` | src/utils.ts:15-16 | a string with no `//` and no trailing `/` is its components joined by `/`, after a leading `/` when it has one |
| `Paths.JoinPathCharacterised` | src/utils.ts:10-17 | `joinPath` equals `ExpectedJoin`: `""` when there are no components, otherwise the components joined by single slashes, after a leading `/` exactly when the join is rooted |
| `Paths.JoinPathRooted` | src/utils.ts:12-13 | the result starts with `/` exactly when the base path does, or the base path is empty and a segment follows, and there is at least one component |
| `Paths.JoinPathExampleDoc` | src/utils.ts:5 | `joinPath("a", "b", "c")` is `"a/b/c"` |
| `Paths.JoinPathExampleSlashes` | src/utils.test.ts:8-9 | `joinPath("a/", "/b/", "/c/")` is `"a/b/c"` |
| `Paths.JoinPathExampleSingle` | src/utils.test.ts:11-15 | `joinPath("a")` is `"a"`, and `joinPath("")` and `joinPath("/")` are both `""` |
| `Paths.JoinPathExampleEmptyBase` | src/utils.ts:12-13 | `joinPath("", "a")` is `"/a"` |
| `Observers.MapOption` | src/utils.ts:24-25 | the function form hands on `null` exactly when it receives `null` |
| `Observers.MapTruthy` | src/utils.ts:28-29 | the observer form hands on a value exactly when it receives a truthy one |
| `Observers.Wrap` | src/utils.ts:19-34 | the wrapped listener has the same form as `current`, and an observer's `error` and `complete` are the original ones |
| `Observers.WrapFnDelivers` | src/utils.ts:23-26 | function form: `null` reaches the callback as `null` without `wrapper` being applied; any other `u` reaches it as `wrapper(u)` |
| `Observers.WrapObsDelivers` | src/utils.ts:27-30 | observer form: `next` receives `wrapper(u)` for a truthy `u` and `null` for `null` and for every falsy value |
| `Observers.WrapIdentity` | src/utils.ts:23-33 | wrapping with the identity changes nothing in the function form; in the observer form it changes nothing for `null` and truthy values |
| `Observers.WrapCompose` | src/utils.ts:19-34 | wrapping twice equals wrapping once with the composed wrapper, in the observer form provided the outer wrapper yields only truthy values |
| `Observers.FalsyAsymmetry` | src/utils.ts:25-29 | for a falsy non-null value (`false`, `0` or `""`) the function form delivers `wrapper(v)` while the observer form delivers `null` |
| `Observers.WrapUpperExample` | src/utils.test.ts:32-66 | with ASCII upper-casing (`AsciiUpper`, which agrees with `toUpperCase` on `"hello"`) as wrapper, both forms deliver `"HELLO"` for `"hello"` and `null` for `null` |
| `Sanitise.Dictionary.constructor` | src/utils.ts:40 | the object literal `{}` has no fields |
| `Sanitise.SanitiseObject` | src/utils.ts:36-46 | returns a freshly allocated dictionary with the same keys as `data` and `f(field, data[field])` at every key; `data` is unchanged |
| `Sanitise.SanitisedFields` | src/utils.ts:40-45 | the sanitised dictionary has the input's key set, and each value is `f` applied to the key and the input's value |
| `Sanitise.SanitisedIdentity` | src/utils.ts:42-44 | a function that leaves every value alone gives back the input dictionary |
| `Sanitise.SanitisedInsert` | src/utils.ts:42-44 | adding one field to the input adds exactly that field, sanitised, to the result, so the map of fields built does not depend on the visiting order |
| `Sanitise.TimestampsConverted` | src/firestore.modular.ts:300-308 | with the adapters' converter no field holds a top-level `Timestamp` any more, each such `Timestamp` became the `Date` at the same instant, and every other value is kept |
| `Sanitise.NestedTimestampsKept` | src/firestore.modular.ts:302-307 | the converter tests only the field's own value, so a `Timestamp` inside a nested map or array stays a `Timestamp` |
| `Sanitise.SanitiseTestExample` | src/utils.test.ts:68-87 | with the test's converter `name` and `age` keep their values and `createdAt` becomes a string |

## Left out

- The adapter classes of Auth, Firestore and Storage and the delegating free functions. Each of them forwards to an SDK whose code is not part of this model.
- Promises, snapshot and auth-state listeners as event streams, network access in `getBlob`/`getBytes`, and the dynamic `import()` of the React-Native OAuth provider. These are asynchronous or I/O, driven by the SDKs.
- `Timestamp.toDate()` is a foreign call. The sanitising function is a parameter. The adapters' converter is modelled on whole milliseconds, so the sub-millisecond precision a `Timestamp` loses in the conversion is not modelled.
- Observers.Wrap: callbacks are total functions without side effects. Exceptions thrown by a callback and its `void` return value are not modelled. The order of calls across several deliveries is not modelled either.
- Observers.Wrap: an observer is a fixed record of three functions. The source looks `current.next` up again at every delivery and calls it as a method of `current`, with `this` bound to `current`, while it copies `current.error` and `current.complete` once, at wrapping time, as unbound functions. So an observer whose methods use `this`, or that is changed after wrapping, is not modelled.
- Observers.Wrap: `null` and `undefined` are both `None`, as `== null` treats them. The observer form passes on `null` for both, so nothing is lost.
- Observers.Truthy: `NaN`, `-0`, `bigint` and `document.all` are not among the modelled values. Numbers are integers.
- Sanitise.SanitiseObject: the keys are visited in an arbitrary order rather than the insertion order of `Object.entries`. A Dafny `map` has no order, so the key order of the result, which JavaScript keeps as the insertion order of `data` and `Object.assign` copies on, is not modelled. `SanitisedInsert` shows only that the field-to-value map built does not depend on the visiting order. If `f` had side effects, the order of its calls would matter, and that is not modelled either.
- Sanitise.SanitiseObject: `f` is a total function. An exception thrown by `f` stops the loop in the source and no dictionary is returned; that path is not modelled.
- Sanitise.SanitiseObject: a key named `__proto__` is an ordinary field here. In JavaScript, assigning it to `{}` sets the prototype instead of adding a field.
- Sanitise.Dictionary: `fields` holds only own enumerable string-keyed properties. Symbol keys, getters and the prototype chain are not modelled.
- Paths: strings are sequences of `char`. The regular-expression engine is replaced by the two functions it computes here.
