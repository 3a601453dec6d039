# Tuple interning engine, modelled in Dafny

`lib/tuple.js` gives JavaScript immutable, interned tuples. `Tuple.for(array)` and
`Tuple.any(array)` return one frozen, tagged array per distinct sequence of
elements, so tuples can be compared by identity. `Tuple.element(v)` returns the
object that stands for a value. `Tuple.is(v)` says whether a value is such a tuple.

The engine has three parts:

- **Element filters.** `nullableForm` (the filter of `Tuple.for`) replaces `null` and
  `undefined` by frozen sentinel objects. `objectForm` (the filter of `Tuple.any` and
  `Tuple.element`) does the same, maps `NaN` to a third sentinel, and replaces each
  number, string or boolean by one wrapper object. That wrapper is filed in the
  global `primitiveMap` under the value's string form.
- **The forest of weak maps.** `maps[length]` is the root of the tree for one tuple
  length. Each element but the last leads one level down, through a weak map keyed by
  the element's key. The last element's key holds the cached tuple. A miss creates the
  missing weak maps and then a frozen, tagged copy of the input.
- **The tag test.** `Tuple.is` is true exactly for objects carrying the private tuple tag.

Files:

- `values.dfy` (module `JsValues`): JavaScript values, object identities and arguments.
- `canonical.dfy` (module `Canonical`): the two filters and the box registry invariant.
  It also holds the as-written `objectForm` lookup and the counterexample it admits.
- `trie.dfy` (module `WeakTrie`): the forest as a value.
  - Its invariant: entries above the last level are weak maps, entries at the last
    level are tuples, no two nodes stand at one place, and every tuple sits at its
    signature.
  - Preservation of that invariant by each of the three insertions.
  - The lookup, and proof that it is the cache-hit test.
- `interning.dfy` (module `Interning`): keys, signatures and the `Registry` class.
  - The class holds the engine's state: `maps`, the weak maps, the tuples, `primitiveMap`.
  - Its methods follow `objectForm`, `nullableForm` and the tuple function statement by
    statement, including the loop that walks and extends the tree. The one exception is
    that `objectForm`'s lookup counts only own entries of `primitiveMap` (see Left out).

Modelling choices:

- A number is represented by its string conversion (`NaN` is `Num("NaN")`).
- Objects are identified by `ObjectRef`. A box or tuple is identified by its allocation index.
  - An object made by `Object.create(proto)` is `Derived(proto, _)`. It reads the tuple tag,
    `length` and the elements through its prototype chain (`Interning.Chain`).
- Weak maps are ordinary maps. A weak map is a node index into `Registry.nodes`.
- A tuple is its list of elements plus the fact that it is tagged.
  - It is frozen: `tuples` only ever grows (`WeakTrie.Extends`), so a tuple's elements never change.
- The place of a tuple in the forest is its *signature*: the length and the list of keys followed.
  - For the empty input that list is the one key of `array[-1]`, which is `undefined`.
- `Tuple.for` is `TupleFunction(Strict, _)`, `Tuple.any` is `TupleFunction(Permissive, _)`,
  and both share one registry.
- A thrown exception is a `Failure` result: `NotArrayLike` for the "Array-like" error,
  `InvalidKey` for the `TypeError` of `WeakMap.prototype.set`.
- `Tuple.element` is `Registry.ObjectForm`.

## Model

| member | source | states |
|---|---|---|
| Canonical.NullableForm | lib/tuple.js:84-88 | the key is an object exactly when the value is not a number, string or boolean; it differs from the value only for null and undefined |
| Canonical.NullableFormCollisions | lib/tuple.js:84-88 | two values get the same strict key iff they are equal or one is null (undefined) and the other the null (undefined) sentinel |
| Canonical.ObjectFormIn | lib/tuple.js:56-77 | once the box is filed, every value gets an object key and an object is its own key |
| Canonical.ObjectFormCollisions | lib/tuple.js:56-77 | which values share a permissive key: null with the null sentinel, undefined with the undefined sentinel, NaN with the NaN sentinel, a primitive with every primitive of the same string form and with its box, an object only with itself |
| Canonical.ObjectFormStable | lib/tuple.js:67-72 | a filed box keeps serving the same primitive as the registry grows |
| Canonical.GrewForElement | lib/tuple.js:109-114 | growth for the input followed by growth for one of its elements is growth for the input |
| Canonical.FileBox | lib/tuple.js:67-72 | one application of objectForm to the registry: a primitive without a box gets the next box, filed under its string form and wrapping that primitive itself; a value that has its box, or needs none, changes nothing; afterwards the value has its box |
| Canonical.FiledGrows | lib/tuple.js:67-70 | applying objectForm to a list of values in turn only grows the registry, creates boxes only for those values, leaves each of them with its box, and changes nothing when each already had one |
| Canonical.FiledStep | lib/tuple.js:67-72 | filing one more value is one more objectForm step on the registry filed so far |
| Canonical.FiledAppend | lib/tuple.js:67-72 | filing `a` and then `b` gives the registry of filing `a + b`, so filing composes across successive calls |
| Canonical.FiledKeepsAbsent | lib/tuple.js:67-70 | a string form that none of the filed values has gets no `primitiveMap` entry |
| Canonical.FiledFirst | lib/tuple.js:67-70 | the box created for a string form wraps the first filed value with that string form, and is a new box; later values of that form share it, so the first one decides whether it is a String, Number or Boolean box |
| Canonical.NewEntriesFromItems | lib/tuple.js:67-70 | every `primitiveMap` entry created since a valid registry is the string form of an element of the input, and files a box created since then |
| Canonical.PropertyRead | lib/tuple.js:67 | reading `primitiveMap[name]` from an object literal finds nothing exactly when the name is neither an own entry nor an Object.prototype member |
| Canonical.ObjectFormAsWritten | lib/tuple.js:56-77 | the lookup as written always yields an object, and agrees with the own-entry lookup whenever the box is filed |
| Canonical.InheritedNameCollides | lib/tuple.js:67-68 | as written, the string "constructor" and the Object function get the same key |
| Canonical.OwnEntriesKeepNamesApart | lib/tuple.js:67-72 | with own entries only, a filed primitive's key differs from that of every object that is not a box, so the string "constructor" and the Object function get different keys |
| Canonical.AsWrittenMissReturnsNonBox | lib/tuple.js:67-68 | as written, an unfiled primitive gets something other than a box iff its string form names an Object.prototype member |
| WeakTrie.EmptyValid | lib/tuple.js:35 | the empty forest satisfies the forest invariant |
| WeakTrie.ExtendsTransitive | lib/tuple.js:110-137 | growth of the forest composes across steps |
| WeakTrie.AddRootValid | lib/tuple.js:110 | creating the missing root of a length class keeps the invariant and only adds |
| WeakTrie.AddChildValid | lib/tuple.js:117-120 | storing a new weak map under a fresh object key above the last level keeps the invariant and only adds |
| WeakTrie.AddTupleValid | lib/tuple.js:129-136 | storing a new tuple under a fresh object key at the last level keeps the invariant and only adds |
| WeakTrie.GrownAlongChild | lib/tuple.js:117-120 | a weak map stored under a key below the node at a prefix stands at that prefix extended by the key, so growth stays along the keys followed |
| WeakTrie.ChildrenArePresent | lib/tuple.js:113-123 | any node one key below a node is stored in that node under that key |
| WeakTrie.TuplesArePresent | lib/tuple.js:125-127 | any tuple whose signature extends a last-level node by a key is stored there under that key, so a miss means no tuple has that signature |
| WeakTrie.EntryKinds | lib/tuple.js:113-125 | keys are objects; entries above the last level are weak maps and entries at the last level are tuples |
| WeakTrie.SignatureShape | lib/tuple.js:107-113 | a tuple's signature has one key per element (one for the empty tuple) and the tuple has its class's length |
| WeakTrie.SignaturesInjective | lib/tuple.js:125-137 | two tuples have the same signature iff they are the same tuple |
| WeakTrie.Ancestor | lib/tuple.js:113-123 | every prefix of a node's keys leads to a node of the forest |
| WeakTrie.DescendSound | lib/tuple.js:113-125 | whatever the read-only walk finds is a tuple at the place the keys lead to |
| WeakTrie.DescendComplete | lib/tuple.js:113-125 | a tuple at the place the keys lead to is what the walk finds |
| WeakTrie.SignatureHasRoot | lib/tuple.js:110 | every tuple's length class has a root |
| WeakTrie.FindIsCacheHit | lib/tuple.js:110-127 | the lookup finds a tuple iff a tuple is cached at that signature, and then finds exactly that tuple |
| Interning.Elements | lib/tuple.js:103-129 | an array-like object of the caller's yields its elements, the empty one included; a string yields its characters iff it is non-empty; null, undefined, numbers and booleans are rejected; an engine object yields what ObjectElements says |
| Interning.ObjectElements | lib/tuple.js:103-129 | an object yields the elements of the object at the end of its prototype chain: a tuple yields its own elements and a String box the characters of its string (the empty one included); sentinels, Number and Boolean boxes, intrinsics and plain objects are rejected |
| Interning.Chain | lib/tuple.js:191 | the prototype chain starts at the object, each step goes to the prototype of an object made by `Object.create`, and it ends at an object that has no such prototype |
| Interning.Tagged | lib/tuple.js:191 | the tag is read as true iff some object on the prototype chain is a tuple |
| Interning.FilingOrderElements | lib/tuple.js:107-114 | the order in which a tuple function applies its filter files the last element first and then every element but the last in order: one entry per step, and exactly the input's elements (`array[-1]`, undefined, for the empty input) |
| Interning.FilingAfterFinal | lib/tuple.js:109-114 | the boxes the final key filed or found stay as they are while the loop files the other elements |
| Interning.FilingOutcome | lib/tuple.js:107-114 | a tuple function that filed the input in filing order, or Tuple.for, which files nothing, created boxes only for elements, and none when every element had its box |
| Interning.FinalElementFiledFirst | lib/tuple.js:109-114 | from the initial state, Tuple.any([1, '1']) files one box and it is a String box for '1', because the last element is filed first; so the elements of that box, as a later Tuple.any(Tuple.element(1)) reads them, are ['1'] |
| Interning.KeysOf | lib/tuple.js:107-114 | one key per element, and the undefined sentinel alone for the empty input |
| Interning.SignatureEquality | lib/tuple.js:107-137 | two inputs under any two filters have the same signature iff they have the same length and the same key at every position |
| Interning.StrictSignatureEquality | lib/tuple.js:84-88 | under the filter of Tuple.for, inputs share a signature iff they agree element by element up to null/sentinel substitution |
| Interning.NullMeetsItsSentinel | lib/tuple.js:84-88 | `[null]` and `[Tuple.element(null)]` have the same signature under either filter |
| Interning.FiltersAgreeOnObjects | lib/tuple.js:155-170 | inputs without numbers, strings or booleans have the same signature for Tuple.for and Tuple.any |
| Interning.ReversalChangesSignature | lib/tuple.js:113-125 | `[a, b, c]` and `[c, b, a]` have different signatures when a and c have different keys |
| Interning.SignatureStable | lib/tuple.js:67-72 | a signature does not change as the box registry grows |
| Interning.PrimitivePrefix | lib/tuple.js:113-123 | the number of leading keys a WeakMap accepts: all before it are objects, the one at it is not |
| Interning.CompletePlace | lib/tuple.js:107-125 | after the loop, the input's signature is the keys followed plus the final key; it is acceptable iff the final key is an object |
| Interning.RefusedPlace | lib/tuple.js:113-120 | when the loop stops at a refused key, the keys followed are the longest acceptable prefix of the signature |
| Interning.Is | lib/tuple.js:189-192 | true iff the value is an object whose prototype chain holds a tuple: every tuple and every object made by `Object.create` from one; false for null, undefined and primitives |
| Interning.RefusedOutcome | lib/tuple.js:113-123 | an input refused in the loop creates no tuple, and every weak map it created stands along the signature's longest acceptable prefix |
| Interning.SettledOutcome | lib/tuple.js:107-139 | once the last lookup has answered, the call did what InternedFrom states: the tuple found at the input's place, unchanged forest on a hit, exactly one new tuple of the input's elements on a miss, weak maps only along the accepted keys |
| Interning.SettledLookup | lib/tuple.js:125-137 | a returned tuple is what a lookup of the input's signature finds afterwards; it is the one found there before the call, with the forest unchanged, or else a new tuple appended with that signature |
| Interning.Registry.constructor | lib/tuple.js:29-43 | the engine starts with no roots, weak maps, tuples or boxes, and its invariant holds |
| Interning.Registry.ObjectForm | lib/tuple.js:56-77 | the key is the sentinel, the filed box or the object itself; a miss files exactly one new box for the value's string form and changes nothing else; a hit changes nothing |
| Interning.Registry.Canonicalize | lib/tuple.js:109-114 | the key the mode's filter gives the value; the strict filter changes nothing; the permissive filter leaves the registry `FileBox` of the old one: a missing box is filed under the value's string form as the next box, and nothing else changes |
| Interning.Registry.RootFor | lib/tuple.js:110 | returns the root of the length class, creating an empty one only if missing and changing nothing otherwise |
| Interning.Registry.AddNode | lib/tuple.js:117-120 | stores a new empty weak map under the key, one level deeper |
| Interning.Registry.CacheTuple | lib/tuple.js:129-136 | appends a tuple of the input's own elements and stores it at its signature |
| Interning.Registry.Follow | lib/tuple.js:114-122 | one loop step: the element's key and the weak map stored under it. A hit or a refused key changes nothing in the forest; a miss adds exactly one new empty weak map under the key (`AddChild`); the registry is `FileBox` of the old one for the element, and Tuple.for leaves it unchanged |
| Interning.Registry.Advance | lib/tuple.js:113-122 | one pass of the loop: Follow. An object key extends what the loop keeps (`Along`) by one element: the keys followed, every weak map created since the call began along them, and the registry filed through one more element in filing order; a refused key only arises for Tuple.for and changes nothing |
| Interning.Registry.Walk | lib/tuple.js:113-123 | the loop follows or creates one weak map per element but the last and stops at the first refused key, which only the strict filter produces; every weak map created stands along the keys followed, and the registry has filed the final key and then each element followed, in that order (`Along`) |
| Interning.Registry.Prepare | lib/tuple.js:107-110 | computes the final key first, filing the last element's box (`FileBox`) and nothing for Tuple.for, then returns the root of the length class, adding exactly that empty root (`AddRoot`) when missing and nothing otherwise |
| Interning.Registry.Locate | lib/tuple.js:107-123 | the weak map reached is at the signature's prefix, or on a refused key at its longest acceptable prefix; only the root and weak maps along that prefix are created; Tuple.any leaves the registry exactly `Filed(old registry, FilingOrder(items))`, the last element first and then the others in order, and Tuple.for leaves it unchanged |
| Interning.Registry.Settle | lib/tuple.js:125-139 | on a hit returns the tuple the lookup of the signature finds and changes nothing; on a miss stores exactly one new tuple of the input's elements there (`AddTuple`); a refused final key changes nothing |
| Interning.Registry.Finish | lib/tuple.js:125-139 | after a loop that followed every key, the call as a whole satisfies Interned and InternedFrom |
| Interning.Registry.Intern | lib/tuple.js:107-139 | a tuple is returned iff every key is an object. The tuple is the one a lookup of the input's signature finds, has the input's length, and its own elements have that signature under its filter. A cached signature returns the cached tuple and changes nothing in the forest; otherwise exactly one tuple, of the input's elements, is added. A refusal only happens for Tuple.for, adds no tuple, and leaves the weak maps of the accepted prefix. Only the root and weak maps along the accepted keys are created. Tuple.any leaves the registry exactly as filing the input in filing order would (`Filed`, `FilingOrder`), so only boxes of elements are filed, none when all exist; Tuple.for leaves it unchanged (`InternedFrom`) |
| Interning.Registry.TupleFunction | lib/tuple.js:99-141 | rejects an argument without elements before changing anything; interns the elements of any other, with everything Intern states (`Interned` and `InternedFrom`, including the exact registry after the call) |
| Interning.Registry.InternBoth | lib/tuple.js:107-139 | two successful calls return the identical tuple iff the inputs have the same signature, and then the second call changes nothing in the forest |

## Left out

- The UMD/AMD/CommonJS/global export wrapper (lib/tuple.js:1-25): module plumbing.
- Garbage collection and weak reachability. Weak maps are ordinary maps, and nothing is ever reclaimed.
- Number formatting. A number is its `String(n)` form, so `0` and `-0` are one value.
  `Infinity` and `-Infinity` are ordinary boxed numbers.
- Symbol and BigInt values: there is no `Value` for them.
- `Object.freeze` and the `TUPLE` symbol: a tuple is a `TupleObject` entry in `tuples`, which only grows.
- The text of the V8 `TypeError` is not modelled; it is the `InvalidKey` outcome.
- Array-likeness: an argument is an array-like object with a dense list of elements, or a
  plain value. Functions (which have a numeric `length`), objects whose `length` is not a
  count, and sparse arrays are not modelled.
- Interning.Elements: a string's elements are its Unicode characters (`seq<char>`), not its
  UTF-16 code units, so a string outside the Basic Multilingual Plane has fewer elements than
  JavaScript reads. Intrinsic values are never array-like, although some of them are
  functions with a numeric `length`.
- Interning.Is: a caller's object that copies the tag symbol onto itself (reachable with
  `Object.getOwnPropertySymbols`) is not modelled; only tuples and objects inheriting from
  them carry the tag.
- The wrapper objects created by `new element.constructor(element)` are `Box(i)`
  references. `boxes[i]` records the primitive each was first created for.
- The weak map and the tuple that lib/tuple.js allocates before a refused `WeakMap.set`
  throws are unreachable, so they are not modelled.
- Interning.Registry.Intern: on a cache hit the returned tuple's elements are only stated to
  have the input's signature, not to equal the input. lib/tuple.js returns whichever tuple was
  cached first for that signature, so the stronger statement is false (see
  `NullMeetsItsSentinel` and the `1`/`'1'` case of `ObjectFormCollisions`).
- Interning.Registry.ObjectForm: models the own-entry lookup, not the lookup as written; see Findings.

## Findings

| source | as written | input that shows it | evidently intended | confidence | as-written member | corrected member |
|---|---|---|---|---|---|---|
| lib/tuple.js:67-68 | `primitiveMap` is an object literal, so `primitiveMap[element]` also finds members inherited from `Object.prototype`; their truthiness makes them count as a filed box | `Tuple.any(['constructor']) === Tuple.any([Object])` (and `Tuple.element('toString') === Object.prototype.toString`) | only boxes filed by `objectForm` count, e.g. a prototype-less registry (`Object.create(null)`) or a `Map` | not executed | Canonical.InheritedNameCollides | Canonical.OwnEntriesKeepNamesApart |
