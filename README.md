# kitify core, modelled in Dafny

kitify is a TypeScript utility library. This project models its core and proves properties of the model. The core covers:

- **Value-graph cloning.**
  - `clone`: recursive, with a `WeakMap` of visited objects.
  - `cloneLoop`: iterative, with an explicit stack of frames.
  - `cloneDeep`'s `deepClone`: recursive, and it also clones `Map`, `Set`, `ArrayBuffer`, typed arrays, `DataView` and property descriptors.
- **The tree helpers.**
  - `listToTree`: flat list to forest.
  - `treeToList`: forest to flat list, depth first.
  - `findPath`: the path of values down to the first matching node.
  - `transformTree`: map and filter every level.
- **Object and number helpers.**
  - The `assign` fallback loop.
  - The number helpers in `number.ts`, including `numberToChinese`.
- **The colour helpers.**
  - The three colour grammars.
  - `isHexColor`, `isRgbColor` and `isHslColor`.
  - `hexToRgb` and `rgbToHex`.
  - `colorRgb`.
  - `isDarkColor` and `isLightColor`.
  - `colorComplementary`.
- **The type predicates of `type.ts`.**

## How the model is organised

**JavaScript values** (`js_values.dfy`, module `JsValues`):
- Primitives: `undefined`, `null`, booleans, integral numbers, `NaN`, strings, symbols and bigints.
- Property keys.
- Decimal numerals.
- ECMAScript white space, as seen by `\s` and `String.prototype.trim`.

**Two views of objects:**
- The tree, object and type helpers work on plain values (`data_values.dfy`, `JsData`).
  - An array is a sequence of values.
  - An object is a record, a map from field names to values.
- The three clone functions work on a heap (`js_heap.dfy`, `JsHeap`).
  - A heap maps references to nodes: arrays, objects with a prototype and ordered property descriptors, `Date`, `RegExp`, `Map`, `Set`, buffers, typed arrays, views and functions.
  - Objects form a graph with sharing and cycles.
  - The heap is a value that each method takes and returns.

**What a correct clone is** (`clone_spec.dfy`, `CloneSpec`), stated once for all three cloners:
- The source heap is untouched, and every clone node is fresh.
- Each registered source node (one the algorithm enters in its `WeakMap`) has exactly one clone.
- Every slot of a clone corresponds to the same slot of its source:
  - a primitive or a function is the same value;
  - a registered node is its one clone;
  - a `Date`, `RegExp` or buffer is a fresh copy made for that slot alone.

`clone_steps.dfy` (`CloneSteps`) proves the steps the three algorithms share.

**The algorithms:**
- `clone.dfy` (`Clone`) and `clone_deep.dfy` (`CloneDeep`) are recursive methods with loops over keys, items, entries, members and descriptors.
- `clone_loop.dfy` (`CloneLoop`) is a method whose `while` loop pops frames off a stack.
- Each proves that what it returns satisfies the clone predicate.

**Tree helpers:** `list_to_tree.dfy`, `tree_to_list.dfy`, `find_path.dfy` and `transform_tree.dfy`.
- They keep the source's loops as methods, or its recursion as functions.
- Each is specified by a function of its inputs, with lemmas about that function.

**Object, number and type helpers:**
- `assign.dfy` models the target object as a class.
- `number.dfy` and `number_chinese.dfy` model `number.ts`.
- `types.dfy` models `type.ts`.

**Colour:**
- `color_grammar.dfy` (`ColorGrammar`) gives each regular expression of `_utils.ts` two things:
  - a grammar: the pieces a match is made of, and the text they spell;
  - a parser, proved to find a match exactly when one exists, and the only one.
- `hex_digits.dfy` holds hex numerals.
- `color.dfy` (`Color`) holds the colour functions.
- `color_examples.dfy` holds the inputs of the colour unit tests.

**Conventions:**
- Numbers are integers or `NaN`.
- JavaScript's `%` is modelled as truncating division (`Number.Rem`).
- `&` works on the low 32 bits, as `ToUint32` does (`Number.Low32`).
- A thrown exception is the `Throw` case of a `Result`.
- Callbacks passed in by the caller (`transform`, `isRoot`, `filter`, `transformer`, validators) are parameters of the model:
  - either a total Dafny function (`Fn`), or "missing", or "not a function".

## Model

| member | source | states |
|---|---|---|
| Types.TypeOf | core/src/type/type.ts:2-10 | `typeof` gives "object" exactly for `null`, arrays and plain objects |
| Types.IsString | core/src/type/type.ts:2 | true exactly for string primitives |
| Types.IsNumber | core/src/type/type.ts:3 | true exactly for numbers, `NaN` included |
| Types.IsBoolean | core/src/type/type.ts:4 | true exactly for `true` and `false` |
| Types.IsArray | core/src/type/type.ts:5 | true exactly for arrays, which `typeof` calls "object" |
| Types.IsFunction | core/src/type/type.ts:6 | true exactly for functions |
| Types.IsUndefined | core/src/type/type.ts:7 | true exactly when `typeof` is "undefined" |
| Types.IsNull | core/src/type/type.ts:8 | true exactly for the one primitive that `typeof` calls "object" |
| Types.IsSymbol | core/src/type/type.ts:9 | true exactly for symbols |
| Types.IsBigInt | core/src/type/type.ts:10 | true exactly for bigints |
| Types.IsNilValue | core/src/type/type.ts:13 | true exactly when `isNull` or `isUndefined` holds |
| Types.IsEmpty | core/src/type/type.ts:15-29 | nil is empty; a string is empty iff it is all white space; an array iff it has no items; an object iff it has no own enumerable keys; nothing else is empty |
| Types.IsNaNValue | core/src/type/type.ts:31 | `Number.isNaN` holds exactly for the number that is not an integer value |
| Types.IsInvalid | core/src/type/type.ts:31 | true exactly for `undefined`, `null` and `NaN` |
| Types.OneTypeOf | core/src/type/type.ts:2-10 | each primitive or function satisfies exactly one of the `typeof` predicates |
| Types.InvalidIsFalsy | core/src/type/type.ts:31 | every invalid value is falsy; `0` and `''` are falsy but not invalid |
| Types.EmptyExamples | core/src/type/type.ts:15-29 | `null`, `undefined`, `''`, `[]` and `{}` are empty |
| Types.NonEmptyString | core/src/type/type.ts:19-21 | `'hello'` is not empty |
| Types.NonEmptyArray | core/src/type/type.ts:22-24 | `[1, 2, 3]` is not empty |
| Types.NonEmptyRecord | core/src/type/type.ts:25-27 | `{ key: 'value' }` is not empty |
| JsValues.NatDigits | core/src/number.ts:126 | `toString()` of a natural number: digits only, no leading zero, one digit exactly below 10 |
| JsValues.ParseNatDigits | core/src/color/rgbToHex.ts:16-18 | `parseInt(n.toString(), 10) == n` |
| JsValues.NatDigitsOfParse | core/src/color/rgbToHex.ts:16-18 | a numeral without a leading zero is the `toString()` of the number it reads as |
| JsValues.TrimStart | core/src/type/type.ts:20 | the result is a suffix of the input, all that was removed is white space, and it does not start with white space |
| JsValues.TrimEnd | core/src/type/type.ts:20 | the result is a prefix of the input, all that was removed is white space, and it does not end with white space |
| JsValues.TrimShape | core/src/type/type.ts:20 | `trim()` cuts white space from both ends only and leaves neither end white |
| JsValues.TrimEmptyIff | core/src/type/type.ts:20 | `s.trim() === ''` exactly when `s` is all white space |
| JsValues.StringKey | core/src/object/assign.ts:12-14 | a string names an array index exactly when it is a canonical index numeral, and otherwise names itself |
| JsValues.NumberAndNumeralShareKey | core/src/data/listToTree.ts:100 | `obj[n]` and `obj[String(n)]` are the same property |
| JsData.IndexFieldsHold | core/src/object/assign.ts:12-14 | the spread of an array or string has the key `String(i)` holding element `i` |
| JsData.IndexFieldsKeys | core/src/object/assign.ts:12-14 | the spread of an array or string has no other keys |
| JsHeap.EnumStringKeys | core/src/collection/cloneLoop.ts:37 | `Object.keys`: exactly the enumerable string-keyed own properties |
| JsHeap.OwnKeysDistinct | core/src/collection/cloneLoop.ts:37 | `Object.keys` lists no key twice |
| JsHeap.FindProp | core/src/collection/cloneDeep.ts:146 | the descriptor lookup finds the property with that key, or reports that none has it |
| JsHeap.MapSet | core/src/collection/cloneDeep.ts:110 | `Map.prototype.set` appends a new key, and keeps the keys and their order for a present one |
| JsHeap.SetAdd | core/src/collection/cloneDeep.ts:121 | `Set.prototype.add` appends a new member and ignores a present one |
| JsHeap.SetKeyAppends | core/src/collection/clone.ts:31 | writing a new key to a clone appends an element, or a writable, enumerable, configurable property |
| CloneSpec.BasicEmptyOk | core/src/collection/clone.ts:23 | the empty clone is an array for an array, else an object with the source's prototype, with no slot filled |
| CloneSpec.ValCorrInjective | core/src/collection/cloneLoop.ts:57-61 | two different registered sources never share a clone |
| CloneSpec.DistinctCopies | core/src/collection/cloneLoop.ts:63-71 | two slots that reference one `Date` or `RegExp` get two distinct copies of it |
| CloneSpec.SharedClone | core/src/collection/cloneLoop.ts:57-61 | two slots that reference one registered source both get its one clone |
| CloneSteps.FreshStart | core/src/collection/cloneLoop.ts:21 | an empty `WeakMap` and no copies satisfy the clone invariant |
| CloneSteps.PassThrough | core/src/collection/clone.ts:13 | a primitive or a function is its own clone and changes nothing |
| CloneSteps.Hit | core/src/collection/clone.ts:20 | a source already in the `WeakMap` is answered with its recorded clone, and nothing is allocated |
| CloneSteps.CopiedOnce | core/src/collection/clone.ts:16-17 | a `Date` or `RegExp` becomes one fresh equal node, recorded as made for this slot |
| CloneSteps.ViewCopied | core/src/collection/cloneDeep.ts:98-101 | a `DataView` becomes a fresh view with the same offset and length, over a fresh copy of its buffer made for it alone |
| CloneSteps.EndFill | core/src/collection/clone.ts:22-35 | once all its slots are filled, a registered node is completely cloned and the result is its clone |
| Clone.PutKey | core/src/collection/clone.ts:29-33 | writing the clone of key `j` extends a correct partial clone by one key |
| Clone.Clone | core/src/collection/clone.ts:11-36 | with any `WeakMap` that satisfies the invariant, the returned value corresponds to `obj`, every registered node reached is completely cloned, and the map and heap only grow |
| Clone.CloneValue | core/src/collection/clone.ts:11-36 | `clone(obj)` with a fresh `WeakMap` returns a clone of `obj` |
| CloneLoop.Start | core/src/collection/cloneLoop.ts:29-38 | the root clone is allocated and registered, and its frame is the whole stack |
| CloneLoop.WriteStep | core/src/collection/cloneLoop.ts:51-71 | a primitive, an already-cloned object, a `Date` or a `RegExp` is written to the current key and keeps the loop invariant |
| CloneLoop.PushStep | core/src/collection/cloneLoop.ts:73-88 | a new object or array is cloned empty, registered, written and pushed with its keys, keeping the loop invariant |
| CloneLoop.CopyKey | core/src/collection/cloneLoop.ts:48-88 | handling one key keeps the loop invariant, and the map and stack only grow |
| CloneLoop.RunTask | core/src/collection/cloneLoop.ts:45-89 | the popped frame's target ends completely cloned, and every frame still on the stack stays correct |
| CloneLoop.Progress | core/src/collection/cloneLoop.ts:41 | each task leaves fewer unregistered nodes, or the same number and a shorter stack, so the loop ends |
| CloneLoop.FinishAll | core/src/collection/cloneLoop.ts:92 | once the stack is empty, the root target is a complete clone of the root |
| CloneLoop.CloneLoop | core/src/collection/cloneLoop.ts:8-93 | `cloneLoop(value)` returns a clone of `value`: primitives and functions as themselves, `Date` and `RegExp` as fresh copies, and every object reached cloned once with its `Object.keys` |
| CloneDeep.IsTypedArrayExactly | core/src/collection/cloneDeep.ts:18-20 | `isTypedArray` holds exactly for typed arrays: `DataView` is excluded |
| CloneDeep.PutEntry | core/src/collection/cloneDeep.ts:110 | setting a cloned key and value extends a correct partial `Map` clone by one entry |
| CloneDeep.KeyIsNew | core/src/collection/cloneDeep.ts:110 | the clone of a `Map` key differs from every key cloned before it, so `set` appends |
| CloneDeep.PutMember | core/src/collection/cloneDeep.ts:121 | adding a cloned member extends a correct partial `Set` clone by one member |
| CloneDeep.DefineAll | core/src/collection/cloneDeep.ts:151 | `Object.defineProperties` gives the empty clone all the collected descriptors at once |
| CloneDeep.FillArray | core/src/collection/cloneDeep.ts:64-73 | the loop over an array fills every index with the clone of its item |
| CloneDeep.FillMap | core/src/collection/cloneDeep.ts:104-114 | the `forEach` over a `Map` gives every entry a cloned key and value, in order |
| CloneDeep.CloneEntry | core/src/collection/cloneDeep.ts:108-111 | one `Map` entry is cloned key first, then value, and set |
| CloneDeep.FillSet | core/src/collection/cloneDeep.ts:116-125 | the `forEach` over a `Set` gives every member a clone, in order |
| CloneDeep.FillObject | core/src/collection/cloneDeep.ts:128-154 | every own descriptor, symbol-keyed and non-enumerable ones included, is copied with its flags and a cloned value, and the clone keeps the prototype |
| CloneDeep.DeepClone | core/src/collection/cloneDeep.ts:51-157 | with any `WeakMap` that satisfies the invariant, the returned value corresponds to `target`, every node reached is completely cloned, and the map and heap only grow; objects are filled by the corrected descriptor collection (see Findings) |
| CloneDeep.DeepCloneValue | core/src/collection/cloneDeep.ts:51-157 | `cloneDeep(target)` returns a full clone of `target`, with the corrected descriptor collection (see Findings) |
| CloneDeepProto.DescriptorsAsWritten | core/src/collection/cloneDeep.ts:145-150 | `reduce` into `acc[prop] = descriptor` on a plain `{}` keeps only descriptors of the source, never one keyed `__proto__`, and all of them when none is |
| CloneDeepProto.ProtoDescriptorLost | core/src/collection/cloneDeep.ts:145-151 | an own property named `__proto__` is missing from the clone |
| CloneDeepProto.AllKept | core/src/collection/cloneDeep.ts:145-151 | without such a property every descriptor reaches the clone |
| CloneDeepProto.JsonProtoExample | core/src/collection/cloneDeep.ts:148 | the one descriptor of `JSON.parse('{"__proto__": 1}')` is dropped |
| Assign.Target.constructor | core/src/object/assign.ts:9 | the target holds the given properties |
| Assign.CopyOwn | core/src/object/assign.ts:11-16 | one source's own enumerable string-keyed properties are written onto the target, later ones over earlier |
| Assign.Assign | core/src/object/assign.ts:9-19 | returns the target itself, now holding its old properties merged with every source's, in order |
| Assign.LastWriterWins | core/src/object/assign.ts:10-17 | a key ends with the value from the last source that has it |
| Assign.Untouched | core/src/object/assign.ts:10-17 | a key that no source has keeps its old value, or stays absent |
| Assign.KeyUnion | core/src/object/assign.ts:12-15 | the keys afterwards are exactly the target's plus the sources' own keys |
| Assign.NoOwnKeys | core/src/object/assign.ts:12-13 | a number, boolean, null or undefined source changes nothing |
| Assign.StringSource | core/src/object/assign.ts:12-15 | a string source writes character `i` under key `String(i)`, and nothing else |
| ListToTree.Register | core/src/data/listToTree.ts:100-103 | one item's node is entered under its id, with an empty children array |
| ListToTree.FirstPass | core/src/data/listToTree.ts:99-104 | succeeds exactly when no item is `null`/`undefined`, and then maps each id to the node of the last item with that id |
| ListToTree.Link | core/src/data/listToTree.ts:108-117 | one item is pushed onto the roots, or onto its parent's children, or dropped when no node has its parent id |
| ListToTree.SecondPass | core/src/data/listToTree.ts:107-118 | the roots and the children arrays are those the item list determines |
| ListToTree.ListToTree | core/src/data/listToTree.ts:67-121 | the three `TypeError`s and the empty list as in the source; otherwise succeeds exactly when no item is nil, and then the roots are the root items in order, one node per id, and each node's children are the non-root items naming it as parent, in order |
| ListToTree.Registered | core/src/data/listToTree.ts:100-103 | every fresh node starts with no children |
| ListToTree.LinkedChildren | core/src/data/listToTree.ts:113-116 | linking adds no node, and appends to each node exactly its children's ids |
| ListToTree.RegisteredKeys | core/src/data/listToTree.ts:99-104 | the nodes are keyed by exactly the ids of the items |
| ListToTree.LaterReplaces | core/src/data/listToTree.ts:99-104 | the last item with a given id provides that id's node |
| ListToTree.RootKeysAppend | core/src/data/listToTree.ts:107-118 | the roots of a concatenated list are the roots of each part, in order |
| ListToTree.ChildKeysAppend | core/src/data/listToTree.ts:107-118 | the children of a concatenated list are those of each part, in order |
| ListToTree.RootsExactly | core/src/data/listToTree.ts:110-111 | an id is among the roots exactly when some root item has it |
| ListToTree.ChildrenExactly | core/src/data/listToTree.ts:113-115 | an id is among a node's children exactly when some non-root item with that parent has it |
| ListToTree.OrphanDropped | core/src/data/listToTree.ts:113-116 | a non-root item whose parent id has no node changes neither the roots nor any node's children |
| TreeToList.Delete | core/src/data/treeToList.ts:41 | `delete` removes the key from an object, leaves any other value as it was, and throws on `null`/`undefined` |
| TreeToList.Flat | core/src/data/treeToList.ts:37-49 | the subtree at a node is visited starting with the node itself |
| TreeToList.FlatLeaf | core/src/data/treeToList.ts:44 | a primitive node has no children to visit |
| TreeToList.PushChildren | core/src/data/treeToList.ts:46-48 | the children are pushed in reverse, so the first child is on top |
| TreeToList.PopStep | core/src/data/treeToList.ts:39-48 | popping a node and pushing its children reversed keeps the visiting order: the node, its subtrees, then the rest of the stack |
| TreeToList.PushReversed | core/src/data/treeToList.ts:46-48 | pushing children reversed visits their subtrees left to right before the rest of the stack |
| TreeToList.TreeToList | core/src/data/treeToList.ts:16-52 | the two `TypeError`s as in the source; otherwise the list is the copies of the nodes in depth-first order, from the last top-level node to the first |
| TreeToList.RunOk | core/src/data/treeToList.ts:37-51 | succeeds exactly when every visited node can be copied, and then lists one copy per visited node, in visiting order |
| TreeToList.RemovedOrKept | core/src/data/treeToList.ts:21-23 | with `removeChildren` on (the default) and the default transform, no copy has the children key; with it off, every copy is the transform's result |
| TreeToList.KeptAsIs | core/src/data/treeToList.ts:23 | the default copy of a record without a children key is that record |
| TreeToList.ChildrenBelow | core/src/data/treeToList.ts:44 | only arrays and objects have children, each a primitive or a part of its parent, so the traversal ends |
| TreeToList.OrderExample | core/src/data/treeToList.ts:37-49 | `[{id: 1, children: [{id: 2}, {id: 3}]}, {id: 4}]` becomes `[{id: 4}, {id: 1}, {id: 2}, {id: 3}]` |
| FindPath.Settings | core/src/data/findPath.ts:42-49 | no options argument means key `'value'`, children `'children'` and the default transformer |
| FindPath.KeyNameIsKey | core/src/data/findPath.ts:43-45 | a string options argument is `{ key: options }` |
| FindPath.FindPath | core/src/data/findPath.ts:34-77 | a non-array tree gives `[]`; otherwise the transformed path that the search finds |
| FindPath.Search | core/src/data/findPath.ts:55-74 | the loop with its early returns computes the transformed first path the depth-first search defines |
| FindPath.NotFound | core/src/data/findPath.ts:55-74 | the search finds nothing exactly when no node it can reach matches |
| FindPath.FoundChain | core/src/data/findPath.ts:56-70 | a found path starts at a top-level node, each next node is in the child list of the one before, and the last node matches |
| FindPath.LeftFirst | core/src/data/findPath.ts:56-71 | siblings are searched left to right, and a later sibling is only searched when every earlier one failed |
| FindPath.ReportLength | core/src/data/findPath.ts:59-67 | the transformed path has one value per node on the path |
| FindPath.ReportCons | core/src/data/findPath.ts:66-68 | `unshift` puts the parent's transformed value before the child path |
| FindPath.ExampleById | core/src/data/findPath.ts:34-77 | searching `[{id: 1, children: [{id: 2}]}, {id: 3}]` for `2` under key `id` gives `[1, 2]` |
| TransformTree.TransformTree | core/src/data/transformTree.ts:32-43 | a non-array tree gives `[]`, and a transformer that is not a function gives the tree back unchanged |
| TransformTree.Kept | core/src/data/transformTree.ts:66 | with a filter every kept item passes it and comes from the level; without one, the level is kept whole |
| TransformTree.SameShape | core/src/data/transformTree.ts:50-66 | without a filter a level keeps its length and order: item `i` is made from node `i` |
| TransformTree.MappedItems | core/src/data/transformTree.ts:50-63 | `map` makes item `i` from node `i` |
| TransformTree.FilteredItems | core/src/data/transformTree.ts:50-66 | with a filter every item passes it and is the item of some node of the level |
| TransformTree.ChildrenWritten | core/src/data/transformTree.ts:52-56 | an object item of a node with children carries the transformed children under `childKey`, and keeps every other field |
| TransformTree.NoChildrenAdded | core/src/data/transformTree.ts:52-56 | a non-object item, or one from a node without children, is left as the transformer returned it |
| TransformTree.EmptyChildren | core/src/data/transformTree.ts:54 | an empty children array adds no `childKey` field |
| Number.Rem | core/src/number.ts:12 | JavaScript's `%`: the result takes the sign of the dividend, is smaller than the divisor in size, and is zero exactly when the divisor divides |
| Number.IsOdd | core/src/number.ts:10-13 | an integer is odd exactly when it is 1 mod 2, negatives included; `NaN` is reported odd |
| Number.IsEven | core/src/number.ts:18-20 | even is exactly not odd, and for integers exactly 0 mod 2 |
| Number.OddSymmetric | core/src/number.ts:10-20 | `n` and `-n` are odd together, and `n + 1` is odd exactly when `n` is even |
| Number.IsPrime | core/src/number.ts:26-34 | for an integer the answer is primality, negatives and 0 and 1 excluded; `NaN` is reported prime |
| Number.SkipSix | core/src/number.ts:30-31 | passing `6k - 1` and `6k + 1` leaves no divisor below the next candidate |
| Number.SixCandidates | core/src/number.ts:29-31 | every number the loop skips is divisible by 2 or 3 |
| Number.CofactorBelow | core/src/number.ts:30 | a composite has a divisor at most its square root, so the loop bound `i * i <= num` suffices |
| Number.IsPrimeChecked | core/src/number.ts:26-34 | true exactly for integers that are prime |
| Number.PrimeNaN | core/src/number.ts:26-34 | `isPrime(NaN)` is true, while the corrected check says false |
| Number.Reversed | core/src/number.ts:43-44 | a reversed string has the same length |
| Number.ReversedAt | core/src/number.ts:44 | character `k` of the reversal is character `len - 1 - k` |
| Number.Mirrors | core/src/number.ts:42-46 | the loop over the first half answers exactly whether the string equals its reversal |
| Number.IsPalindrome | core/src/number.ts:40-47 | true exactly when the decimal string of the number reads the same backwards |
| Number.Mirrored | core/src/number.ts:43-46 | a string whose first `i` characters mirror its last `i`, with `2 i >= length`, equals its reversal |
| Number.NegativeNotPalindromic | core/src/number.ts:41 | no negative number is a palindrome: its string starts with `-` and ends with a digit |
| Number.DigitPalindromic | core/src/number.ts:40-47 | every number from 0 to 9 is a palindrome |
| Number.BitAndSelf | core/src/number.ts:71 | `n & n` is `n` |
| Number.ClearLowestBit | core/src/number.ts:71 | `n & (n - 1)` is zero exactly when `n` is a power of two |
| Number.BitAndOdd | core/src/number.ts:71 | for odd `n`, `n & (n - 1)` is `n - 1` |
| Number.OddNotPower | core/src/number.ts:71 | an odd number above 1 is no power of two |
| Number.BitAndEven | core/src/number.ts:71 | for even `n`, `n & (n - 1)` is twice the same for `n / 2` |
| Number.PowerHalf | core/src/number.ts:71 | an even number above 1 is a power of two exactly when its half is |
| Number.Low32 | core/src/number.ts:71 | `ToUint32` lies below 2^32 and keeps the numbers already there |
| Number.IsPowerOfTwoExact | core/src/number.ts:70-72 | true exactly for positive integers of the form 2^k |
| Number.PowerOfTwoBelow32 | core/src/number.ts:70-72 | below 2^32 the 32-bit test answers exactly whether the number is a power of two |
| Number.PowerOfTwoWraps | core/src/number.ts:70-72 | `isPowerOfTwo(2 ** 32 + 1)` is true, while 2^32 + 1 is no power of two |
| Number.Max | core/src/number.ts:82 | `Math.max` of two integers is one of them and at least both; `NaN` in gives `NaN` |
| Number.Min | core/src/number.ts:82 | `Math.min` of two integers is one of them and at most both; `NaN` in gives `NaN` |
| Number.Clamp | core/src/number.ts:81-83 | with `min <= max` the result lies between them, and is `num` when `num` already does, else the bound it passed; with `max < min` the result is `max`; `NaN` in gives `NaN` |
| Number.InRange | core/src/number.ts:92-94 | true exactly for integers with `min <= num <= max`; `NaN` anywhere gives false |
| Number.ClampInRange | core/src/number.ts:81-94 | a clamped value is in range, clamping leaves exactly the values in range unchanged, and clamping twice is clamping once |
| NumberChinese.WriteDigit | core/src/number.ts:130-148 | one loop step appends the digit part (a single `零` at most) and the level part |
| NumberChinese.NumberToChinese | core/src/number.ts:118-163 | the loop and the three rewrites compute the numeral the digit-by-digit definition gives |
| NumberChinese.StripZeros | core/src/number.ts:152 | the result does not end in `零` |
| NumberChinese.ReadAppend | core/src/number.ts:118-163 | reading a numeral piece by piece is reading it whole |
| NumberChinese.ReadNoZeros | core/src/number.ts:138-140 | a `零` does not change the value read |
| NumberChinese.StripZerosNoZeros | core/src/number.ts:152 | removing trailing `零` does not change the value |
| NumberChinese.DropZeroLevelsNoZeros | core/src/number.ts:160 | removing the `零` before `万` and `亿` does not change the value |
| NumberChinese.FixTenReads | core/src/number.ts:155-157 | `一十` at the front and `十` read alike |
| NumberChinese.FinishReads | core/src/number.ts:151-160 | the three rewrites keep the value of the numeral |
| NumberChinese.BuildReads | core/src/number.ts:129-149 | the numeral the corrected loop builds reads as the number of its digits |
| NumberChinese.ChineseRoundTrip | core/src/number.ts:118-163 | the corrected numeral of every `n` below 10^12 reads back as `n` |
| NumberChinese.AgreesBelow100000000 | core/src/number.ts:118-163 | below 10^8 the source's numeral and the corrected one are the same |
| NumberChinese.LevelWithoutGroup | core/src/number.ts:146-148 | `numberToChinese(100000000)` is `一亿万`: a `万` is written for an all-zero group |
| NumberChinese.LevelWithoutGroupUnread | core/src/number.ts:146-148 | `一亿万` is no well-formed numeral |
| NumberChinese.LevelSkipped | core/src/number.ts:146-148 | the corrected numeral of 100000000 is `一亿` |
| NumberChinese.Example12345 | core/src/number.ts:114 | `numberToChinese(12345)` is `一万二千三百四十五` |
| NumberChinese.Example100002 | core/src/number.ts:115 | `numberToChinese(100002)` is `十万零二` |
| NumberChinese.Example10000000 | core/src/number.ts:116 | `numberToChinese(10000000)` is `一千万` |
| NumberChinese.ResultShape | core/src/number.ts:136-160 | for `0 < n < 10^12` both numerals are non-empty, never end in `零`, and never have two `零` in a row |
| ColorGrammar.MatchesHex | core/src/color/_utils.ts:1 | the test holds exactly for `#` followed by three or six hex digits |
| ColorGrammar.ReadField | core/src/color/_utils.ts:2-4 | reading `\s* token unit \s*` splits off exactly a field of the wanted class, and stops where neither could go on |
| ColorGrammar.ReadFieldText | core/src/color/_utils.ts:2-4 | a field written out before a character it cannot absorb is read back as itself |
| ColorGrammar.ParseRgb | core/src/color/_utils.ts:2-3 | whatever the parser returns is a match that spells its input |
| ColorGrammar.ParseRgbComplete | core/src/color/_utils.ts:2-3 | every match is found in the text it spells |
| ColorGrammar.ParseRgbNone | core/src/color/_utils.ts:2-3 | the parser fails exactly when no match spells the input |
| ColorGrammar.ParseRgbUnique | core/src/color/_utils.ts:2-3 | a string is spelled by one match at most |
| ColorGrammar.ParseHsl | core/src/color/_utils.ts:4 | whatever the parser returns is a match that spells its input |
| ColorGrammar.ParseHslComplete | core/src/color/_utils.ts:4 | every match is found in the text it spells |
| ColorGrammar.ParseHslNone | core/src/color/_utils.ts:4 | the parser fails exactly when no match spells the input |
| ColorGrammar.ParseHslUnique | core/src/color/_utils.ts:4 | a string is spelled by one match at most |
| HexDigits.ParseByte2 | core/src/color/rgbToHex.ts:21-22 | the two hex digits of a byte read back as the byte |
| HexDigits.Byte2Parse | core/src/color/hexToRgb.ts:16-18 | two hex digits are a byte, and writing it gives the digits in lower case |
| HexDigits.NatHexByte | core/src/color/rgbToHex.ts:22 | `(m * 256 + b).toString(16)` is `m.toString(16)` followed by the two digits of `b` |
| HexDigits.ParseHexSplit | core/src/color/hexToRgb.ts:16 | the value of a hex string is the value of its front shifted past its back |
| Color.IsHexColor | core/src/color/isHexColor.ts:8-10 | true exactly for a string that is `#` and three or six hex digits |
| Color.PrefixOfMatch | core/src/color/isRgbColor.ts:14 | `indexOf('rgba') === 0` on a match's text says exactly whether the prefix was `rgba` |
| Color.RgbMatchIff | core/src/color/isRgbColor.ts:11-22 | the parser's match is accepted exactly when some accepted match of the grammar exists |
| Color.IsRgbColor | core/src/color/isRgbColor.ts:8-23 | true exactly for a string the rgb grammar matches, with an alpha exactly when the prefix is `rgba`, and channels of at most 255 |
| Color.HslMatchIff | core/src/color/isHslColor.ts:9-15 | the parser's match is accepted exactly when some accepted match exists |
| Color.IsHslColor | core/src/color/isHslColor.ts:6-16 | true exactly for a string the hsl grammar matches with hue at most 360 and saturation and lightness at most 100 |
| Color.SixDigits | core/src/color/hexToRgb.ts:11-15 | a hex colour stands for six hex digits |
| Color.HexDigitsOf | core/src/color/hexToRgb.ts:11-15 | doubling every digit of a three-digit colour and dropping `#` gives those six digits |
| Color.ByteGroups | core/src/color/hexToRgb.ts:16-18 | the shifts and masks take out the value of each two-digit group |
| Color.HexToRgb | core/src/color/hexToRgb.ts:8-18 | throws exactly for a non-hex colour; otherwise the channels are the values of the three two-digit groups, each a byte |
| Color.DigitRuns | core/src/color/rgbToHex.ts:14 | `match(/\d+/g)` gives non-empty runs of digits |
| Color.Requested | core/src/color/rgbToHex.ts:12-18 | only a string without digits leaves `rgb` undefined, so reading from it throws |
| Color.HexOfValues | core/src/color/rgbToHex.ts:16-24 | three bytes give `#` and two lower-case hex digits each; anything else throws `Invalid RGB color` |
| Color.RgbToHex | core/src/color/rgbToHex.ts:11-25 | a string without digits throws on the read; otherwise the values requested decide as above |
| Color.HexFields | core/src/color/rgbToHex.ts:22 | `((1 << 24) + (r << 16) + (g << 8) + b).toString(16).slice(1)` is the three bytes as two hex digits each |
| Color.ArrayAsNumbers | core/src/color/rgbToHex.ts:12 | the array overload and the three-number overload agree |
| Color.NumbersAccepted | core/src/color/rgbToHex.ts:16-24 | three numbers are written exactly when each is a byte, and a number left out throws |
| Color.BytesRoundTrip | core/src/color/rgbToHex.ts:11-25 | writing three bytes gives a hex colour that `hexToRgb` reads back as them |
| Color.HexRoundTrip | core/src/color/hexToRgb.ts:8-18 | reading a hex colour and writing it again gives its six digits in lower case |
| Color.CssAsNumbers | core/src/color/rgbToHex.ts:13-15 | the string overload reads `rgb(r, g, b)` and `rgba(r, g, b, a)` as their three channels |
| Color.AlphaOf | core/src/color/colorRgb.ts:30 | `parseFloat` of an alpha token is the exact value of the token, in canonical form |
| Color.TrailingZerosValue | core/src/color/colorRgb.ts:30 | trailing zeros do not change a fraction's value |
| Color.LeadingZeros | core/src/color/colorRgb.ts:33 | the number of zeros an alpha's digits start with, all of them zeros and the next one not |
| Color.Exponential | core/src/color/colorRgb.ts:33 | the exponent form `m.mmme-n` that `${a}` writes below `1e-6` contains the letter `e` |
| Color.AlphaRoundTrip | core/src/color/colorRgb.ts:30-33 | an alpha of `1e-6` or more, written with `${a}`, reads back as itself; a smaller one is written in exponent form, which is no alpha token |
| Color.ColorRgb | core/src/color/colorRgb.ts:12-41 | throws `Invalid color` exactly for neither hex nor rgb; a hex colour gives its three channels whatever `type` asks; otherwise the channels, all bytes |
| Color.ColorRgbOfMatch | core/src/color/colorRgb.ts:19-38 | an accepted rgb match reads as its channels and alpha, in the shape `type` asks for |
| Color.RgbTextNoE | core/src/color/_utils.ts:2-3 | no string the rgb pattern matches contains the letter `e` |
| Color.ExponentUnread | core/src/color/colorRgb.ts:30-33 | a css string written with an alpha below `1e-6` is neither a hex nor an rgb colour |
| Color.CssReads | core/src/color/colorRgb.ts:26-37 | the css string `colorRgb` writes reads back as the same channels and alpha, unless the alpha is below `1e-6`, and then reading it throws `Invalid color` |
| Color.StringNormalises | core/src/color/colorRgb.ts:25-37 | asking for the css string of an rgb colour succeeds, and reading it again agrees with reading the input, unless the alpha is below `1e-6`, and then the second read throws |
| Color.IsDarkColor | core/src/color/isDarkColor.ts:8-14 | throws exactly for neither hex nor rgb; otherwise dark exactly when `299 r + 587 g + 114 b < 128000` |
| Color.IsLightColor | core/src/color/isLightColor.ts:7-9 | throws exactly when `isDarkColor` does; otherwise light exactly when not dark |
| Color.Greys | core/src/color/isDarkColor.ts:11-13 | a grey written by `colorRgb` is dark exactly below 128 and light exactly from 128; with an alpha below `1e-6` the test throws |
| Color.DarkerStaysDark | core/src/color/isDarkColor.ts:11-13 | lowering channels keeps a dark colour dark |
| Color.Inverse | core/src/color/colorComplementary.ts:9 | the complement of each channel adds up with it to 255, and keeps bytes bytes |
| Color.ColorComplementary | core/src/color/colorComplementary.ts:7-11 | throws exactly when `colorRgb` does; otherwise an rgb colour whose channels are the complements |
| Color.ComplementaryTwice | core/src/color/colorComplementary.ts:7-11 | the complement of the complement is the colour itself |
| ColorExamples.HexCaseInsensitive | core/src/color/hexToRgb.ts:8-18 | two hex colours equal up to the case of their digits give the same channels |
| ColorExamples.HexCaseExample | core/src/color/hexToRgb.ts:16-18 | `#ABCDEF` and `#abcdef` both give `[171, 205, 239]` |
| ColorExamples.HexExamples | core/src/color/__tests__/color.test.ts:27-38 | `#fff` and `#123456` are hex colours; `''`, `#12`, `#1234567`, `#xyz` and `123456` are not |
| ColorExamples.ShortHexExample | core/src/color/__tests__/color.test.ts:122 | `#fff` gives `[255, 255, 255]` |
| ColorExamples.RgbToHexExample | core/src/color/__tests__/color.test.ts:138 | `rgbToHex(123, 45, 67)` is `#7b2d43` |
| ColorExamples.ComplementaryExample | core/src/color/__tests__/color.test.ts:302-303 | the complement of `rgb(100, 150, 200)` is `rgb(155, 105, 55)` |
| ColorExamples.RgbOnlyMatch | core/src/color/isRgbColor.ts:8-23 | a string covered by a match is an rgb colour exactly when that match is accepted |
| ColorExamples.HslOnlyMatch | core/src/color/isHslColor.ts:6-16 | a string covered by a match is an hsl colour exactly when that match is accepted |
| ColorExamples.RgbOutOfRange | core/src/color/__tests__/color.test.ts:58 | `rgb(256, 0, 0)` is no rgb colour |
| ColorExamples.TinyAlphaExample | core/src/color/colorRgb.ts:30-33 | the alpha `0.0000001` is written `1e-7` and `0.000001` is written out; `rgba(0, 0, 0, 1e-7)` is rejected |
| ColorExamples.RgbaWithoutAlpha | core/src/color/__tests__/color.test.ts:61 | `rgba(0, 0, 0)` is no rgb colour |
| ColorExamples.HslHue | core/src/color/__tests__/color.test.ts:71-78 | `hsl(360, 100%, 100%)` is an hsl colour and `hsl(361, 0%, 0%)` is not |
| ColorExamples.ShortGrey | core/src/color/hexToRgb.ts:11-18 | a three-digit colour of one repeated digit is the grey whose channels are 17 times that digit |
| ColorExamples.DarkHexExamples | core/src/color/__tests__/color.test.ts:88-96 | `#000` and `#444` are dark, `#fff` and `#ccc` are not |
| ColorExamples.DarkRgbExamples | core/src/color/__tests__/color.test.ts:89-95 | `rgb(50, 50, 50)` is dark and `rgb(200, 200, 200)` is not |

## Left out

- I/O, timers, schedulers, the DOM, randomness, `cloneJSON`, `isType`, `isObject` and `isPromiseLike` are not part of this model.
- Floating point is not modelled. Numbers are integers or `NaN`, with no fractions, infinities or `-0`. So the model has no `lerp`, `isPerfectSquare`, `isPerfectCube`, `isValidNumber` or `formatNumber`. It also has no float colour maths: `setColorOpacity`, luminance, contrast, mixing, lightening and darkening are not part of this model.
- `Number.IsPalindrome`: `toString()` is modelled for integers only, so exponent forms and fractions are not covered.
- `NumberChinese.NumberToChinese`: inputs from 10^12 up are left out. `chineseLevels` has no entry beyond `亿`, and the number's string there is not modelled.
- `NumberChinese.NumberToChinese`: the input is a natural number, so negative inputs are left out. The source reads the `-` sign as a digit with its own unit, and `chineseNumbers[NaN]` is `undefined`, so `-15` gives `undefined百一十五`.
- `Color.RgbToHex`: the numbers are integers. `parseInt` on a non-integral number or an exponent form is not modelled.
- `Color.ColorRgb`: hex colours come back as the three-element array whatever `type` asks for, because `type` passed to `hexToRgb` is ignored there. The `format` argument of a typed `hexToRgb` call is not modelled.
- `Color.AlphaOf`: the alpha is kept as its exact decimal value. Rounding of long fractions that a double cannot hold is not modelled.
- `Color.Yiq`: the brightness is computed exactly. The comparison is decided through the integer sum, which agrees with the double arithmetic for byte channels.
- `CloneDeep.DeepClone`: accessor properties are copied as data properties. In the source, `descriptor.value = ...` adds a `value` to a getter/setter descriptor, so `Object.defineProperties` throws a `TypeError` for any object with an accessor property. The model does not throw there.
- CloneDeep: `cloneSymbol` is out (unused by `deepClone`). Symbol-keyed properties are copied with the same symbol key.
- `Clone.Clone`: `Date` and `RegExp` are told apart by node kind, not by `instanceof`. An ordinary object inheriting from `Date.prototype` or `RegExp.prototype` is cloned as a plain object in the model, where the source's `new Date(obj)` or `new RegExp(obj)` throws or gives an invalid date.
- `Clone.CloneValue`: the same `instanceof` restriction as `Clone.Clone`.
- `Clone.Clone`: heap arrays are dense and have no named properties. The source's `for ... in` loop also copies a named property of an array, and skips holes.
- `CloneLoop.CloneLoop`: the same `instanceof` restriction as `Clone.Clone`, for `Date` and `RegExp`. Heap arrays are dense and have no named properties, which the source's `Object.keys` would also copy.
- Prototype setters and exotic objects (proxies, class instances with private state) are not modelled. A prototype is only a reference that the clone keeps.
- `CloneDeep.DeepClone`: objects are filled through the corrected descriptor collection. An own property named `__proto__` reaches the clone, which the source loses (see Findings and `CloneDeepProto.ProtoDescriptorLost`).
- `CloneDeep.DeepCloneValue`: the same corrected descriptor collection as `CloneDeep.DeepClone`, so an own `__proto__` property is kept.
- `CloneDeep.DeepClone`: the branch is chosen by the kind of the heap node, not by `instanceof`. An ordinary object whose prototype is `Date.prototype`, `RegExp.prototype`, `Map.prototype`, `Set.prototype`, `ArrayBuffer.prototype` or `DataView.prototype` is not modelled; the source calls the built-in methods on it and throws.
- `CloneDeep.DeepCloneValue`: the same `instanceof` restriction as `CloneDeep.DeepClone`. For example `cloneDeep(clone(new Map([[1, 2]])))` throws in the source, since `clone` gives a plain object with `Map.prototype`.
- `CloneDeep.FillArray`: heap arrays are dense and have no named properties. The source's index loop gives `undefined` for a hole and drops any named property of the array.
- `CloneDeep.DeepClone`: a `DataView` branch calls the buffer copy directly. The source's `deepClone(target.buffer)`, made with a fresh `WeakMap`, reaches the buffer branch at once.
- The heap is a value that methods take and return, not a mutable JavaScript heap. Aliasing between the caller's references and the clone is expressed through the `WeakMap` correspondence, not by in-place updates.
- `Assign.Assign`: `Object.assign` is used when the engine has it. The model is the fallback loop, which copies only string-keyed properties and writes plain values. The native function also copies symbol keys and calls setters.
- `ListToTree.ListToTree`: an id or parent id that names a member of `Object.prototype` (`toString`, `constructor`, `hasOwnProperty`, `__proto__`, ...) is not modelled. The source's lookup table is a plain `{}`, so such a parent id finds an inherited function and `push` throws, and an id `__proto__` replaces the table's prototype.
- `ListToTree.Link`: the same restriction on ids naming `Object.prototype` members as `ListToTree.ListToTree`.
- `ListToTree.SecondPass`: the same restriction on ids naming `Object.prototype` members as `ListToTree.ListToTree`.
- `ListToTree.OrphanDropped`: a parent id naming an `Object.prototype` member is not an orphan in the source but a `TypeError`; such ids are not modelled.
- `ListToTree.ListToTree`: ids and parent ids must be primitives or plain objects. The property key of an array or function id (its joined elements, or its source text) is not modelled.
- `TreeToList.TreeToList`: a `transform` whose result is the node itself, or shares its children array, is not modelled. With `n => n`, `delete newNode[childrenKey]` removes the children from the input node, so no descendant is listed and the input is changed.
- `TreeToList.TreeToList`: a `childrenKey` that is an array index is excluded. With one, a one-character string node is its own child and the source never ends.
- `TransformTree.TransformTree`: a `transformer` that returns the same object for several nodes is not modelled. The source writes the children onto that object in place, so a later node overwrites what an earlier one got.
- `TransformTree.TransformTree`: `console.warn` is not modelled. A property written onto an array item is not part of the value model.
- `FindPath.FindPath`: the target is a validator or a primitive. An object target, which the source compares by identity with `node[key] === value`, is not modelled.
- `JsData.Elements`: an array-like's `length` counts only when it is a positive integer. The source's coercion of other lengths (a string `'2'`, a fraction) is not modelled.
- `JsData.Spread`: a string is a sequence of code points. JavaScript indexes UTF-16 units, so a character outside the Basic Multilingual Plane spreads into two keys there and one here.
- `JsData.IndexFieldsHold`: the same code-point reading of strings as `JsData.Spread`; `assign({}, '😀')` has two keys in the source.
- `JsData.IndexFieldsKeys`: the same code-point reading of strings as `JsData.Spread`.
- `Assign.StringSource`: the same code-point reading of strings as `JsData.Spread`.
- Callbacks (`transform`, `isRoot`, `filter`, `transformer`, validators) are total functions of one value. Callbacks that throw, or that mutate their argument, are not modelled.

## Findings

| source | as written | input that shows it | evidently intended | confidence | as-written member | corrected member |
|---|---|---|---|---|---|---|
| core/src/collection/cloneDeep.ts:145-151 | descriptors are collected with `acc[prop] = descriptor` on a plain `{}`, so the key `__proto__` sets the accumulator's prototype instead of adding an entry | an object with an own `__proto__` property, e.g. `JSON.parse('{"__proto__": 1}')` | every own descriptor reaches the clone | not executed | CloneDeepProto.ProtoDescriptorLost | CloneDeep.FillObject |
| core/src/number.ts:70-72 | `num & (num - 1)` works on the low 32 bits, so numbers of 2^32 and above are tested modulo 2^32 | `isPowerOfTwo(2 ** 32 + 1)` is true | true exactly for powers of two | not executed | Number.PowerOfTwoWraps | Number.IsPowerOfTwoExact |
| core/src/number.ts:26-34 | every comparison with `NaN` is false, so all the early returns are skipped and the function returns true | `isPrime(NaN)` is true | false for anything but a prime integer | not executed | Number.PrimeNaN | Number.IsPrimeChecked |
| core/src/number.ts:146-148 | the level `万` is appended after a group of four zeros as well | `numberToChinese(100000000)` is `一亿万` | `一亿` | not executed | NumberChinese.LevelWithoutGroup | NumberChinese.LevelSkipped |
