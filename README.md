# MapNode in Dafny

MapNode wraps a `Map<String, Object>` parsed from YAML or JSON. Nested values are read,
written and removed by paths such as `"list.key"` or `"keyldren.0"`, split on a separator
held in a `MapNodeOptions` object. On top of that path engine sit typed getters:
`getString`, `getInteger`, `getDouble`, `getBoolean`, `getMapNode`, `getList` and the
typed list getters. Each getter takes its default from the options and converts what it
finds with a converter (`IntegerConverter`, `BooleanConverter`, `StringConverter`,
`MapNodeConverter`, applied element-wise by `CollectionConverter`). `EasyHashMap` builds a
map from an alternating list of keys and values.

The model:

- `Tree` (tree.dfy) — the document values (`Str | Int | Bool | Null | List | Map`).
  - Java `null`, stored or missing, is `Null`.
  - A path step into a list goes through the synthetic map `"0", "1", …`.
  - Addresses and edits inside the tree.
  - Java's `toString` of a value (ghost, since a `HashMap`'s entry order is unspecified).
- `Decimal` (decimal.dfy) — `Integer.toString` and `Integer.parseInt`.
  - The plain decimal literals that `Double.parseDouble` reads, truncated toward zero.
  - The saturating `(int)` cast.
- `Paths` (paths.dfy) — `String.split` on a quoted one-character separator, which drops
  trailing empty pieces.
- `Engine` (engine.dfy) — `getObject`, `setObject` and `removeObject`, each as a function
  of the base, the separator and the path.
  - `setObject`'s walk keeps a `Cursor`: the address of a map in the tree, a list's
    synthetic map, or a map outside the tree. Only puts through the first reach the base.
  - `removeObject` gives a `Result`, so the `NullPointerException` it throws at a missing
    intermediate is part of the model.
- `EngineLaws` (engine_laws.dfy) and `Scenarios` (scenarios.dfy) — what the engine
  promises and how its quirks behave. Scenarios holds the cases the repository's tests
  exercise, stated for all bases and keys.
- `Options` (options.dfy) — the `MapNodeOptions` class: fluent setters, the separator
  check, `clone` and `equals`.
- `Node` (mapnode.dfy) — the `MapNode` class.
  - Fields `base` and `options`.
  - `GetObject`, `SetObject` and `RemoveObject` are loops over the split path. Each is
    proved equal to its `Engine` function.
  - Also `Reset`, `Clone` and `Equals`.
- Converters (integer_converter.dfy, boolean_converter.dfy, string_converter.dfy,
  double_converter.dfy, mapnode_converter.dfy, collection_converter.dfy) — one module
  each.
  - `CollectionConverter.Transform` appends to a caller's collection in a loop.
  - Integer and boolean conversion are defined by the kind of value, and proved equal to
    conversion through `toString`.
- `Getters` (getters.dfy) and `GetterLaws` (getter_laws.dfy) — the typed getters, as
  functions of a `View` (a base and the option values, view.dfy), and what they promise.

## Model

| member | source | states |
|---|---|---|
| Node.BuildSynthetic | src/main/java/com/yetanotherx/mapnode/MapNode.java:143-149 | the loop builds exactly the synthetic map of the list: key `Integer.toString(i)` bound to element i, for every position and no other key |
| Node.MapNode.constructor | src/main/java/com/yetanotherx/mapnode/MapNode.java:38-41 | an empty base and fresh default options |
| Node.MapNode.WithBase | src/main/java/com/yetanotherx/mapnode/MapNode.java:49-52 | the given base and fresh default options |
| Node.MapNode.WithOptions | src/main/java/com/yetanotherx/mapnode/MapNode.java:61-64 | the given base and the caller's own options object, shared |
| Node.MapNode.GetObject | src/main/java/com/yetanotherx/mapnode/MapNode.java:118-169 | the loop over the segments returns what `Engine.Resolve` defines for the base, the separator and the path |
| Node.MapNode.SetObject | src/main/java/com/yetanotherx/mapnode/MapNode.java:193-246 | the base afterwards is `Engine.Store` of the old base, writes reaching the tree only through the map cursor; the options are untouched and stay valid |
| Node.MapNode.RemoveObject | src/main/java/com/yetanotherx/mapnode/MapNode.java:269-302 | when `Engine.Remove` succeeds, the call passes and the base is its result; when it fails, the call throws that exception and the base is unchanged |
| Node.MapNode.Reset | src/main/java/com/yetanotherx/mapnode/MapNode.java:900-902 | the base is empty and the options object is the same |
| Node.MapNode.Clone | src/main/java/com/yetanotherx/mapnode/MapNode.java:914-922 | a new node with a new options object, equal base contents and equal option values, equal to the original in both directions |
| Node.MapNode.Equals | src/main/java/com/yetanotherx/mapnode/MapNode.java:932-948 | holds exactly when the other node is non-null and has the same base contents and the same option values |
| Engine.Separated | src/main/java/com/yetanotherx/mapnode/MapNode.java:123 | the empty separator is in every path; a one-character separator is in the path exactly when splitting on it, empty pieces kept, gives more than one piece |
| Engine.Chars | src/main/java/com/yetanotherx/mapnode/MapNode.java:125 | with the empty separator the path splits into its characters, one per piece |
| Engine.Walk | src/main/java/com/yetanotherx/mapnode/MapNode.java:127-161 | the walk over the segments never returns a list once a segment has been read, and with no segments left returns what was found last |
| Engine.Resolve | src/main/java/com/yetanotherx/mapnode/MapNode.java:118-169 | a path containing the separator never reads a list |
| Engine.SetWalk | src/main/java/com/yetanotherx/mapnode/MapNode.java:202-238 | the walk keeps the root a map and never loses a key of it |
| Engine.Store | src/main/java/com/yetanotherx/mapnode/MapNode.java:193-246 | every key of the base survives a write, except when the empty key with a map value replaces the base |
| Engine.RemoveWalk | src/main/java/com/yetanotherx/mapnode/MapNode.java:278-294 | a successful removal walk keeps the root a map and only drops keys |
| Engine.Remove | src/main/java/com/yetanotherx/mapnode/MapNode.java:269-302 | a removal never adds keys; a path without the separator always succeeds and its key is gone afterwards |
| Paths.RawSplit | src/main/java/com/yetanotherx/mapnode/MapNode.java:125 | at least one piece, and no piece holds the separator |
| Paths.StripTrailingEmpty | src/main/java/com/yetanotherx/mapnode/MapNode.java:125 | the result is a prefix of the pieces that ends in a non-empty piece, and only empty pieces were dropped |
| Paths.JoinRawSplit | src/main/java/com/yetanotherx/mapnode/MapNode.java:125 | joining the pieces with the separator gives the path back |
| Paths.RawSplitJoin | src/main/java/com/yetanotherx/mapnode/MapNode.java:125 | pieces without the separator, joined and split, come back |
| Paths.SplitJoin | src/main/java/com/yetanotherx/mapnode/MapNode.java:125 | the same when the last piece is non-empty, for the split that drops trailing empty pieces |
| Paths.JoinHasSeparator | src/main/java/com/yetanotherx/mapnode/MapNode.java:123 | two or more pieces joined contain the separator, so the path takes the separated branch |
| Paths.NoSegmentsIffOnlySeparators | src/main/java/com/yetanotherx/mapnode/MapNode.java:125 | the split gives no segments exactly when the path is made only of separators |
| Paths.RawSplitSingle | src/main/java/com/yetanotherx/mapnode/MapNode.java:123-125 | the raw split has a single piece exactly when the path lacks the separator |
| Paths.JoinSplitPath | src/main/java/com/yetanotherx/mapnode/MapNode.java:125 | the segments hold no separator, the last is not empty, and joined with the separator they give the path up to a final run of separators |
| EngineLaws.WalkAlongMaps | src/main/java/com/yetanotherx/mapnode/MapNode.java:129-139 | along a chain of maps the read returns the value at the address, a list as its synthetic map |
| EngineLaws.WalkThroughMissing | src/main/java/com/yetanotherx/mapnode/MapNode.java:129-133 | along a chain of maps, the read ends with null at the first step that finds nothing, whatever segments follow |
| EngineLaws.SetWalkAlongMaps | src/main/java/com/yetanotherx/mapnode/MapNode.java:204-217 | along a chain of maps the write is a single put into the last map of the chain |
| EngineLaws.RemoveWalkAlongMaps | src/main/java/com/yetanotherx/mapnode/MapNode.java:280-289 | along a chain of maps the removal is a single remove from the last map of the chain |
| EngineLaws.ChainSplit | src/main/java/com/yetanotherx/mapnode/MapNode.java:125 | a path along maps splits into the intermediate keys, all maps, and a last key |
| EngineLaws.GetAlongMaps | src/main/java/com/yetanotherx/mapnode/MapNode.java:118-161 | `getObject` of a path along maps is the value at its address |
| EngineLaws.PutThenGet | src/main/java/com/yetanotherx/mapnode/MapNode.java:204-210 | along existing maps `setObject(p, v)` is one put into the last map, and `getObject(p)` then returns `v` (a list as its synthetic map) |
| EngineLaws.PutFrame | src/main/java/com/yetanotherx/mapnode/MapNode.java:208 | after such a write, every address that neither extends nor is a prefix of the path holds what it held before |
| EngineLaws.RemoveThenGet | src/main/java/com/yetanotherx/mapnode/MapNode.java:283-285 | along existing maps `removeObject(p)` is one remove from the last map, and `getObject(p)` then returns null |
| EngineLaws.ReadThroughMissing | src/main/java/com/yetanotherx/mapnode/MapNode.java:129-133 | `getObject` reads null when a segment finds nothing, at any depth of a chain of maps and whatever segments follow |
| EngineLaws.RemoveThroughMissing | src/main/java/com/yetanotherx/mapnode/MapNode.java:281-289 | a missing intermediate makes the next step throw `NullPointerException` |
| EngineLaws.RemoveThroughNonMap | src/main/java/com/yetanotherx/mapnode/MapNode.java:288-292 | a list or scalar intermediate ends the call with the base unchanged |
| EngineLaws.RemoveWalkPrefix | src/main/java/com/yetanotherx/mapnode/MapNode.java:280-292 | the removal through a chain of maps continues from the end of the chain |
| EngineLaws.DetachedWritesLost | src/main/java/com/yetanotherx/mapnode/MapNode.java:213-236 | once the walk is in a map outside the tree, nothing it does reaches the base |
| EngineLaws.FlatListWritesLost | src/main/java/com/yetanotherx/mapnode/MapNode.java:218-228 | below a list of scalars and nulls, a write is lost and the base is unchanged |
| EngineLaws.OnlySeparators | src/main/java/com/yetanotherx/mapnode/MapNode.java:125-161 | a path of separators only reads null and changes nothing on write or remove |
| EngineLaws.TrailingSeparator | src/main/java/com/yetanotherx/mapnode/MapNode.java:125 | a trailing separator is dropped: `"k."` reads what `"k"` holds, a list as its synthetic map |
| EngineLaws.SeparatedReadNeverList | src/main/java/com/yetanotherx/mapnode/MapNode.java:140-151 | no path containing the separator reads a list |
| EngineLaws.FlatKeyRoundTrip | src/main/java/com/yetanotherx/mapnode/MapNode.java:162-168 | a key without the separator reads back what was set and null after a removal, and other keys are untouched |
| Tree.Synthetic | src/main/java/com/yetanotherx/mapnode/MapNode.java:143-149 | the keys are the decimal positions of the list, each bound to its element, and lookup agrees with list indexing |
| Decimal.NatToString | src/main/java/com/yetanotherx/mapnode/MapNode.java:147 | the decimal text is non-empty, digits only, without leading zeros |
| Decimal.NatToStringInjective | src/main/java/com/yetanotherx/mapnode/MapNode.java:147 | distinct positions give distinct keys |
| Decimal.IntToString | src/main/java/com/yetanotherx/mapnode/converter/StringConverter.java:22 | an integer's text is non-empty and starts with '-' or a digit |
| Decimal.ParseInt | src/main/java/com/yetanotherx/mapnode/converter/IntegerConverter.java:25 | an accepted text is an optional sign and then digits only, and the decimal reading of every accepted text is the same number, so the fallback never disagrees with `parseInt` |
| Decimal.TruncatedDecimal | src/main/java/com/yetanotherx/mapnode/converter/IntegerConverter.java:28 | a text read as a decimal literal holds a digit, and a negative reading starts with `-` |
| Decimal.IntToStringParses | src/main/java/com/yetanotherx/mapnode/converter/IntegerConverter.java:25-28 | `parseInt` reads an integer's text back exactly when it is in int range; the decimal reading always does |
| Decimal.SaturatingCast | src/main/java/com/yetanotherx/mapnode/converter/IntegerConverter.java:28 | the `(int)` cast lands in int range, keeps in-range values and clamps the others to the nearer bound |
| Decimal.PositiveLiteral | src/main/java/com/yetanotherx/mapnode/converter/IntegerConverter.java:28 | `digits.digits` is refused by `parseInt` and read as its whole part |
| Decimal.NegativeLiteral | src/main/java/com/yetanotherx/mapnode/converter/IntegerConverter.java:28 | `-digits.digits` is refused by `parseInt` and read as minus its whole part |
| Decimal.NoDigitsNoNumber | src/main/java/com/yetanotherx/mapnode/converter/IntegerConverter.java:25-30 | a text without digits is no number for either parse |
| Decimal.NotNumberStart | src/main/java/com/yetanotherx/mapnode/converter/IntegerConverter.java:25-30 | a text starting with something other than a sign, a dot or a digit is no number for either parse |
| Tree.Render | src/main/java/com/yetanotherx/mapnode/converter/StringConverter.java:22 | `toString` of a list is delimited by `[` and `]`, of a map by `{` and `}`; an integer's starts with `-` or a digit; only a text can render empty |
| IntegerConverter.Transform | src/main/java/com/yetanotherx/mapnode/converter/IntegerConverter.java:19-33 | an integer converts to its saturated value; only texts and integers convert to anything |
| IntegerConverter.ByText | src/main/java/com/yetanotherx/mapnode/converter/IntegerConverter.java:19-33 | `transform` as written, through `toString`: an integer gives its saturated value, and only texts and integers give anything but null |
| IntegerConverter.TextOfKind | src/main/java/com/yetanotherx/mapnode/converter/IntegerConverter.java:25-30 | the text of an integer parses to its saturated value; the text of a boolean, a list or a map is no number for either parse |
| IntegerConverter.TransformIsByText | src/main/java/com/yetanotherx/mapnode/converter/IntegerConverter.java:25-28 | converting by kind equals parsing the value's `toString`, for every value |
| IntegerConverter.IntRoundTrip | src/main/java/com/yetanotherx/mapnode/converter/IntegerConverter.java:25 | an int-range integer and its decimal text both convert to that integer (`"1"` gives 1) |
| IntegerConverter.DecimalTruncates | src/main/java/com/yetanotherx/mapnode/converter/IntegerConverter.java:28 | a decimal literal converts to its signed whole part, truncated toward zero (`"0.3"` gives 0) |
| IntegerConverter.NoDigitsGivesNull | src/main/java/com/yetanotherx/mapnode/converter/IntegerConverter.java:30 | text without digits (`"text"`, `""`) converts to null, not 0 |
| BooleanConverter.Transform | src/main/java/com/yetanotherx/mapnode/converter/BooleanConverter.java:17-23 | null exactly for null; true exactly for `true` or a text spelling "true" in any case; false for everything else |
| BooleanConverter.ParseBoolean | src/main/java/com/yetanotherx/mapnode/converter/BooleanConverter.java:22 | `parseBoolean` is true exactly for the sixteen spellings of "true" in upper and lower case |
| BooleanConverter.ByText | src/main/java/com/yetanotherx/mapnode/converter/BooleanConverter.java:17-23 | `transform` as written, through `toString`: null exactly for null, true exactly for `true` or a text spelling "true" in any case |
| BooleanConverter.TextOfKind | src/main/java/com/yetanotherx/mapnode/converter/BooleanConverter.java:22 | the text of an integer, a list or a map never reads as true |
| BooleanConverter.TransformIsByText | src/main/java/com/yetanotherx/mapnode/converter/BooleanConverter.java:22 | converting by kind equals `parseBoolean` of the value's `toString` |
| BooleanConverter.BoolRoundTrip | src/main/java/com/yetanotherx/mapnode/converter/BooleanConverter.java:22 | a boolean and its text both convert to that boolean |
| StringConverter.Transform | src/main/java/com/yetanotherx/mapnode/converter/StringConverter.java:17-23 | null exactly for null; a text as it is; an integer in decimal; a boolean as "true"/"false"; a list's text starts with '[' and a map's with '{' |
| DoubleConverter.Transform | src/main/java/com/yetanotherx/mapnode/converter/DoubleConverter.java:17-27 | null for null; otherwise `parseDouble` of the value's text, for texts the text itself |
| MapNodeConverter.Transform | src/main/java/com/yetanotherx/mapnode/converter/MapNodeConverter.java:21-32 | a node exactly for a map, over that map's entries with default options |
| CollectionConverter.ConvertAll | src/main/java/com/yetanotherx/mapnode/converter/CollectionConverter.java:21-23 | one converted element per element, in order, null results kept in place |
| CollectionConverter.ConvertAllAppend | src/main/java/com/yetanotherx/mapnode/converter/CollectionConverter.java:21-23 | converting two parts one after the other converts the whole |
| CollectionConverter.Collection.Add | src/main/java/com/yetanotherx/mapnode/converter/CollectionConverter.java:22 | `add` appends one element |
| CollectionConverter.Transform | src/main/java/com/yetanotherx/mapnode/converter/CollectionConverter.java:20-24 | the output keeps what it held and gains the converted input, element by element and in order |
| EasyHashMap.EasyHashMap.Put | src/main/java/com/yetanotherx/mapnode/EasyHashMap.java:38 | `put` binds the key, overriding an earlier binding |
| EasyHashMap.New | src/main/java/com/yetanotherx/mapnode/EasyHashMap.java:26-42 | an odd count throws "Value count must be even"; otherwise the map is the pairs put in order |
| EasyHashMap.PairsKeys | src/main/java/com/yetanotherx/mapnode/EasyHashMap.java:30-41 | the keys are exactly the arguments at even positions |
| EasyHashMap.PairsLastWins | src/main/java/com/yetanotherx/mapnode/EasyHashMap.java:38 | a key's value is the one from its last pair |
| EasyHashMap.TwoPairs | src/main/java/com/yetanotherx/mapnode/EasyHashMap.java:30-41 | four arguments give the two pairs |
| Options.MapNodeOptions.constructor | src/main/java/com/yetanotherx/mapnode/MapNodeOptions.java:13-15 | `returnNull` and `returnEmpty` true, separator "." |
| Options.MapNodeOptions.SetReturnNull | src/main/java/com/yetanotherx/mapnode/MapNodeOptions.java:31-34 | only `returnNull` changes, and the same object is returned |
| Options.MapNodeOptions.SetReturnEmpty | src/main/java/com/yetanotherx/mapnode/MapNodeOptions.java:50-53 | only `returnEmpty` changes, and the same object is returned |
| Options.MapNodeOptions.SetSeparatorString | src/main/java/com/yetanotherx/mapnode/MapNodeOptions.java:70-76 | longer than one character: throws `MapNodeException` and nothing changes; otherwise only the separator changes and the same object is returned |
| Options.MapNodeOptions.SetSeparatorChar | src/main/java/com/yetanotherx/mapnode/MapNodeOptions.java:82-85 | the separator becomes the one-character text, unchecked, and the same object is returned |
| Options.MapNodeOptions.Clone | src/main/java/com/yetanotherx/mapnode/MapNodeOptions.java:93-95 | a distinct new object with the same three values, equal to the original |
| Options.MapNodeOptions.Equals | src/main/java/com/yetanotherx/mapnode/MapNodeOptions.java:104-123 | holds exactly when the other is non-null and all three fields are equal |
| Options.EqualsIsEquivalence | src/main/java/com/yetanotherx/mapnode/MapNodeOptions.java:104-123 | option equality is reflexive, symmetric and transitive |
| GetterLaws.AbsentGivesDefault | src/main/java/com/yetanotherx/mapnode/MapNode.java:334-341 | when nothing is found, every two-argument getter (`getString`, `getInteger`, `getDouble`, `getBoolean`, `getMapNode`, `getList` and the five typed list getters) returns the default it was given |
| GetterLaws.PresentIgnoresDefault | src/main/java/com/yetanotherx/mapnode/MapNode.java:334-542 | when something is found, `getString`, `getInteger`, `getDouble` and `getBoolean` return their converter's result for every default, the string and boolean ones never null; `getMapNode` wraps a map with this node's options and gives null for anything else, whatever the default |
| GetterLaws.NonListGivesDefault | src/main/java/com/yetanotherx/mapnode/MapNode.java:585-597 | when anything but a list is found, nothing included, `getList` and each typed list getter return the default they were given |
| GetterLaws.FailedConversionIsNull | src/main/java/com/yetanotherx/mapnode/MapNode.java:388 | a text without digits makes `getInteger` null even with a default given |
| GetterLaws.OneArgumentDefaults | src/main/java/com/yetanotherx/mapnode/MapNode.java:316-322 | nothing found: the scalar getters give null or "", 0, 0.0, false, an empty node by `returnNull`; the list getters null or an empty list by `returnEmpty` |
| GetterLaws.NullPathFindsNothing | src/main/java/com/yetanotherx/mapnode/MapNode.java:119-121 | a null path reads null |
| GetterLaws.SeparatedListsAreDefaults | src/main/java/com/yetanotherx/mapnode/MapNode.java:585-597 | on a path with the separator, `getList` and all five typed list getters return their default, for every default |
| GetterLaws.ListGetters | src/main/java/com/yetanotherx/mapnode/MapNode.java:639-649 | a list under a key of the base: `getList` returns it, and each of the five typed list getters gives one converted element per element, failures kept as null |
| GetterLaws.MapNodeOptionsPassedOn | src/main/java/com/yetanotherx/mapnode/MapNode.java:531-542 | `getMapNode` wraps a found map with this node's options, while the nodes of `getMapNodeList` carry default options |
| GetterLaws.WriteThenTypedRead | src/main/java/com/yetanotherx/mapnode/MapNode.java:204-210 | after `setObject(p, v)` on a key or a path along maps, the getter of v's kind returns v: an int-range integer, a text, a boolean, or a map as a node with this node's options |
| GetterLaws.IntegerAndTextAgree | src/main/java/com/yetanotherx/mapnode/converter/IntegerConverter.java:25 | the integer 4 and the text "4" read alike through `getInteger`, `getString` and `getBoolean` (false) |
| GetterLaws.EmptyPathIsTheNode | src/main/java/com/yetanotherx/mapnode/MapNode.java:163-165 | the empty path reads the base: `getMapNode("")` equals the node, `getInteger("")` is null, `getBoolean("")` false, `getList("")` the default |
| GetterLaws.MapIsNoNumber | src/main/java/com/yetanotherx/mapnode/converter/IntegerConverter.java:25-30 | a map's text is no integer |
| Scenarios.TwoSegments | src/main/java/com/yetanotherx/mapnode/MapNode.java:123-125 | `a.b` with plain keys is separated and splits into `a` and `b` |
| Scenarios.ThreeSegments | src/main/java/com/yetanotherx/mapnode/MapNode.java:123-125 | `a.b.k` with plain keys splits into the three keys |
| Scenarios.ReadThroughMap | src/main/java/com/yetanotherx/mapnode/MapNode.java:137-139 | `getObject("list.key")` with a map under "list" reads that map's "key" |
| Scenarios.ReadThroughScalar | src/main/java/com/yetanotherx/mapnode/MapNode.java:152-154 | a scalar at a non-final step leaves the walk where it is: `"a.b"` reads "b" of the base itself |
| Scenarios.ReadThroughMissing | src/main/java/com/yetanotherx/mapnode/MapNode.java:132-133 | `getObject("a.b")` with nothing under "a" reads null (the general case is `EngineLaws.ReadThroughMissing`) |
| Scenarios.ReadListElement | src/main/java/com/yetanotherx/mapnode/MapNode.java:140-151 | `"keyldren.0"` reads element 0 of the list, a list element as its synthetic map |
| Scenarios.WriteThroughMap | src/main/java/com/yetanotherx/mapnode/MapNode.java:216-217 | `setObject("list.key", v)` with a map under "list" puts into that map and nothing else changes |
| Scenarios.AutocreateStaysFlat | src/main/java/com/yetanotherx/mapnode/MapNode.java:213-214 | `setObject("a.b.k", v)` on a base without "a" and "b" puts empty maps under "a" and "b" and `v` under "k", all in the base itself |
| Scenarios.ScalarIntermediateReplaced | src/main/java/com/yetanotherx/mapnode/MapNode.java:229-231 | a scalar intermediate is replaced by an empty map and the last key goes into the same map |
| Scenarios.WriteIntoListLost | src/main/java/com/yetanotherx/mapnode/MapNode.java:218-228 | `setObject("keyldren.0", v)` changes nothing: the put goes into the synthetic map |
| Scenarios.WriteThroughListElement | src/main/java/com/yetanotherx/mapnode/MapNode.java:216-228 | a map inside a list is the list's own element, so `setObject("xs.0.k", v)` puts into it |
| Scenarios.RemoveThroughMap | src/main/java/com/yetanotherx/mapnode/MapNode.java:283-285 | `removeObject("list.key")` removes "key" from the map under "list" and nothing else |
| Scenarios.EmptyAndNullPaths | src/main/java/com/yetanotherx/mapnode/MapNode.java:240-244 | `getObject("")` is the base; `removeObject("")` empties it; `setObject("", m)` makes m the base with m's old contents under ""; `setObject("", v)` for a non-map v adds v under ""; a null path reads null and changes nothing |
| Scenarios.StarSeparator | src/test/java/com/yetanotherx/mapnode/MapNodeOptionsTest.java:61-67 | with separator '*', `getObject("list*key")` reads "key" of the map under "list" |

The typed getters themselves (`Getters.GetString` … `Getters.GetMapNodeList`, with the
two-argument forms `…Or`) are functions without contracts of their own. They follow
MapNode.java:316-857 line by line, and what they promise is stated by the `GetterLaws`
lemmas above.

## Left out

- `debug`, `loadYaml` and `toString` of a node: YAML rendering and parsing in a foreign library.
- `MapNode.hashCode` and `MapNodeOptions.hashCode`: they depend on Java's hash functions and 32-bit overflow.
- `getBase`, `setBase`, `getOptions`, `setOptions`, `shouldReturnNull`, `shouldReturnEmpty`, `getSeparatorChar`: plain field accessors, which the model reads and writes directly.
- Sharing between objects. The model stores maps by value, so it cannot show that `clone` copies only the top-level map, that `getMapNode` wraps the same map object, or that `reset` clears a map another node may share.
- Node.MapNode.Clone: the `CloneNotSupportedException` for a base that is not a `HashMap` is not modelled; every base is a hash map here.
- Node.MapNode.SetObject: `setObject("", m)` puts `m` into itself in Java. The model stores `m` as it was before the put, because a value cannot contain itself.
- The order of a `HashMap`'s entries in `toString` is left unspecified. The string forms of maps, and everything computed from them, are ghost.
- Floating point. `Double.parseDouble` is a parameter of `DoubleConverter.Transform`, `getDouble` and `getDoubleList`. Doubles are not a kind of stored value.
- IntegerConverter.Transform: the `Double.parseDouble` fallback reads only plain decimal literals (`[-+]digits`, `[-+]digits.`, `[-+]digits.digits`, `[-+].digits`). Other texts it accepts convert to null in the model, where Java gives their truncated value. These include exponents, surrounding white space, `d`/`f` suffixes, hexadecimal, `NaN` and `Infinity`.
- IntegerConverter.Transform: a decimal literal is truncated exactly, where Java first rounds it to the nearest double. The two differ only for a fraction so close to the next integer that the double rounds up (`"0.99999999999999999999"` gives 1 in Java and 0 here).
- Options.MapNodeOptions.SetSeparatorString: lengths count Unicode scalar values, where Java's `length()` counts UTF-16 code units. A separator made of one supplementary character, such as `"\U{1F600}"`, is accepted here, while Java counts two units and throws `MapNodeException`. A null argument to this overload or to the `Character` one, which makes Java throw `NullPointerException`, is not modelled.
- Engine.Chars: with the empty separator the model splits a path into Unicode scalar values, where Java's split yields each UTF-16 unit, so a supplementary character is one piece here and two surrogate halves in Java. `Engine.Separated` and `Paths` likewise work on scalar values, which agrees with Java whenever the separator is a single UTF-16 unit.
- Digits and case folding are ASCII only. Java's `parseInt` also accepts other Unicode decimal digits, and `equalsIgnoreCase` folds non-ASCII letters; neither matters for "true" or for the tests.
- The `ClassCastException` handlers in `getObject` and `setObject` cannot be reached after the `instanceof` tests, so they are not modelled.
- A null base or null options object, and values of other Java classes than strings, integers, booleans, lists and maps.
- A separator longer than one character written into the field directly, bypassing the setter. The model keeps the setter's rule (at most one character) as the node's invariant.
- `EasyArrayList`, `MapNodeException` (modelled as a constructor of `JavaException`) and the `BaseConverter` interface (a function type).
- EasyHashMap.New: keys and values share one element type, where Java casts each argument to the key or value type.
