# ColorCollection: a verified model

This project models `ColorCollection` from the Cyotek colour picker library. A
`ColorCollection` is an ordered list of colours. It allows duplicates. On top
of the list it keeps `_indexedLookup`, a reverse-lookup cache. The cache is
built lazily and maps a packed ARGB value (`Color.ToArgb()`) to the index
where that value first occurs. Every change to the list goes through one of
four hooks of the base `Collection<Color>`:

- `InsertItem`
- `RemoveItem`
- `SetItem`
- `ClearItems`

Each hook patches the cache, evicts an entry from it, or discards it. Each hook
then raises a specific notification followed by `CollectionChanged`. On top of
the hooks sit the other operations: `Add`, `AddRange`, the copy constructors,
`Clone`, the three `Find` overloads, `Equals`, `==` and `!=`, `GetHashCode`,
`Sort` and `Load`.

Modules, one per file:

- `Wrappers` (`wrappers.dfy`): `Option`, `Result` and `Outcome`. `Result` and `Outcome` stand for the exceptions the source throws.
- `Colors` (`colors.dfy`): a colour has four byte channels and an identity. The identity records whether the colour is `Color.Empty`, was made from a value, or is a known colour. `ToArgb` returns a signed 32-bit value, as .NET's does. `ToArgb(FromArgb(v)) == v`; `FromArgb(ToArgb(c))` has `c`'s channels but always the from-value identity.
- `Lookup` (`lookup.dfy`): defines `FirstIndex`, the reference definition of "first occurrence". It also defines the cache invariant (`IsFirstOccurrenceMap`, `Faithful`), the cache update each hook makes, and the lemmas saying which updates keep the invariant.
- `Ordering` (`ordering.dfy`): the sort orders and the sort of the scratch list.
- `Hashing` (`hashing.dfy`): the XOR fold of element hashes.
- `Events` (`events.dfy`): the notification log and its pairing invariant.
- `Collection` (`collection.dfy`): the class `ColorCollection`. Its fields are `items`, `cache` and `events`, and its methods are the source's methods.

Subscribers to the events are replaced by `events`, a log to which each raised
notification is appended.

`Valid()` is the invariant every method keeps: the log is made of pairs. In
each pair, the first event is an insert, a removal or a replacement, and the
second is `CollectionChanged` with the same payload. So `ItemsCleared` is
never raised.

`CacheFaithful()` holds when the cache is either not built or is a complete
first-occurrence map of `items`. Build, insert, `AddRange`, clear, `Sort` and
`Load` keep it. `RemoveItem` does not. `SetItem` keeps it when neither the old nor the new value occurs at another index. It can break it when the old value occurs at another index, or when the new value first occurs later than the replaced position (see Findings).

Behaviour of the code worth noting:

- After `RemoveAt`, `Find` does not rebuild the cache on a miss. A built cache is consulted as it is.
- `SetItem` compares old and new items with `Color` equality, which includes identity, not with `ToArgb`.
- `Sort` uses `List<T>.Sort`, which is not stable.
- The hash folds `Color.GetHashCode`, not the packed value.

## Model

| member | source | states |
|---|---|---|
| `Colors.ArgbValueRoundTrip` | Cyotek.Windows.Forms.ColorPicker/ColorCollection.cs:68-72 | `ToArgb(FromArgb(v)) == v` for every 32-bit value, so the `IEnumerable<int>` constructor keeps the values it is given |
| `Colors.ArgbChannelsRoundTrip` | Cyotek.Windows.Forms.ColorPicker/ColorCollection.cs:170 | unpacking `ToArgb(c)` gives back the four channels of `c`, with the from-value identity |
| `Colors.ToArgbInjective` | Cyotek.Windows.Forms.ColorPicker/ColorCollection.cs:605-614 | two colours have the same `ToArgb` exactly when all four channels agree, whatever their identity |
| `Colors.PackedChannels` | Cyotek.Windows.Forms.ColorPicker/ColorCollection.cs:170 | each channel can be read back from the packed value, which is A<<24, R<<16, G<<8 and B combined |
| `Lookup.FirstIndex` | Cyotek.Windows.Forms.ColorPicker/ColorCollection.cs:333-338 | the result is -1 or an index whose `ToArgb` is the key, and no earlier index (no index at all for -1) holds the key |
| `Lookup.ConsultFaithful` | Cyotek.Windows.Forms.ColorPicker/ColorCollection.cs:347-352 | a complete first-occurrence cache answers the stored index or -1, and that answer equals `FirstIndex` for every key |
| `Lookup.FirstOccurrenceMapUnique` | Cyotek.Windows.Forms.ColorPicker/ColorCollection.cs:522-542 | a sequence has only one complete first-occurrence map, so the built cache is determined by the items |
| `Lookup.BuildStep` | Cyotek.Windows.Forms.ColorPicker/ColorCollection.cs:533-539 | recording `s[i]` only when its key is absent turns the first-occurrence map of `s[..i]` into that of `s[..i+1]` |
| `Lookup.InsertKeepsFaithful` | Cyotek.Windows.Forms.ColorPicker/ColorCollection.cs:168-185 | the insert's cache update (kept and extended only for an append of an absent key, discarded otherwise) keeps a faithful cache faithful |
| `Lookup.AppendedCacheSnoc` | Cyotek.Windows.Forms.ColorPicker/ColorCollection.cs:270-276 | the cache after appending one more colour is one more insert update of the cache before it |
| `Lookup.AppendKeepsFaithful` | Cyotek.Windows.Forms.ColorPicker/ColorCollection.cs:270-276 | any run of appends keeps a faithful cache faithful |
| `Lookup.RemoveKeepsEarlierEntries` | Cyotek.Windows.Forms.ColorPicker/ColorCollection.cs:202-213 | after the as-written removal, the entry of any other colour whose first occurrence lies before the removed index still equals `FirstIndex` of the new items |
| `Lookup.ReplaceKeepsFaithful` | Cyotek.Windows.Forms.ColorPicker/ColorCollection.cs:235-253 | the as-written replacement (evict the old value's key, add the new value's key unless present) keeps a faithful cache faithful when neither value occurs at any other index |
| `Lookup.RemovedCacheCorrected` | Cyotek.Windows.Forms.ColorPicker/ColorCollection.cs:196-218 | corrected removal rule: the cache is kept only when the last element is removed |
| `Lookup.RemoveCorrectedKeepsFaithful` | Cyotek.Windows.Forms.ColorPicker/ColorCollection.cs:196-218 | the corrected removal rule keeps a faithful cache faithful |
| `Lookup.ReplacedCacheCorrected` | Cyotek.Windows.Forms.ColorPicker/ColorCollection.cs:225-262 | corrected replacement rule: the cache is kept only when no first occurrence is lost |
| `Lookup.ReplaceCorrectedKeepsFaithful` | Cyotek.Windows.Forms.ColorPicker/ColorCollection.cs:225-262 | the corrected replacement rule keeps a faithful cache faithful |
| `Ordering.SortColors` | Cyotek.Windows.Forms.ColorPicker/ColorCollection.cs:424-425 | sorting the scratch list gives a permutation of it (same multiset) that is non-decreasing under any total-preorder comparison |
| `Ordering.InsertSorted` | Cyotek.Windows.Forms.ColorPicker/ColorCollection.cs:424-425 | inserting before the first element that is not at most the new one keeps a sequence sorted |
| `Hashing.XorFoldPermutation` | Cyotek.Windows.Forms.ColorPicker/ColorCollection.cs:631-636 | the hash of a collection does not change when its items are permuted |
| `Hashing.XorFoldRemove` | Cyotek.Windows.Forms.ColorPicker/ColorCollection.cs:635 | any one element's hash can be taken out of the fold by XOR |
| `Hashing.EqualContentsHashAlike` | Cyotek.Windows.Forms.ColorPicker/ColorCollection.cs:598-636 | when the element hash depends only on `ToArgb`, collections that are `Equals` have equal hashes |
| `Hashing.IdentityHashSplitsEqualCollections` | Cyotek.Windows.Forms.ColorPicker/ColorCollection.cs:605-635 | with an element hash that also looks at identity, two collections that are `Equals` hash differently |
| `Events.WellPairedConcat` | Cyotek.Windows.Forms.ColorPicker/ColorCollection.cs:187-189 | two well-paired logs concatenate into a well-paired log |
| `Events.RaisedKeepsWellPaired` | Cyotek.Windows.Forms.ColorPicker/ColorCollection.cs:215-217 | raising a hook's pair (a specific notification, then `CollectionChanged` with the same payload) keeps the log well paired |
| `Events.AppendEventsWellPaired` | Cyotek.Windows.Forms.ColorPicker/ColorCollection.cs:270-276 | the log of a run of appends is well paired |
| `Events.AppendEventsSnoc` | Cyotek.Windows.Forms.ColorPicker/ColorCollection.cs:272-275 | appending one more colour adds its insert pair, at the next index, at the end of the log |
| `Collection.LoadPalette` | Cyotek.Windows.Forms.ColorPicker/ColorCollection.cs:112-136 | it fails exactly when the name is empty, the file is missing or no serializer is found, and in that order of precedence; otherwise it yields the decoded colours |
| `Collection.ColorCollection.constructor` | Cyotek.Windows.Forms.ColorPicker/ColorCollection.cs:36-39 | a new collection is empty, with no cache and no events |
| `Collection.ColorCollection.FromColors` | Cyotek.Windows.Forms.ColorPicker/ColorCollection.cs:45-49 | the items are the given colours in order, and there is one insert pair per colour |
| `Collection.ColorCollection.FromArgbValues` | Cyotek.Windows.Forms.ColorPicker/ColorCollection.cs:68-72 | the items are `FromArgb` of the given values in order, and there is one insert pair per value |
| `Collection.ColorCollection.Copy` | Cyotek.Windows.Forms.ColorPicker/ColorCollection.cs:55-62 | the items are the other collection's items, added by index, and there is one insert pair per item |
| `Collection.ColorCollection.InsertItem` | Cyotek.Windows.Forms.ColorPicker/ColorCollection.cs:163-190 | the item is placed at the index and later items shift. The cache is kept and extended only for an append of an absent key, and is discarded otherwise. A faithful cache stays faithful. `ItemInserted` then `CollectionChanged` are logged |
| `Collection.ColorCollection.RemoveItem` | Cyotek.Windows.Forms.ColorPicker/ColorCollection.cs:196-218 | one item is removed. Only the removed colour's key is evicted, and no other entry changes. `ItemRemoved` then `CollectionChanged` are logged with the removed index and colour |
| `Collection.ColorCollection.SetItem` | Cyotek.Windows.Forms.ColorPicker/ColorCollection.cs:225-262 | when the item is equal under `Color` equality, nothing changes and nothing is logged. Otherwise the old key is evicted, the new key is added unless present, only that position changes, and `ItemReplaced` then `CollectionChanged` are logged. A faithful cache stays faithful when neither value occurs at another index |
| `Collection.ColorCollection.ClearItems` | Cyotek.Windows.Forms.ColorPicker/ColorCollection.cs:145-156 | the items become empty and the cache is discarded. `ItemInserted(-1, Color.Empty)` then `CollectionChanged(-1, Color.Empty)` are logged |
| `Collection.ColorCollection.Add` | Cyotek.Windows.Forms.ColorPicker/ColorCollection.cs:272-275 | an insert at the end: the item is appended, with the insert's cache update and insert pair |
| `Collection.ColorCollection.AddRange` | Cyotek.Windows.Forms.ColorPicker/ColorCollection.cs:270-276 | the colours are appended in order, with one insert pair per colour and one insert update of the cache per colour. A faithful cache stays faithful |
| `Collection.ColorCollection.Clone` | Cyotek.Windows.Forms.ColorPicker/ColorCollection.cs:282-285 | the result is a fresh collection with the same items, no cache, and the copy constructor's log |
| `Collection.ColorCollection.BuildIndexedLookup` | Cyotek.Windows.Forms.ColorPicker/ColorCollection.cs:522-542 | the cache becomes the complete first-occurrence map of the items. Items and log are unchanged |
| `Collection.ColorCollection.Find` | Cyotek.Windows.Forms.ColorPicker/ColorCollection.cs:338-353 | the cache is built only when absent, and a built cache is never rebuilt, even on a miss. The answer is the cached index or -1. After a build, or with a faithful cache, the answer is `FirstIndex` of the key |
| `Collection.ColorCollection.FindColor` | Cyotek.Windows.Forms.ColorPicker/ColorCollection.cs:292-295 | this is `Find` on `ToArgb`. With a faithful cache, the answer is the first index with the same four channels (any identity), or -1 |
| `Collection.ColorCollection.FindColorChannels` | Cyotek.Windows.Forms.ColorPicker/ColorCollection.cs:303-331 | without the flag it is `FindColor`: an absent cache is built, a built cache is left as it is, and with a faithful cache the answer is the first index of `ToArgb(item)`. With the flag it leaves the cache alone and answers the first index whose red, green and blue match (any alpha), or -1 |
| `Collection.ColorCollection.ScanIgnoringAlpha` | Cyotek.Windows.Forms.ColorPicker/ColorCollection.cs:315-327 | the result is -1 or an index whose red, green and blue match, and no earlier index (no index at all for -1) matches |
| `Collection.ColorCollection.Equals` | Cyotek.Windows.Forms.ColorPicker/ColorCollection.cs:598-623 | true exactly when the other collection is non-null, has the same count, and agrees on `ToArgb` at every index |
| `Collection.ColorCollection.AreEqual` | Cyotek.Windows.Forms.ColorPicker/ColorCollection.cs:565-568 | `==` is true exactly for the same reference, or for two non-null collections that are `Equals` |
| `Collection.ColorCollection.AreNotEqual` | Cyotek.Windows.Forms.ColorPicker/ColorCollection.cs:576-579 | `!=` is true exactly when `==` is false |
| `Collection.ColorCollection.GetHashCode` | Cyotek.Windows.Forms.ColorPicker/ColorCollection.cs:631-636 | the result is the XOR fold of the element hashes from 0. It is 0 for an empty collection and, by `XorFoldPermutation`, permutation-invariant |
| `Collection.ColorCollection.Sort` | Cyotek.Windows.Forms.ColorPicker/ColorCollection.cs:400-429 | on an empty collection nothing changes, for any order. An unrecognised order fails before any change. Otherwise the items become a permutation of the old items, non-decreasing under the chosen comparison, the cache is left discarded, and the log gains one clear pair and then one insert pair per item in sorted order |
| `Collection.ColorCollection.Load` | Cyotek.Windows.Forms.ColorPicker/ColorCollection.cs:362-370 | on a failed check nothing changes and the error is returned. Otherwise the items become the loaded colours, the cache is discarded, and the log gains a clear pair and one insert pair per colour |
| `Collection.RemoveLeavesStaleLookup` | Cyotek.Windows.Forms.ColorPicker/ColorCollection.cs:196-218 | for [red, green, red] with a built cache, after `RemoveAt(0)`: `Find(red)` is -1 and `Find(green)` is 1, while the first occurrences are 1 and 0 |
| `Collection.ReplaceLeavesStaleLookup` | Cyotek.Windows.Forms.ColorPicker/ColorCollection.cs:225-262 | for [red, red] with a built cache, after `this[0] = green`: `Find(red)` is -1 while red is at index 1. For [red, green] with a built cache, after `this[0] = green`: `Find(green)` is 1 while green is at index 0 |
| `Collection.CloneIsIndependent` | Cyotek.Windows.Forms.ColorPicker/ColorCollection.cs:282-285 | a clone is `Equals` to its original, and inserting, replacing, removing and clearing on the clone leave the original unchanged |

## Findings

| source | as written | input that shows it | evidently intended | confidence | as-written member | corrected member |
|---|---|---|---|---|---|---|
| Cyotek.Windows.Forms.ColorPicker/ColorCollection.cs:196-218 | `RemoveItem` evicts only the removed colour's key and does not renumber the entries after it. `Find(int)` (line 347) reads a miss in a built cache as "absent" | [red, green, red]; `Find(red)` builds the cache; `RemoveAt(0)`; then `Find(red)` gives -1 and `Find(green)` gives 1 | `Find` answers the first occurrence (red 1, green 0), as its documentation at lines 287-291 says | high, not executed | `Collection.RemoveLeavesStaleLookup` | `Lookup.RemoveCorrectedKeepsFaithful` |
| Cyotek.Windows.Forms.ColorPicker/ColorCollection.cs:225-262 | `SetItem` evicts the old colour's key even when that colour still occurs at another index. It also adds the new colour's key only when absent (lines 249-252), so a later first occurrence of the new colour stays recorded | [red, red]; `Find(red)` builds the cache; `this[0] = green`; then `Find(red)` gives -1. [red, green]; `Find(red)` builds the cache; `this[0] = green`; then `Find(green)` gives 1 | `Find(red)` gives 1 in the first case and `Find(green)` gives 0 in the second | high, not executed | `Collection.ReplaceLeavesStaleLookup` | `Lookup.ReplaceCorrectedKeepsFaithful` |
| Cyotek.Windows.Forms.ColorPicker/ColorCollection.cs:631-636 | `GetHashCode` folds `Color.GetHashCode`. System.Drawing's version of that also depends on how the colour was made. `Equals` (lines 598-623) compares only `ToArgb` | [Color.CornflowerBlue] and [Color.FromArgb(255, 100, 149, 237)] are `Equals`, as the comment at line 605 notes, but their hashes differ | collections that are `Equals` have equal hashes | medium, since it rests on `Color.GetHashCode`, which is not part of this model; not executed | `Hashing.IdentityHashSplitsEqualCollections` | `Hashing.EqualContentsHashAlike` |

The class `ColorCollection` keeps the as-written hooks, because it models the
library as it behaves. The corrected cache rules are separate functions
(`RemovedCacheCorrected`, `ReplacedCacheCorrected`) with proofs that they keep
the cache faithful. For the hash, the corrected member proves equal hashes for
any element hash that depends only on `ToArgb`.

## Left out

- The `_lock` monitor and the double-checked `ContainsKey` (lines 174-180, 207, 243, 524) exist for concurrency. The model is sequential, so the inner re-check is dropped. The `_indexedLookup == null` test after the build (line 347) cannot succeed sequentially.
- Event handler delegates and the virtual `On...` raisers (lines 439-513) are replaced by the appended log. Re-entrant handlers and overriding subclasses are not modelled.
- File I/O in `LoadPalette` and `Load`. `File.Exists` is the parameter `fileExists`, and the resolved serializer's decoding is the parameter `decoded`. A `null` file name is treated like the empty one.
- `Save<T>` (lines 378-393) is not modelled. It only checks for an empty name and then hands the collection to a serializer and a file stream, both of which are outside this model.
- The `System.Drawing.Imaging.ColorPalette` constructor (lines 78-82) is `AddRange` over a GDI+ type, so it is covered by `FromColors`.
- `Equals(object)` (lines 586-589) and `ICloneable.Clone` (lines 552-555) only downcast and delegate. Dafny's typed signatures make them the same as `Equals` and `Clone`.
- `ColorComparer.Brightness`, `Hue` and `Value` compute in floating point and are not part of this model. They are parameters, required only to be total preorders.
- `Color.GetHashCode` is not part of this model. It is the `hash` parameter.
- `Ordering.SortColors`: `List<T>.Sort` is an introspective sort. The model uses an insertion sort that promises exactly what `List<T>.Sort` promises: a permutation in non-decreasing order. Stability is not claimed.
- `Collection.ColorCollection.AddRange`: the colours are a sequence value. Enumerating the collection into itself, which .NET rejects as modification during enumeration, is not modelled.
- The base `Collection<T>` index checks (`ArgumentOutOfRangeException`) are preconditions of the hooks. A `null` collection argument to the copy constructors is not modelled.
- `LightnessColorSlider.cs` is not part of this model. It is a WinForms control whose only logic is floating-point HSL conversion.
