/**
 * `ColorCollection`: an ordered list of colours that allows duplicates, with
 * a lazily built reverse-lookup cache from packed ARGB value to the index of
 * its first occurrence, and a notification pair raised by every mutation.
 *
 * The list, the cache and the log of raised notifications are the fields of
 * the class; the four hooks `InsertItem`, `RemoveItem`, `SetItem` and
 * `ClearItems` are the only methods that change the list, as in the base
 * `Collection<T>`, whose index checks become preconditions.
 */
module Collection {
  import opened Wrappers
  import opened Colors
  import opened Lookup
  import opened Ordering
  import opened Hashing
  import opened Events

  /** The exceptions the modelled operations throw. */
  datatype CollectionError =
    | InvalidSortOrder   // ArgumentException from Sort
    | FileNameMissing    // ArgumentNullException from LoadPalette
    | FileNotFound       // FileNotFoundException from LoadPalette
    | NoSerializer       // ArgumentException from LoadPalette

  /** The comparison a recognised sort order selects. */
  function ComparerFor(order: SortOrder, cs: Comparers): (cmp: Comparison)
    requires !order.Unrecognised?
  {
    match order
    case Brightness => cs.brightness
    case Hue => cs.hue
    case Value => cs.value
  }

  /**
   * `LoadPalette`'s checks, in the source's order: a missing name, then a
   * missing file, then no serializer for the name. `fileExists` stands for
   * `File.Exists(fileName)`; `decoded` is what the serializer resolved from
   * the name reads from the file, `None` when no serializer recognises it.
   */
  function LoadPalette(fileName: string, fileExists: bool, decoded: Option<seq<Color>>): (r: Result<seq<Color>, CollectionError>)
    ensures r.Success? <==> fileName != [] && fileExists && decoded.Some?
    ensures r.Success? ==> r.value == decoded.value
    ensures fileName == [] ==> r == Failure(FileNameMissing)
    ensures fileName != [] && !fileExists ==> r == Failure(FileNotFound)
    ensures fileName != [] && fileExists && decoded.None? ==> r == Failure(NoSerializer)
  {
    if fileName == [] then Failure(FileNameMissing)
    else if !fileExists then Failure(FileNotFound)
    else if decoded.None? then Failure(NoSerializer)
    else Success(decoded.value)
  }

  class ColorCollection {
    /** The backing list of the base `Collection<Color>`. */
    var items: seq<Color>
    /** `_indexedLookup`: packed ARGB value to index, `None` when not built. */
    var cache: Cache
    /** Every notification raised so far, in order. */
    var events: seq<Event>

    /** The object invariant: the log consists of well-formed notification pairs. */
    ghost predicate Valid()
      reads this
    {
      WellPaired(events)
    }

    /** The cache, when built, is a complete first-occurrence map of the items. */
    ghost predicate CacheFaithful()
      reads this
    {
      Faithful(cache, items)
    }

    constructor ()
      ensures Valid() && items == [] && cache == None && events == []
    {
      items, cache, events := [], None, [];
    }

    /** `ColorCollection(IEnumerable<Color>)`: appends each colour in order. */
    constructor FromColors(colors: seq<Color>)
      ensures Valid() && items == colors && cache == None
      ensures events == AppendEvents(0, colors)
    {
      items, cache, events := [], None, [];
      new;
      assert [] + colors == colors;
      AddRange(colors);
      assert events == [] + AppendEvents(0, colors);
    }

    /** `ColorCollection(IEnumerable<int>)`: appends `Color.FromArgb` of each value in order. */
    constructor FromArgbValues(values: seq<int32>)
      ensures Valid() && items == FromArgbAll(values) && cache == None
      ensures events == AppendEvents(0, items)
    {
      items, cache, events := [], None, [];
      new;
      ghost var colors := FromArgbAll(values);
      assert [] + colors == colors;
      AddRange(FromArgbAll(values));
      assert events == [] + AppendEvents(0, colors);
    }

    /** `ColorCollection(ColorCollection)`: `Add`s each item of `collection` by index. */
    constructor Copy(collection: ColorCollection)
      ensures Valid() && items == collection.items && cache == None
      ensures events == AppendEvents(0, collection.items)
    {
      items, cache, events := [], None, [];
      new;
      AppendEventsWellPaired(0, []);
      var i := 0;
      while i < |collection.items|
        invariant 0 <= i <= |collection.items|
        invariant Valid() && items == collection.items[..i] && cache == None
        invariant events == AppendEvents(0, items)
      {
        AppendEventsSnoc(0, items, collection.items[i]);
        Add(collection.items[i]);
        assert collection.items[..i + 1] == collection.items[..i] + [collection.items[i]];
        i := i + 1;
      }
      assert collection.items[..i] == collection.items;
    }

    /**
     * The insert hook. The cache is kept and extended with `key -> index` only
     * when it is built, the insert is an append and the key is absent;
     * otherwise it is discarded, so a faithful cache stays faithful.
     */
    method InsertItem(index: int, item: Color)
      requires Valid() && 0 <= index <= |items|
      modifies this
      ensures Valid()
      ensures items == old(items)[..index] + [item] + old(items)[index..]
      ensures cache == InsertedCache(old(cache), index, |items|, ToArgb(item))
      ensures events == old(events) + Raised(ItemInserted, index, item)
      ensures old(CacheFaithful()) ==> CacheFaithful()
    {
      if Faithful(cache, items) {
        InsertKeepsFaithful(cache, items, index, item);
      }
      RaisedKeepsWellPaired(events, ItemInserted, index, item);
      items := items[..index] + [item] + items[index..];
      var key := ToArgb(item);
      if cache.Some? && index == |items| - 1 && key !in cache.value {
        cache := Some(cache.value[key := index]);
      } else {
        cache := None;
      }
      events := events + Raised(ItemInserted, index, item);
    }

    /**
     * The remove hook. It evicts only the removed colour's key and renumbers
     * nothing, so it does not keep the cache faithful (see
     * `RemoveLeavesStaleLookup`).
     */
    method RemoveItem(index: int)
      requires Valid() && 0 <= index < |items|
      modifies this
      ensures Valid()
      ensures items == old(items)[..index] + old(items)[index + 1..]
      ensures cache == RemovedCache(old(cache), ToArgb(old(items)[index]))
      ensures events == old(events) + Raised(ItemRemoved, index, old(items)[index])
    {
      var item := items[index];
      var key := ToArgb(item);
      if cache.Some? && key in cache.value {
        cache := Some(cache.value - {key});
      }
      items := items[..index] + items[index + 1..];
      RaisedKeepsWellPaired(events, ItemRemoved, index, item);
      events := events + Raised(ItemRemoved, index, item);
    }

    /**
     * The replace hook. Nothing happens when the new item equals the old one
     * under `Color` equality (identity included). Otherwise the old key is
     * evicted and the new key added with `index` unless present; this does
     * not keep the cache faithful (see `ReplaceLeavesStaleLookup`).
     */
    method SetItem(index: int, item: Color)
      requires Valid() && 0 <= index < |items|
      modifies this
      ensures Valid()
      ensures old(items)[index] == item ==>
        items == old(items) && cache == old(cache) && events == old(events)
      ensures old(items)[index] != item ==>
        && items == old(items)[index := item]
        && cache == ReplacedCache(old(cache), ToArgb(old(items)[index]), ToArgb(item), index)
        && events == old(events) + Raised(ItemReplaced, index, item)
      ensures old(CacheFaithful()) &&
        (forall j :: 0 <= j < |old(items)| && j != index ==>
           ToArgb(old(items)[j]) != ToArgb(old(items)[index]) && ToArgb(old(items)[j]) != ToArgb(item))
        ==> CacheFaithful()
    {
      var oldItem := items[index];
      if oldItem != item {
        if Faithful(cache, items) &&
          forall j :: 0 <= j < |items| && j != index ==> ToArgb(items[j]) != ToArgb(oldItem) && ToArgb(items[j]) != ToArgb(item)
        {
          ReplaceKeepsFaithful(cache, items, index, item);
        }
        if cache.Some? {
          var key, oldKey := ToArgb(item), ToArgb(oldItem);
          var m := cache.value;
          if oldKey in m {
            m := m - {oldKey};
          }
          if key !in m {
            m := m[key := index];
          }
          cache := Some(m);
        }
        items := items[index := item];
        RaisedKeepsWellPaired(events, ItemReplaced, index, item);
        events := events + Raised(ItemReplaced, index, item);
      }
    }

    /**
     * The clear hook: empties the list and discards the cache. It raises
     * `ItemInserted` (not `ItemsCleared`) and `CollectionChanged`, with index
     * -1 and `Color.Empty`.
     */
    method ClearItems()
      requires Valid()
      modifies this
      ensures Valid() && CacheFaithful()
      ensures items == [] && cache == None
      ensures events == old(events) + Raised(ItemInserted, -1, Empty)
    {
      items := [];
      cache := None;
      RaisedKeepsWellPaired(events, ItemInserted, -1, Empty);
      events := events + Raised(ItemInserted, -1, Empty);
    }

    /** `Collection<T>.Add`: an insert at the end. */
    method Add(item: Color)
      requires Valid()
      modifies this
      ensures Valid()
      ensures items == old(items) + [item]
      ensures cache == InsertedCache(old(cache), |old(items)|, |items|, ToArgb(item))
      ensures events == old(events) + Raised(ItemInserted, |old(items)|, item)
      ensures old(CacheFaithful()) ==> CacheFaithful()
    {
      InsertItem(|items|, item);
    }

    /** Appends each colour in order, one notification pair per colour. */
    method AddRange(colors: seq<Color>)
      requires Valid()
      modifies this
      ensures Valid()
      ensures items == old(items) + colors
      ensures cache == AppendedCache(old(cache), old(items), colors)
      ensures events == old(events) + AppendEvents(|old(items)|, colors)
      ensures old(CacheFaithful()) ==> CacheFaithful()
    {
      ghost var s0, c0, e0, faithful0 := items, cache, events, CacheFaithful();
      var i := 0;
      while i < |colors|
        invariant 0 <= i <= |colors|
        invariant Valid()
        invariant items == s0 + colors[..i]
        invariant cache == AppendedCache(c0, s0, colors[..i])
        invariant events == e0 + AppendEvents(|s0|, colors[..i])
        invariant faithful0 ==> CacheFaithful()
      {
        assert colors[..i + 1] == colors[..i] + [colors[i]];
        AppendEventsSnoc(|s0|, colors[..i], colors[i]);
        AppendedCacheSnoc(c0, s0, colors[..i], colors[i]);
        Add(colors[i]);
        i := i + 1;
      }
      assert colors[..i] == colors;
    }

    /** `Clone`: a new collection built by the copy constructor. */
    method Clone() returns (copy: ColorCollection)
      ensures fresh(copy) && copy.Valid()
      ensures copy.items == items && copy.cache == None
      ensures copy.events == AppendEvents(0, items)
    {
      copy := new ColorCollection.Copy(this);
    }

    /** Builds the cache by one scan, recording the first index of each key. */
    method BuildIndexedLookup()
      modifies this
      ensures items == old(items) && events == old(events)
      ensures cache.Some? && IsFirstOccurrenceMap(cache.value, items)
    {
      var m: map<int32, int> := map[];
      var i := 0;
      EmptyMapOfEmpty();
      while i < |items|
        invariant 0 <= i <= |items|
        invariant IsFirstOccurrenceMap(m, items[..i])
        invariant items == old(items) && events == old(events)
      {
        var key := ToArgb(items[i]);
        BuildStep(m, items, i);
        if key !in m {
          m := m[key := i];
        }
        i := i + 1;
      }
      assert items[..i] == items;
      cache := Some(m);
    }

    /**
     * `Find(int)`: builds the cache only when it is not built, then answers
     * from it. A built cache is never rebuilt, even on a miss.
     */
    method Find(key: int32) returns (r: int)
      modifies this
      ensures items == old(items) && events == old(events)
      ensures old(cache).Some? ==> cache == old(cache) && r == Consult(cache.value, key)
      ensures old(cache).None? ==> cache.Some? && IsFirstOccurrenceMap(cache.value, items)
      ensures old(cache).None? ==> r == FirstIndex(items, key)
      ensures old(CacheFaithful()) ==> CacheFaithful() && r == FirstIndex(items, key)
    {
      if cache.None? {
        BuildIndexedLookup();
      }
      if cache.None? || key !in cache.value {
        r := -1;
      } else {
        r := cache.value[key];
      }
      if Faithful(cache, items) {
        ConsultFaithful(cache.value, items, key);
      }
    }

    /**
     * `Find(Color)`: `Find(int)` on `ToArgb`. With a faithful cache the result
     * is the first index whose colour has the same four channels, whatever
     * its identity, or -1.
     */
    method FindColor(item: Color) returns (r: int)
      modifies this
      ensures items == old(items) && events == old(events)
      ensures old(cache).Some? ==> cache == old(cache) && r == Consult(cache.value, ToArgb(item))
      ensures old(cache).None? ==> cache.Some? && IsFirstOccurrenceMap(cache.value, items)
      ensures old(CacheFaithful()) ==> CacheFaithful() && r == FirstIndex(items, ToArgb(item))
      ensures old(CacheFaithful()) ==> -1 <= r < |items|
      ensures old(CacheFaithful()) && r >= 0 ==> SameChannels(items[r], item)
      ensures old(CacheFaithful()) ==>
        forall j :: 0 <= j < |items| && (r < 0 || j < r) ==> !SameChannels(items[j], item)
    {
      r := Find(ToArgb(item));
      forall j | 0 <= j < |items| {
        ToArgbInjective(items[j], item);
      }
    }

    /**
     * `Find(Color, bool)`: with `ignoreAlphaChannel` unset, `Find(Color)`;
     * with it set, a linear scan that bypasses the cache.
     */
    method FindColorChannels(item: Color, ignoreAlphaChannel: bool) returns (r: int)
      modifies this
      ensures items == old(items) && events == old(events)
      ensures !ignoreAlphaChannel && old(CacheFaithful()) ==> r == FirstIndex(items, ToArgb(item))
      ensures !ignoreAlphaChannel && old(cache).Some? ==> r == Consult(old(cache).value, ToArgb(item))
      ensures !ignoreAlphaChannel && old(cache).Some? ==> cache == old(cache)
      ensures !ignoreAlphaChannel && old(cache).None? ==> cache.Some? && IsFirstOccurrenceMap(cache.value, items)
      ensures ignoreAlphaChannel ==> cache == old(cache)
      ensures ignoreAlphaChannel ==> -1 <= r < |items|
      ensures ignoreAlphaChannel && r >= 0 ==> SameRgb(items[r], item)
      ensures ignoreAlphaChannel ==>
        forall j :: 0 <= j < |items| && (r < 0 || j < r) ==> !SameRgb(items[j], item)
    {
      if !ignoreAlphaChannel {
        r := FindColor(item);
      } else {
        r := ScanIgnoringAlpha(item);
      }
    }

    /** The scan of `Find(Color, true)`: the first index whose red, green and blue match, or -1. */
    method ScanIgnoringAlpha(item: Color) returns (r: int)
      ensures -1 <= r < |items|
      ensures r >= 0 ==> SameRgb(items[r], item)
      ensures forall j :: 0 <= j < |items| && (r < 0 || j < r) ==> !SameRgb(items[j], item)
    {
      r := -1;
      var i := 0;
      while i < |items|
        invariant 0 <= i <= |items|
        invariant forall j :: 0 <= j < i ==> !SameRgb(items[j], item)
      {
        var original := items[i];
        if original.r == item.r && original.g == item.g && original.b == item.b {
          r := i;
          break;
        }
        i := i + 1;
      }
    }

    /** `Equals(ColorCollection)`: a non-null collection of the same length, equal under `ToArgb` at every index. */
    method Equals(other: ColorCollection?) returns (r: bool)
      ensures r <==> other != null && SameArgb(items, other.items)
    {
      r := other != null && |other.items| == |items|;
      if r {
        var i := 0;
        while i < |items|
          invariant 0 <= i <= |items|
          invariant forall j :: 0 <= j < i ==> ToArgb(other.items[j]) == ToArgb(items[j])
        {
          if ToArgb(other.items[i]) != ToArgb(items[i]) {
            r := false;
            break;
          }
          i := i + 1;
        }
      }
    }

    /** `operator ==`: the same reference, or two non-null collections that are `Equals`. */
    static method AreEqual(left: ColorCollection?, right: ColorCollection?) returns (r: bool)
      ensures r <==> left == right || (left != null && right != null && SameArgb(left.items, right.items))
    {
      if left == right {
        r := true;
      } else if left == null || right == null {
        r := false;
      } else {
        r := left.Equals(right);
      }
    }

    /** `operator !=`: the negation of `==`. */
    static method AreNotEqual(left: ColorCollection?, right: ColorCollection?) returns (r: bool)
      ensures r <==> !(left == right || (left != null && right != null && SameArgb(left.items, right.items)))
    {
      r := AreEqual(left, right);
      r := !r;
    }

    /** `GetHashCode`: the exclusive-or fold of the element hashes, from 0. */
    method GetHashCode(hash: ElementHash) returns (h: bv32)
      ensures h == XorFold(items, hash)
    {
      h := 0;
      var i := 0;
      while i < |items|
        invariant 0 <= i <= |items|
        invariant h == XorFold(items[..i], hash)
      {
        assert items[..i + 1][..i] == items[..i];
        h := h ^ hash(items[i]);
        i := i + 1;
      }
      assert items[..i] == items;
    }

    /**
     * `Sort`: nothing happens on an empty collection (whatever the order); an
     * unrecognised order fails before any change; otherwise the items are
     * sorted on a scratch copy, cleared and re-appended in sorted order.
     */
    method Sort(order: SortOrder, comparers: Comparers) returns (outcome: Outcome<CollectionError>)
      requires Valid() && ComparersValid(comparers)
      modifies this
      ensures Valid()
      ensures old(items) == [] ==>
        outcome == Pass && items == old(items) && cache == old(cache) && events == old(events)
      ensures old(items) != [] && order.Unrecognised? ==>
        outcome == Fail(InvalidSortOrder) && items == old(items) && cache == old(cache) && events == old(events)
      ensures old(items) != [] && !order.Unrecognised? ==>
        && outcome == Pass
        && multiset(items) == multiset(old(items))
        && SortedBy(items, ComparerFor(order, comparers))
        && cache == None
        && events == old(events) + Raised(ItemInserted, -1, Empty) + AppendEvents(0, items)
    {
      outcome := Pass;
      if |items| > 0 {
        var cmp: Comparison;
        match order {
          case Brightness => cmp := comparers.brightness;
          case Hue => cmp := comparers.hue;
          case Value => cmp := comparers.value;
          case Unrecognised(_) => return Fail(InvalidSortOrder);
        }
        var ordered := SortColors(items, cmp);
        ClearItems();
        AddRange(ordered);
        assert items == ordered;
      }
    }

    /**
     * `Load`: the checks of `LoadPalette`, then a clear and an append of the
     * loaded colours. On a failed check nothing changes.
     */
    method Load(fileName: string, fileExists: bool, decoded: Option<seq<Color>>) returns (outcome: Outcome<CollectionError>)
      requires Valid()
      modifies this
      ensures Valid()
      ensures LoadPalette(fileName, fileExists, decoded).Failure? ==>
        && outcome == Fail(LoadPalette(fileName, fileExists, decoded).error)
        && items == old(items) && cache == old(cache) && events == old(events)
      ensures LoadPalette(fileName, fileExists, decoded).Success? ==>
        && outcome == Pass
        && items == decoded.value && cache == None
        && events == old(events) + Raised(ItemInserted, -1, Empty) + AppendEvents(0, decoded.value)
    {
      var palette := LoadPalette(fileName, fileExists, decoded);
      if palette.Failure? {
        return Fail(palette.error);
      }
      ClearItems();
      AddRange(palette.value);
      outcome := Pass;
    }
  }

  /** Opaque red and green, made from their channel values. */
  const Red: Color := Color(255, 255, 0, 0, FromValue)
  const Green: Color := Color(255, 0, 255, 0, FromValue)

  /**
   * [red, green, red] with a built cache, then `RemoveAt(0)`: `Find(red)`
   * answers -1 and `Find(green)` answers 1, where the first occurrences are
   * now 1 and 0.
   */
  method RemoveLeavesStaleLookup() returns (red: int, green: int, firstRed: int, firstGreen: int)
    ensures red == -1 && green == 1
    ensures firstRed == 1 && firstGreen == 0
  {
    var c := new ColorCollection();
    c.Add(Red);
    c.Add(Green);
    c.Add(Red);
    var built := c.FindColor(Red);
    assert ToArgb(Red) != ToArgb(Green);
    assert c.items[1] == Green;
    assert c.cache.value[ToArgb(Green)] == 1;
    c.RemoveItem(0);
    red := c.FindColor(Red);
    green := c.FindColor(Green);
    firstRed := FirstIndex(c.items, ToArgb(Red));
    firstGreen := FirstIndex(c.items, ToArgb(Green));
    assert c.items == [Green, Red];
  }

  /**
   * [red, red] with a built cache, then `this[0] = green`: `Find(red)` answers
   * -1 although red is still at index 1. [red, green] with a built cache, then
   * `this[0] = green`: `Find(green)` answers 1 although green is now at index 0.
   */
  method ReplaceLeavesStaleLookup() returns (red: int, firstRed: int, green: int, firstGreen: int)
    ensures red == -1 && firstRed == 1
    ensures green == 1 && firstGreen == 0
  {
    assert ToArgb(Red) != ToArgb(Green);
    var c := new ColorCollection();
    c.Add(Red);
    c.Add(Red);
    var built := c.FindColor(Red);
    c.SetItem(0, Green);
    red := c.FindColor(Red);
    firstRed := FirstIndex(c.items, ToArgb(Red));
    assert c.items == [Green, Red];
    var d := new ColorCollection();
    d.Add(Red);
    d.Add(Green);
    built := d.FindColor(Red);
    assert d.items[1] == Green;
    assert d.cache.value[ToArgb(Green)] == 1;
    d.SetItem(0, Green);
    green := d.FindColor(Green);
    firstGreen := FirstIndex(d.items, ToArgb(Green));
  }

  /**
   * A clone is `Equals` to its original and independent of it: mutating the
   * clone through every hook leaves the original as it was.
   */
  method CloneIsIndependent(original: ColorCollection, c: Color) returns (equal: bool)
    requires original.Valid()
    ensures equal
    ensures unchanged(original)
  {
    var copy := original.Clone();
    equal := original.Equals(copy);
    copy.Add(c);
    copy.SetItem(0, c);
    copy.InsertItem(0, c);
    copy.RemoveItem(0);
    copy.ClearItems();
  }
}
