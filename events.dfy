/**
 * The change notifications of a colour collection. Subscribers are not
 * modelled; instead every raised notification is appended to a log, in the
 * order the collection raises them.
 */
module Events {
  import opened Colors

  /** The five events the collection declares. */
  datatype Notice = ItemInserted | ItemRemoved | ItemReplaced | ItemsCleared | CollectionChanged

  /** A raised event with its `ColorCollectionEventArgs` payload. */
  datatype Event = Event(notice: Notice, index: int, color: Color)

  /** A specific notification, then `CollectionChanged` with the same payload. */
  function Raised(notice: Notice, index: int, c: Color): (es: seq<Event>) {
    [Event(notice, index, c), Event(CollectionChanged, index, c)]
  }

  /** The notifications of appending `cs` at positions `start`, `start + 1`, ... */
  function AppendEvents(start: int, cs: seq<Color>): (es: seq<Event>)
    ensures |es| == 2 * |cs|
  {
    if cs == [] then []
    else
      var n := |cs| - 1;
      AppendEvents(start, cs[..n]) + Raised(ItemInserted, start + n, cs[n])
  }

  /** Position `i` of a log is a specific notification (even `i`) or the aggregate one that follows it. */
  ghost predicate PairedAt(es: seq<Event>, i: nat)
    requires i < |es|
  {
    if i % 2 == 0 then es[i].notice in {ItemInserted, ItemRemoved, ItemReplaced}
    else es[i] == es[i - 1].(notice := CollectionChanged)
  }

  /**
   * The shape of every log the collection produces: pairs whose first event is
   * an insert, removal or replacement and whose second is `CollectionChanged`
   * with the same payload. In particular `ItemsCleared` is never raised.
   */
  ghost predicate WellPaired(es: seq<Event>) {
    |es| % 2 == 0 && forall i :: 0 <= i < |es| ==> PairedAt(es, i)
  }

  lemma WellPairedConcat(a: seq<Event>, b: seq<Event>)
    requires WellPaired(a) && WellPaired(b)
    ensures WellPaired(a + b)
  {
    var ab := a + b;
    forall i | 0 <= i < |ab| ensures PairedAt(ab, i) {
      if i < |a| {
        assert PairedAt(a, i);
        assert ab[i] == a[i];
        if i % 2 == 1 { assert ab[i - 1] == a[i - 1]; }
      } else {
        var k := i - |a|;
        assert PairedAt(b, k);
        assert ab[i] == b[k];
        assert i % 2 == k % 2;
        if k % 2 == 1 { assert ab[i - 1] == b[k - 1]; }
      }
    }
  }

  /** Raising a hook's pair keeps the log well paired. */
  lemma RaisedKeepsWellPaired(es: seq<Event>, notice: Notice, index: int, c: Color)
    requires WellPaired(es) && notice in {ItemInserted, ItemRemoved, ItemReplaced}
    ensures WellPaired(es + Raised(notice, index, c))
  {
    WellPairedConcat(es, Raised(notice, index, c));
  }

  /** The log of a run of appends is well paired. */
  lemma {:induction false} AppendEventsWellPaired(start: int, cs: seq<Color>)
    ensures WellPaired(AppendEvents(start, cs))
  {
    if cs != [] {
      var n := |cs| - 1;
      AppendEventsWellPaired(start, cs[..n]);
      WellPairedConcat(AppendEvents(start, cs[..n]), Raised(ItemInserted, start + n, cs[n]));
    }
  }

  /** Appending one more colour adds its pair at the end. */
  lemma AppendEventsSnoc(start: int, cs: seq<Color>, c: Color)
    ensures AppendEvents(start, cs + [c]) == AppendEvents(start, cs) + Raised(ItemInserted, start + |cs|, c)
  {
    assert (cs + [c])[..|cs|] == cs;
  }
}
