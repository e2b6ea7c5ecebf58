/**
  The book screen defined in screens/BookScreen.js: one request of 40
  results, no filtering and no minimum count; every volume is filed under
  each of its authors.
 */
module FanOutScreen {
  import opened Books
  import opened Grouping

  const LoadFailedMessage: string := "Error al cargar libros."

  /** `volume.authors || ['Autor desconocido']`: a present author list is
      used as it is, even when it is empty. */
  function AuthorList(v: Volume): (a: seq<string>)
    ensures v.authors.Some? ==> a == v.authors.value
    ensures v.authors.None? ==> a == [UnknownAuthor]
  {
    match v.authors
    case Some(names) => names
    case None => [UnknownAuthor]
  }

  /** The pushes the inner `forEach` makes for one volume: one per author,
      in the order of the author list. */
  function FanOne(v: Volume): (r: seq<Entry>)
    ensures |r| == |AuthorList(v)|
    ensures forall i :: 0 <= i < |r| ==> r[i] == Entry(AuthorList(v)[i], v)
  {
    seq(|AuthorList(v)|, i requires 0 <= i < |AuthorList(v)| => Entry(AuthorList(v)[i], v))
  }

  /** All pushes of the outer `forEach`, in order. */
  function FanOut(vs: seq<Volume>): (r: seq<Entry>)
    ensures |r| == AuthorCount(vs)
    ensures forall i :: 0 <= i < |r| ==> r[i].volume in vs && r[i].key in AuthorList(r[i].volume)
    decreases |vs|
  {
    if |vs| == 0 then []
    else
      var q := vs[..|vs| - 1];
      var last := vs[|vs| - 1];
      var r := FanOut(q) + FanOne(last);
      assert forall i :: 0 <= i < |r| ==> r[i].volume in vs && r[i].key in AuthorList(r[i].volume) by {
        forall i | 0 <= i < |r| ensures r[i].volume in vs && r[i].key in AuthorList(r[i].volume) {
          if i < |FanOut(q)| {
            assert r[i] == FanOut(q)[i];
            assert r[i].volume in q;
          } else {
            assert r[i] == FanOne(last)[i - |FanOut(q)|];
          }
        }
      }
      r
  }

  /** The sections built by the fan-out `forEach` and `Object.keys`: no
      two share an author, and each holds the volumes listing its author,
      in input order, once per listing. */
  function GroupByEachAuthor(vs: seq<Volume>): (r: seq<Section>)
    ensures WellGrouped(r)
    ensures forall i :: 0 <= i < |r| ==> r[i].data == SectionOf(vs, r[i].title)
  {
    var secs := Group(FanOut(vs));
    forall i | 0 <= i < |secs| ensures secs[i].data == SectionOf(vs, secs[i].title) {
      FanOutSelect(vs, secs[i].title);
    }
    forall i, x | 0 <= i < |secs| && x in secs[i].data ensures secs[i].title in AuthorList(x) {
      InSectionOf(vs, secs[i].title, x);
    }
    secs
  }

  /** How many times `t` is listed among the authors. */
  function Occurrences(names: seq<string>, t: string): (n: nat)
    ensures n <= |names|
    ensures n == 0 <==> t !in names
    decreases |names|
  {
    if |names| == 0 then 0
    else (if names[0] == t then 1 else 0) + Occurrences(names[1..], t)
  }

  function Repeat(v: Volume, n: nat): (r: seq<Volume>)
    ensures |r| == n
    ensures forall i :: 0 <= i < n ==> r[i] == v
  {
    seq(n, _ => v)
  }

  /** The reference section of author `t`: the volumes in input order, each
      repeated as often as `t` appears in its author list. */
  function SectionOf(vs: seq<Volume>, t: string): seq<Volume>
    decreases |vs|
  {
    if |vs| == 0 then []
    else
      var last := vs[|vs| - 1];
      SectionOf(vs[..|vs| - 1], t) + Repeat(last, Occurrences(AuthorList(last), t))
  }

  /** The number of (author, volume) pairs: the sum of the author-list
      lengths. */
  function AuthorCount(vs: seq<Volume>): nat
    decreases |vs|
  {
    if |vs| == 0 then 0 else AuthorCount(vs[..|vs| - 1]) + |AuthorList(vs[|vs| - 1])|
  }

  /** Some volume lists `t` among its authors. */
  predicate Listed(vs: seq<Volume>, t: string) {
    exists x :: x in vs && t in AuthorList(x)
  }

  lemma {:induction false} FanOneSelect(v: Volume, t: string, names: seq<string>)
    requires names == AuthorList(v)
    ensures Select(FanOne(v), t) == Repeat(v, Occurrences(names, t))
  {
    assert FanOne(v) == seq(|names|, i requires 0 <= i < |names| => Entry(names[i], v));
    FanSelect(v, t, names);
  }

  /** Selecting `t` from the pushes for one author list repeats the volume
      once per listing of `t`. */
  lemma {:induction false} FanSelect(v: Volume, t: string, names: seq<string>)
    ensures Select(seq(|names|, i requires 0 <= i < |names| => Entry(names[i], v)), t)
         == Repeat(v, Occurrences(names, t))
    decreases |names|
  {
    var es := seq(|names|, i requires 0 <= i < |names| => Entry(names[i], v));
    if |names| > 0 {
      var rest := seq(|names| - 1, i requires 0 <= i < |names| - 1 => Entry(names[1..][i], v));
      assert es == [Entry(names[0], v)] + rest;
      SelectAppend([Entry(names[0], v)], rest, t);
      assert Select([Entry(names[0], v)], t) == (if names[0] == t then [v] else []) by {
        assert [Entry(names[0], v)][..0] == [];
      }
      FanSelect(v, t, names[1..]);
      assert Repeat(v, Occurrences(names, t))
          == (if names[0] == t then [v] else []) + Repeat(v, Occurrences(names[1..], t));
    } else {
      assert es == [];
    }
  }

  /** The pushes for the first `j` volumes are a prefix of all pushes. */
  lemma {:induction false} FanOutPrefix(vs: seq<Volume>, j: nat)
    requires j <= |vs|
    ensures FanOut(vs[..j]) <= FanOut(vs)
    decreases |vs|
  {
    if j < |vs| {
      var q := vs[..|vs| - 1];
      assert vs[..j] == q[..j];
      FanOutPrefix(q, j);
    } else {
      assert vs[..j] == vs;
    }
  }

  /** The pushes come volume by volume in input order: those of volume `j`
      form one contiguous block, in author-list order, right after the
      pushes of the volumes before it. */
  lemma FanOutBlocks(vs: seq<Volume>, j: nat)
    requires j < |vs|
    ensures AuthorCount(vs[..j]) + |AuthorList(vs[j])| <= |FanOut(vs)|
    ensures FanOut(vs)[AuthorCount(vs[..j])..AuthorCount(vs[..j]) + |AuthorList(vs[j])|] == FanOne(vs[j])
  {
    var p := vs[..j + 1];
    assert p[..|p| - 1] == vs[..j];
    assert FanOut(p) == FanOut(vs[..j]) + FanOne(vs[j]);
    FanOutPrefix(vs, j + 1);
  }

  /** The fan-out's section for `t` is the reference section. */
  lemma {:induction false} FanOutSelect(vs: seq<Volume>, t: string)
    ensures Select(FanOut(vs), t) == SectionOf(vs, t)
    decreases |vs|
  {
    if |vs| > 0 {
      var q := vs[..|vs| - 1];
      var last := vs[|vs| - 1];
      FanOutSelect(q, t);
      SelectAppend(FanOut(q), FanOne(last), t);
      FanOneSelect(last, t, AuthorList(last));
    }
  }

  /** A volume is in the reference section of `t` exactly when it lists `t`
      among its authors. */
  lemma {:induction false} InSectionOf(vs: seq<Volume>, t: string, v: Volume)
    ensures v in SectionOf(vs, t) <==> v in vs && t in AuthorList(v)
    decreases |vs|
  {
    if |vs| > 0 {
      var q := vs[..|vs| - 1];
      var last := vs[|vs| - 1];
      assert vs == q + [last];
      InSectionOf(q, t, v);
      var extra := Repeat(last, Occurrences(AuthorList(last), t));
      assert v in extra <==> v == last && t in AuthorList(last) by {
        if v == last && t in AuthorList(last) {
          assert extra[0] == v;
        }
      }
    }
  }

  /** Fan-out grouping: no two sections share an author; each holds the
      volumes listing its author, in input order, once per listing; the
      sections together hold one volume per (author, volume) pair. */
  lemma GroupByEachAuthorSpec(vs: seq<Volume>)
    ensures var secs := GroupByEachAuthor(vs);
      && DistinctTitles(secs)
      && (forall i :: 0 <= i < |secs| ==> secs[i].data == SectionOf(vs, secs[i].title))
      && Total(secs) == AuthorCount(vs)
  {
    GroupTotal(FanOut(vs));
  }

  /** A volume appears in the section of each of its authors and in no
      other: with no `authors` field it is only under the sentinel; with an
      empty `authors` array it is nowhere. */
  lemma SectionMembership(vs: seq<Volume>, v: Volume)
    ensures var secs := GroupByEachAuthor(vs);
      forall i :: 0 <= i < |secs| ==>
        (v in secs[i].data <==> v in vs && secs[i].title in AuthorList(v))
  {
    var secs := GroupByEachAuthor(vs);
    GroupByEachAuthorSpec(vs);
    forall i | 0 <= i < |secs| ensures v in secs[i].data <==> v in vs && secs[i].title in AuthorList(v) {
      InSectionOf(vs, secs[i].title, v);
    }
  }

  /** There is a section for `t` exactly when some volume lists `t`. */
  lemma SectionTitles(vs: seq<Volume>, t: string)
    ensures HasSection(GroupByEachAuthor(vs), t) <==> Listed(vs, t)
  {
    var es := FanOut(vs);
    var secs := Group(es);
    FanOutSelect(vs, t);
    SelectNonEmpty(es, t);
    if Listed(vs, t) {
      var x :| x in vs && t in AuthorList(x);
      InSectionOf(vs, t, x);
      assert t in Keys(es);
      var i :| 0 <= i < |Keys(es)| && Keys(es)[i] == t;
      assert secs[i].title == t;
    }
    if HasSection(secs, t) {
      var i :| 0 <= i < |secs| && secs[i].title == t;
      assert Keys(es)[i] in Keys(es);
      var x := SectionOf(vs, t)[0];
      InSectionOf(vs, t, x);
    }
  }

  /** Sections come in the order in which their author is first pushed. */
  lemma SectionsInFirstOccurrenceOrder(vs: seq<Volume>)
    ensures var secs := GroupByEachAuthor(vs);
      forall i, j :: 0 <= i < j < |secs| ==>
        Occurs(FanOut(vs), secs[i].title) && Occurs(FanOut(vs), secs[j].title) &&
        FirstIndex(FanOut(vs), secs[i].title) < FirstIndex(FanOut(vs), secs[j].title)
  {
    var es := FanOut(vs);
    KeysInFirstOccurrenceOrder(es);
    var secs := Group(es);
    forall i | 0 <= i < |secs| ensures Occurs(es, secs[i].title) {
      assert Keys(es)[i] in Keys(es);
    }
  }

  /** Every volume in a section lists the section's author; no two sections
      share an author. */
  predicate WellGrouped(secs: seq<Section>) {
    && DistinctTitles(secs)
    && forall i, x :: 0 <= i < |secs| && x in secs[i].data ==> secs[i].title in AuthorList(x)
  }

  /** How the single request ends. */
  datatype Outcome = LoadFailed | Loaded(sections: seq<Section>)

  /** The body of the `try`: the request, then `res.data.items?.forEach`
      (absent `items` groups nothing), reading `item.volumeInfo` of every
      hit (a hit without one throws). Any successful response is loaded,
      however few sections it yields. */
  function Cycle(response: PageResponse): (o: Outcome)
    ensures o.LoadFailed? <==>
      response.RequestFailed? || exists i :: 0 <= i < |PageItems(response)| && PageItems(response)[i].volumeInfo.None?
    ensures response.Page? && response.items.None? ==> o == Loaded([])
    ensures o.Loaded? ==> WellGrouped(o.sections)
    ensures o.Loaded? ==>
      var vs := Volumes(PageItems(response)).value;
      && o.sections == GroupByEachAuthor(vs)
      && Total(o.sections) == AuthorCount(vs)
      && (forall i :: 0 <= i < |o.sections| ==> o.sections[i].data == SectionOf(vs, o.sections[i].title))
      && (forall t :: HasSection(o.sections, t) <==> Listed(vs, t))
  {
    match response
    case RequestFailed => LoadFailed
    case Page(_) =>
      match Volumes(PageItems(response))
      case None => LoadFailed
      case Some(vs) =>
        GroupByEachAuthorSpec(vs);
        forall t ensures HasSection(GroupByEachAuthor(vs), t) <==> Listed(vs, t) {
          SectionTitles(vs, t);
        }
        Loaded(GroupByEachAuthor(vs))
  }

  /** The end of `fetchBooks`: `setBooks(sections)` or the `catch`,
      followed by the `finally`. */
  function Finish(s: ViewState, o: Outcome): (r: ViewState)
    ensures !r.loading
    ensures r.category == s.category && r.selectedBook == s.selectedBook
    ensures o.Loaded? ==> r.books == o.sections && r.error == s.error
    ensures o.LoadFailed? ==> r.books == s.books && r.error == LoadFailedMessage
  {
    match o
    case Loaded(secs) => s.(books := secs, loading := false)
    case LoadFailed => s.(error := LoadFailedMessage, loading := false)
  }

  /** One cycle applied to the state: a failed request or a hit without
      `volumeInfo` keeps the list and shows the load-failure message;
      any other response replaces the list with its fan-out grouping. */
  function Resolve(s: ViewState, response: PageResponse): (r: ViewState)
    ensures !r.loading && r.category == s.category && r.selectedBook == s.selectedBook
    ensures response.RequestFailed? || Volumes(PageItems(response)).None? ==>
      r.books == s.books && r.error == LoadFailedMessage
    ensures response.Page? && Volumes(PageItems(response)).Some? ==>
      r.books == GroupByEachAuthor(Volumes(PageItems(response)).value) && r.error == s.error
  {
    Finish(s, Cycle(response))
  }

  /** The effect on `selectedCategory`: `setSelectedBook(null)`, then
      `fetchBooks()`. */
  function CategoryEffect(s: ViewState): (r: ViewState)
    ensures r.selectedBook.None? && r.loading && r.error == ""
    ensures r.category == s.category && r.books == s.books
  {
    BeginFetch(s.(selectedBook := None))
  }

  /** The mount run of the effect, for the initial category. */
  function Mount(): (s: ViewState)
    ensures s.category == InitialCategory && s.books == [] && s.loading
    ensures s.error == "" && s.selectedBook.None?
  {
    CategoryEffect(Initial())
  }

  /** A tap on a category tab: the tabs are only rendered while no book is
      selected, and re-selecting the current category re-runs no effect.
      A real change clears the selection before the new cycle starts. */
  function TapCategory(s: ViewState, cat: string): (r: ViewState)
    ensures !ListShown(s) || cat == s.category ==> r == s
    ensures ListShown(s) && cat != s.category ==>
      r.category == cat && r.selectedBook.None? && r.loading && r.error == "" && r.books == s.books
  {
    if ListShown(s) && cat != s.category then CategoryEffect(s.(category := cat)) else s
  }

  datatype Event =
    | CategoryTapped(cat: string)
    | BookTapped(book: Volume)
    | BackTapped
    | CycleResolved(response: PageResponse)

  function Step(s: ViewState, e: Event): ViewState {
    match e
    case CategoryTapped(cat) => TapCategory(s, cat)
    case BookTapped(v) => TapBook(s, v)
    case BackTapped => TapBack(s)
    case CycleResolved(response) => Resolve(s, response)
  }

  function Run(s: ViewState, events: seq<Event>): ViewState
    decreases |events|
  {
    if |events| == 0 then s else Run(Step(s, events[0]), events[1..])
  }

  /** Whatever happens, the sections on screen stay well grouped. */
  lemma {:induction false} RunPreservesWellGrouped(s: ViewState, events: seq<Event>)
    requires WellGrouped(s.books)
    ensures WellGrouped(Run(s, events).books)
    decreases |events|
  {
    if |events| > 0 {
      RunPreservesWellGrouped(Step(s, events[0]), events[1..]);
    }
  }

  lemma MountedScreenStaysWellGrouped(events: seq<Event>)
    ensures WellGrouped(Run(Mount(), events).books)
  {
    RunPreservesWellGrouped(Mount(), events);
  }

  /** Every successful response replaces the list, with no minimum count:
      a response without `items` empties it; a failed request keeps it. */
  lemma ResolveReplacesBooks(s: ViewState, response: PageResponse)
    ensures var r := Resolve(s, response);
      && !r.loading
      && (response.Page? && response.items.None? ==> r.books == [] && r.error == s.error)
      && (response.RequestFailed? ==> r.books == s.books && r.error == LoadFailedMessage)
  {
  }
}
