/**
  The book screen defined in styles/global.js: it gathers up to 800 results
  over as many as 20 pages, keeps only volumes that have both a description
  and a publisher, files each under its first author, and shows the
  sections only when at least 10 volumes survive.
 */
module FilteredScreen {
  import opened Books
  import opened Grouping
  import opened Pages

  const MinBooks: nat := 10
  const NotEnoughMessage: string := "No se encontraron suficientes libros con descripción y editorial."
  const LoadFailedMessage: string := "No se pudieron cargar los libros. Intenta más tarde."

  /** `volume.description && volume.publisher` */
  predicate Qualifies(v: Volume): (b: bool)
    ensures b <==> v.description.Some? && v.description.value != "" && v.publisher.Some? && v.publisher.value != ""
  {
    Truthy(v.description) && Truthy(v.publisher)
  }

  /** `volume.authors?.[0] || 'Autor desconocido'`: a missing or empty
      author list, and an empty first author, all fall back to the
      sentinel. */
  function PrimaryAuthor(v: Volume): (a: string)
    ensures a != ""
    ensures v.authors.Some? && |v.authors.value| > 0 && v.authors.value[0] != "" ==> a == v.authors.value[0]
    ensures v.authors.None? || |v.authors.value| == 0 || v.authors.value[0] == "" ==> a == UnknownAuthor
  {
    match v.authors
    case Some(names) => if |names| > 0 && names[0] != "" then names[0] else UnknownAuthor
    case None => UnknownAuthor
  }

  /** The volumes that pass the filter, in input order. */
  function Retained(vs: seq<Volume>): (r: seq<Volume>)
    ensures forall x :: x in r <==> x in vs && Qualifies(x)
    ensures |r| <= |vs|
    decreases |vs|
  {
    if |vs| == 0 then []
    else
      var q := vs[..|vs| - 1];
      var last := vs[|vs| - 1];
      assert vs == q + [last];
      Retained(q) + (if Qualifies(last) then [last] else [])
  }

  /** The volumes the source files under author `t`, in input order. */
  function SectionOf(vs: seq<Volume>, t: string): (r: seq<Volume>)
    ensures forall x :: x in r <==> x in vs && Qualifies(x) && PrimaryAuthor(x) == t
    decreases |vs|
  {
    if |vs| == 0 then []
    else
      var q := vs[..|vs| - 1];
      var last := vs[|vs| - 1];
      assert vs == q + [last];
      SectionOf(q, t) + (if Qualifies(last) && PrimaryAuthor(last) == t then [last] else [])
  }

  /** The `push` calls the `forEach` makes: one per retained volume, under
      its first author. */
  function Keyed(vs: seq<Volume>): (r: seq<Entry>)
    ensures VolumesOf(r) == Retained(vs)
    ensures forall i :: 0 <= i < |r| ==> r[i].key == PrimaryAuthor(r[i].volume)
    decreases |vs|
  {
    if |vs| == 0 then []
    else
      var q := vs[..|vs| - 1];
      var last := vs[|vs| - 1];
      var tail := if Qualifies(last) then [Entry(PrimaryAuthor(last), last)] else [];
      assert VolumesOf(Keyed(q) + tail) == VolumesOf(Keyed(q)) + VolumesOf(tail);
      Keyed(q) + tail
  }

  /** The sections built by the filtering `forEach` and `Object.keys`:
      distinct authors, each section holding exactly that author's
      retained volumes in input order. */
  function GroupByFirstAuthor(vs: seq<Volume>): (r: seq<Section>)
    ensures WellGrouped(r)
    ensures forall i :: 0 <= i < |r| ==> r[i].data == SectionOf(vs, r[i].title)
  {
    KeyedSpec(vs);
    Group(Keyed(vs))
  }

  /** The pushes under an author are that author's reference section. */
  lemma {:induction false} KeyedSpec(vs: seq<Volume>)
    ensures forall t :: Select(Keyed(vs), t) == SectionOf(vs, t)
    decreases |vs|
  {
    if |vs| > 0 {
      var q := vs[..|vs| - 1];
      var last := vs[|vs| - 1];
      KeyedSpec(q);
      var tail := if Qualifies(last) then [Entry(PrimaryAuthor(last), last)] else [];
      assert Keyed(vs) == Keyed(q) + tail;
      forall t ensures Select(Keyed(vs), t) == SectionOf(vs, t) {
        SelectAppend(Keyed(q), tail, t);
        if Qualifies(last) {
          assert tail[..0] == [];
        }
      }
    }
  }

  /** Every volume in a section is well formed for this screen: it has a
      description and a publisher and sits under its own first author; no
      two sections share an author. */
  predicate WellGrouped(secs: seq<Section>) {
    && DistinctTitles(secs)
    && forall i, x :: 0 <= i < |secs| && x in secs[i].data ==>
         Qualifies(x) && PrimaryAuthor(x) == secs[i].title
  }

  /** Some retained volume has first author `t`. */
  predicate Authored(vs: seq<Volume>, t: string) {
    exists x :: x in vs && Qualifies(x) && PrimaryAuthor(x) == t
  }

  /** Filtering and grouping: each section holds exactly the retained
      volumes of its author in input order; the sections together hold
      every retained volume once and nothing else. */
  lemma GroupByFirstAuthorSpec(vs: seq<Volume>)
    ensures var secs := GroupByFirstAuthor(vs);
      && WellGrouped(secs)
      && (forall i :: 0 <= i < |secs| ==> secs[i].data == SectionOf(vs, secs[i].title))
      && multiset(AllVolumes(secs)) == multiset(Retained(vs))
      && Total(secs) == |Retained(vs)|
  {
    GroupPartitions(Keyed(vs));
    GroupTotal(Keyed(vs));
  }

  /** There is a section for `t` exactly when some retained volume has first
      author `t`. */
  lemma SectionTitles(vs: seq<Volume>, t: string)
    ensures HasSection(GroupByFirstAuthor(vs), t) <==> Authored(vs, t)
  {
    var es := Keyed(vs);
    var secs := Group(es);
    KeyedSpec(vs);
    SelectNonEmpty(es, t);
    if Authored(vs, t) {
      var x :| x in vs && Qualifies(x) && PrimaryAuthor(x) == t;
      assert x in SectionOf(vs, t);
      assert t in Keys(es);
      var i :| 0 <= i < |Keys(es)| && Keys(es)[i] == t;
      assert secs[i].title == t;
    }
    if HasSection(secs, t) {
      var i :| 0 <= i < |secs| && secs[i].title == t;
      assert Keys(es)[i] in Keys(es);
      var x := SectionOf(vs, t)[0];
      assert x in SectionOf(vs, t);
    }
  }

  /** Each retained volume is in exactly the section of its first author,
      and a volume the filter drops is in none. */
  lemma ExactlyOneSection(vs: seq<Volume>, v: Volume)
    ensures var secs := GroupByFirstAuthor(vs);
      && (forall i :: 0 <= i < |secs| ==>
            (v in secs[i].data <==> v in Retained(vs) && PrimaryAuthor(v) == secs[i].title))
      && (v in Retained(vs) ==> HasSection(secs, PrimaryAuthor(v)))
  {
    GroupByFirstAuthorSpec(vs);
    SectionTitles(vs, PrimaryAuthor(v));
  }

  /** Sections come in the order in which their author first appears among
      the retained volumes. */
  lemma SectionsInFirstOccurrenceOrder(vs: seq<Volume>)
    ensures var secs := GroupByFirstAuthor(vs);
      forall i, j :: 0 <= i < j < |secs| ==>
        Occurs(Keyed(vs), secs[i].title) && Occurs(Keyed(vs), secs[j].title) &&
        FirstIndex(Keyed(vs), secs[i].title) < FirstIndex(Keyed(vs), secs[j].title)
  {
    var es := Keyed(vs);
    KeysInFirstOccurrenceOrder(es);
    var secs := Group(es);
    forall i | 0 <= i < |secs| ensures Occurs(es, secs[i].title) {
      assert Keys(es)[i] in Keys(es);
    }
  }

  /** The first push under an author is the first retained volume with
      that first author, so the order above is first-occurrence order among
      the retained volumes. */
  lemma FirstPushIsFirstRetained(vs: seq<Volume>, t: string)
    requires Occurs(Keyed(vs), t)
    ensures var p := FirstIndex(Keyed(vs), t);
      && p < |Retained(vs)|
      && PrimaryAuthor(Retained(vs)[p]) == t
      && forall q :: 0 <= q < p ==> PrimaryAuthor(Retained(vs)[q]) != t
  {
    KeyedSpec(vs);
    var es := Keyed(vs);
    var p := FirstIndex(es, t);
    assert Retained(vs)[p] == es[p].volume;
    forall q | 0 <= q < p ensures PrimaryAuthor(Retained(vs)[q]) != t {
      assert Retained(vs)[q] == es[q].volume;
    }
  }

  /** How a fetch cycle ends. */
  datatype Outcome = LoadFailed | TooFew | Loaded(sections: seq<Section>)

  /** Grouping followed by the `total >= 10` test. */
  function Aggregate(vs: seq<Volume>): (o: Outcome)
    ensures !o.LoadFailed?
    ensures o.Loaded? <==> |Retained(vs)| >= MinBooks
    ensures o.Loaded? ==> o.sections == GroupByFirstAuthor(vs)
    ensures o.Loaded? ==> WellGrouped(o.sections) && Total(o.sections) >= MinBooks
  {
    var secs := GroupByFirstAuthor(vs);
    GroupByFirstAuthorSpec(vs);
    if Total(secs) >= MinBooks then Loaded(secs) else TooFew
  }

  /** The body of the `try`: page loop, then `item.volumeInfo` of every
      hit (a hit without one throws), then grouping and the threshold. */
  function Cycle(fetch: nat -> PageResponse): (o: Outcome)
    ensures var gathered := FetchAll(fetch);
      o.LoadFailed? <==>
        gathered.result.None? ||
        exists i :: 0 <= i < |gathered.result.value| && gathered.result.value[i].volumeInfo.None?
    ensures o.Loaded? ==> WellGrouped(o.sections) && Total(o.sections) >= MinBooks
    ensures FetchAll(fetch).result.Some? && Volumes(FetchAll(fetch).result.value).Some? ==>
      var vs := Volumes(FetchAll(fetch).result.value).value;
      && (o.Loaded? <==> |Retained(vs)| >= MinBooks)
      && (o.TooFew? <==> |Retained(vs)| < MinBooks)
      && (o.Loaded? ==> o.sections == GroupByFirstAuthor(vs))
  {
    match FetchAll(fetch).result
    case None => LoadFailed
    case Some(items) =>
      match Volumes(items)
      case None => LoadFailed
      case Some(vs) => Aggregate(vs)
  }

  /** The end of `fetchBooks`: the success branch, the threshold branch or
      the `catch`, followed by the `finally`. */
  function Finish(s: ViewState, o: Outcome): (r: ViewState)
    ensures !r.loading
    ensures r.category == s.category && r.selectedBook == s.selectedBook
    ensures o.Loaded? ==> r.books == o.sections && r.error == s.error
    ensures o.TooFew? ==> r.books == [] && r.error == NotEnoughMessage
    ensures o.LoadFailed? ==> r.books == s.books && r.error == LoadFailedMessage
  {
    match o
    case Loaded(secs) => s.(books := secs, loading := false)
    case TooFew => s.(books := [], error := NotEnoughMessage, loading := false)
    case LoadFailed => s.(error := LoadFailedMessage, loading := false)
  }

  /** One whole cycle applied to the state: a failed request or a hit
      without `volumeInfo` keeps the list and shows the load-failure
      message; otherwise at least 10 retained volumes replace the list
      with their grouping, and fewer empty it and show the not-enough
      message. */
  function Resolve(s: ViewState, fetch: nat -> PageResponse): (r: ViewState)
    ensures !r.loading && r.category == s.category && r.selectedBook == s.selectedBook
    ensures FetchAll(fetch).result.None? || Volumes(FetchAll(fetch).result.value).None? ==>
      r.books == s.books && r.error == LoadFailedMessage
    ensures FetchAll(fetch).result.Some? && Volumes(FetchAll(fetch).result.value).Some? ==>
      var vs := Volumes(FetchAll(fetch).result.value).value;
      && (|Retained(vs)| >= MinBooks ==> r.books == GroupByFirstAuthor(vs) && r.error == s.error)
      && (|Retained(vs)| < MinBooks ==> r.books == [] && r.error == NotEnoughMessage)
  {
    Finish(s, Cycle(fetch))
  }

  /** The mount effect starts the first cycle for the initial category. */
  function Mount(): (s: ViewState)
    ensures s.category == InitialCategory && s.books == [] && s.loading
    ensures s.error == "" && s.selectedBook.None?
  {
    BeginFetch(Initial())
  }

  /** A tap on a category tab: `setSelectedCategory(cat)` and, when the
      category actually changes, the effect that starts a new cycle. The
      tabs are not rendered while a book is selected, and re-selecting the
      current category changes no state and so re-runs no effect. */
  function TapCategory(s: ViewState, cat: string): (r: ViewState)
    ensures !ListShown(s) || cat == s.category ==> r == s
    ensures ListShown(s) && cat != s.category ==>
      r.category == cat && r.loading && r.error == "" && r.books == s.books && ListShown(r)
  {
    if ListShown(s) && cat != s.category then BeginFetch(s.(category := cat)) else s
  }

  /** Everything that can happen to the screen. A cycle may resolve at any
      point: the source does not track which cycles are still in flight. */
  datatype Event =
    | CategoryTapped(cat: string)
    | BookTapped(book: Volume)
    | BackTapped
    | CycleResolved(fetch: nat -> PageResponse)

  function Step(s: ViewState, e: Event): ViewState {
    match e
    case CategoryTapped(cat) => TapCategory(s, cat)
    case BookTapped(v) => TapBook(s, v)
    case BackTapped => TapBack(s)
    case CycleResolved(fetch) => Resolve(s, fetch)
  }

  function Run(s: ViewState, events: seq<Event>): ViewState
    decreases |events|
  {
    if |events| == 0 then s else Run(Step(s, events[0]), events[1..])
  }

  /** What the screen guarantees about what it shows: the sections are well
      grouped, a non-empty list has at least 10 volumes, and the book in the
      detail view has a description and a publisher. */
  predicate Consistent(s: ViewState) {
    && WellGrouped(s.books)
    && (s.books != [] ==> Total(s.books) >= MinBooks)
    && (s.selectedBook.Some? ==> Qualifies(s.selectedBook.value))
  }

  lemma StepPreservesConsistent(s: ViewState, e: Event)
    requires Consistent(s)
    ensures Consistent(Step(s, e))
  {
    match e
    case BookTapped(v) =>
      if Tappable(s, v) {
        InAllVolumes(s.books, v);
      }
    case _ =>
  }

  /** From the mounted screen, no sequence of taps and resolving cycles
      ever leads to a list of fewer than 10 volumes (other than the empty
      one), to a volume without description or publisher on screen, or to a
      detail view whose description or publisher fallback text is used. */
  lemma {:induction false} RunPreservesConsistent(s: ViewState, events: seq<Event>)
    requires Consistent(s)
    ensures Consistent(Run(s, events))
    decreases |events|
  {
    if |events| > 0 {
      StepPreservesConsistent(s, events[0]);
      RunPreservesConsistent(Step(s, events[0]), events[1..]);
    }
  }

  lemma MountedScreenStaysConsistent(events: seq<Event>)
    ensures Consistent(Run(Mount(), events))
    ensures var s := Run(Mount(), events);
      s.selectedBook.Some? ==> Truthy(s.selectedBook.value.description) && Truthy(s.selectedBook.value.publisher)
  {
    RunPreservesConsistent(Mount(), events);
  }

  /** The threshold split for one successful retrieval: at least 10
      retained volumes replace the list and keep the (cleared) error;
      fewer empty the list and show the not-enough message. */
  lemma ThresholdSplit(s: ViewState, vs: seq<Volume>)
    ensures var r := Finish(s, Aggregate(vs));
      && (|Retained(vs)| >= MinBooks ==> r.books == GroupByFirstAuthor(vs) && r.error == s.error)
      && (|Retained(vs)| < MinBooks ==> r.books == [] && r.error == NotEnoughMessage)
      && !r.loading
  {
  }

  /** A failed request, anywhere in the page loop, leaves the list as it
      was and no grouping result reaches the state. */
  lemma FailedRequestKeepsBooks(s: ViewState, fetch: nat -> PageResponse, k: nat)
    requires k < FetchAll(fetch).requests
    requires fetch(k * PageSize).RequestFailed?
    ensures Resolve(s, fetch).books == s.books
    ensures Resolve(s, fetch).error == LoadFailedMessage
    ensures !Resolve(s, fetch).loading
  {
  }

  /** The source applies whichever cycle finishes last, whatever category
      it was started for: a cycle for the category tapped away from still
      replaces the list when it resolves after the newer one. */
  lemma LateResultOfOldCategoryWins(s: ViewState, newCat: string, older: nat -> PageResponse, newer: nat -> PageResponse)
    requires ListShown(s) && newCat != s.category
    ensures var r := Resolve(Resolve(TapCategory(s, newCat), newer), older);
      && r.category == newCat && !r.loading
      && (Cycle(older).Loaded? ==> r.books == Cycle(older).sections)
  {
  }
}
