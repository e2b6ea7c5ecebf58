/**
  The data the book screens work on: the volume records returned by the
  volume-search service, the author sections built from them, and the view
  state both screens hold (category, sections, loading flag, error text and
  the selected book), together with the two navigation taps that behave the
  same on both screens.
 */
module Books {

  datatype Option<+T> = None | Some(value: T)

  /** The `volumeInfo` of one search hit. Fields the core never looks at
      (image links and the rest) are not modelled. */
  datatype Volume = Volume(
    title: string,
    authors: Option<seq<string>>,
    publisher: Option<string>,
    description: Option<string>)

  /** One element of a response's `items` array. A hit without
      `volumeInfo` is representable, because the code dereferences it. */
  datatype Item = Item(volumeInfo: Option<Volume>)

  /** The outcome of one search request: the request failed (transport,
      status or payload error), or it returned a body whose `items` may be
      absent. */
  datatype PageResponse = RequestFailed | Page(items: Option<seq<Item>>)

  /** One entry of the list handed to the section list: an author and the
      volumes filed under it. */
  datatype Section = Section(title: string, data: seq<Volume>)

  const UnknownAuthor: string := "Autor desconocido"

  /** JavaScript truthiness of an optional string field. */
  predicate Truthy(s: Option<string>) {
    s.Some? && s.value != ""
  }

  /** `response.data.items || []` */
  function PageItems(p: PageResponse): (r: seq<Item>)
    ensures p.Page? && p.items.Some? ==> r == p.items.value
    ensures p.RequestFailed? || p.items.None? ==> r == []
  {
    match p
    case Page(Some(xs)) => xs
    case _ => []
  }

  /** Reads `item.volumeInfo` of every hit in order; the first hit without
      one makes the grouping code throw, which is `None` here. */
  function Volumes(items: seq<Item>): (r: Option<seq<Volume>>)
    ensures r.Some? <==> forall i :: 0 <= i < |items| ==> items[i].volumeInfo.Some?
    ensures r.Some? ==> |r.value| == |items|
    ensures r.Some? ==> forall i :: 0 <= i < |items| ==> r.value[i] == items[i].volumeInfo.value
    decreases |items|
  {
    if |items| == 0 then Some([])
    else
      match (items[0].volumeInfo, Volumes(items[1..]))
      case (Some(v), Some(rest)) => Some([v] + rest)
      case _ => None
  }

  /** No two sections share an author: the sections come from the keys of a
      JavaScript object. */
  predicate DistinctTitles(secs: seq<Section>) {
    forall i, j :: 0 <= i < j < |secs| ==> secs[i].title != secs[j].title
  }

  /** Some section is keyed `t`. */
  predicate HasSection(secs: seq<Section>, t: string) {
    exists i :: 0 <= i < |secs| && secs[i].title == t
  }

  /** Every volume the section list shows, section by section. */
  function AllVolumes(secs: seq<Section>): seq<Volume>
    decreases |secs|
  {
    if |secs| == 0 then [] else secs[0].data + AllVolumes(secs[1..])
  }

  /** `sections.reduce((sum, s) => sum + s.data.length, 0)` */
  function Total(secs: seq<Section>): (n: nat)
    ensures n == |AllVolumes(secs)|
    decreases |secs|
  {
    if |secs| == 0 then 0 else |secs[0].data| + Total(secs[1..])
  }

  lemma {:induction false} InAllVolumes(secs: seq<Section>, v: Volume)
    ensures v in AllVolumes(secs) <==> exists i :: 0 <= i < |secs| && v in secs[i].data
    decreases |secs|
  {
    if |secs| > 0 {
      InAllVolumes(secs[1..], v);
      if v in AllVolumes(secs[1..]) {
        var i :| 0 <= i < |secs[1..]| && v in secs[1..][i].data;
        assert v in secs[i + 1].data;
      }
      if exists i :: 0 <= i < |secs| && v in secs[i].data {
        var i :| 0 <= i < |secs| && v in secs[i].data;
        if i > 0 {
          assert v in secs[1..][i - 1].data;
        }
      }
    }
  }

  lemma {:induction false} AllVolumesAppend(secs: seq<Section>, s: Section)
    ensures AllVolumes(secs + [s]) == AllVolumes(secs) + s.data
    decreases |secs|
  {
    if |secs| > 0 {
      assert (secs + [s])[1..] == secs[1..] + [s];
      AllVolumesAppend(secs[1..], s);
    }
  }

  /** Appending `v` to the data of section `j` adds `v` once to the
      flattened sections. */
  lemma {:induction false} AppendToSection(secs: seq<Section>, j: nat, v: Volume)
    requires j < |secs|
    ensures multiset(AllVolumes(secs[j := Section(secs[j].title, secs[j].data + [v])]))
         == multiset(AllVolumes(secs)) + multiset{v}
    decreases |secs|
  {
    var u := secs[j := Section(secs[j].title, secs[j].data + [v])];
    if j > 0 {
      assert u[1..] == secs[1..][j - 1 := Section(secs[j].title, secs[j].data + [v])];
      AppendToSection(secs[1..], j - 1, v);
    } else {
      assert u[1..] == secs[1..];
    }
  }

  /** The state both screens keep in React hooks; `error == ""` is the
      empty error string the code starts with and clears on every fetch. */
  datatype ViewState = ViewState(
    category: string,
    books: seq<Section>,
    loading: bool,
    error: string,
    selectedBook: Option<Volume>)

  const InitialCategory: string := "Fiction"

  /** The hook initial values, before the mount effect runs. */
  function Initial(): (s: ViewState)
    ensures s.category == InitialCategory && s.books == []
    ensures !s.loading && s.error == "" && s.selectedBook.None?
  {
    ViewState(InitialCategory, [], false, "", None)
  }

  /** `setLoading(true); setError('')` at the start of `fetchBooks`, the
      same on both screens. */
  function BeginFetch(s: ViewState): (r: ViewState)
    ensures r.loading && r.error == ""
    ensures r.category == s.category && r.books == s.books && r.selectedBook == s.selectedBook
  {
    s.(loading := true, error := "")
  }

  /** The category tabs and the list are rendered only while no book is
      selected. */
  predicate ListShown(s: ViewState) {
    s.selectedBook.None?
  }

  /** `v` is an item the section list currently renders as a touchable row:
      the list view is up, no error text replaces the list, and `v` is in
      one of the sections. The loading flag does not hide the list. */
  predicate Tappable(s: ViewState, v: Volume) {
    ListShown(s) && s.error == "" && v in AllVolumes(s.books)
  }

  /** Tapping a row: `setSelectedBook(item)`. A row that is not rendered
      cannot be tapped, so the state stays as it is. */
  function TapBook(s: ViewState, v: Volume): (r: ViewState)
    ensures Tappable(s, v) ==> r.selectedBook == Some(v)
    ensures !Tappable(s, v) ==> r == s
    ensures r.category == s.category && r.books == s.books
    ensures r.loading == s.loading && r.error == s.error
  {
    if Tappable(s, v) then s.(selectedBook := Some(v)) else s
  }

  /** The back button of the detail view: `setSelectedBook(null)`. */
  function TapBack(s: ViewState): (r: ViewState)
    ensures ListShown(r)
    ensures r.category == s.category && r.books == s.books
    ensures r.loading == s.loading && r.error == s.error
  {
    s.(selectedBook := None)
  }

  /** Going back after opening a book returns to exactly the state the
      list was in, and opening a book leaves the list (so a second tap on
      another row is impossible until back is pressed). */
  lemma TapBookThenBack(s: ViewState, v: Volume, w: Volume)
    requires Tappable(s, v)
    ensures TapBack(TapBook(s, v)) == s
    ensures !ListShown(TapBook(s, v))
    ensures TapBook(TapBook(s, v), w) == TapBook(s, v)
  {
  }
}
