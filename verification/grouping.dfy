/**
  The accumulation idiom both screens use to build their sections:
  `if (!grouped[k]) grouped[k] = []; grouped[k].push(v)` for each
  (author, volume) entry in order, then
  `Object.keys(grouped).map(k => ({title: k, data: grouped[k]}))`.
  The object is represented by its list of sections in key insertion
  order. Keys, Select and FirstIndex are reference definitions of what the
  result should be, written independently of the accumulation.
 */
module Grouping {
  import opened Books

  /** One `push`: a volume filed under an author key. */
  datatype Entry = Entry(key: string, volume: Volume)

  function VolumesOf(es: seq<Entry>): (r: seq<Volume>)
    ensures |r| == |es|
    ensures forall i :: 0 <= i < |es| ==> r[i] == es[i].volume
  {
    seq(|es|, i requires 0 <= i < |es| => es[i].volume)
  }

  /** Some entry is filed under `k`. */
  predicate Occurs(es: seq<Entry>, k: string) {
    exists i :: 0 <= i < |es| && es[i].key == k
  }

  /** An author occurs in `es` exactly when it occurs before the last entry
      or is the last entry's key. */
  lemma OccursSnoc(es: seq<Entry>)
    requires |es| > 0
    ensures forall k :: Occurs(es, k) <==> Occurs(es[..|es| - 1], k) || es[|es| - 1].key == k
  {
  }

  /** The distinct keys of `es`, each at the place it first occurs. */
  function Keys(es: seq<Entry>): (r: seq<string>)
    ensures forall k :: k in r <==> Occurs(es, k)
    ensures forall i, j :: 0 <= i < j < |r| ==> r[i] != r[j]
    decreases |es|
  {
    if |es| == 0 then []
    else
      var q := es[..|es| - 1];
      var ks := Keys(q);
      OccursSnoc(es);
      if es[|es| - 1].key in ks then ks else ks + [es[|es| - 1].key]
  }

  /** The volumes filed under `k`, in entry order. */
  function Select(es: seq<Entry>, k: string): seq<Volume>
    decreases |es|
  {
    if |es| == 0 then []
    else
      var last := es[|es| - 1];
      Select(es[..|es| - 1], k) + (if last.key == k then [last.volume] else [])
  }

  /** The position of the first entry filed under `k`. */
  function FirstIndex(es: seq<Entry>, k: string): (p: nat)
    requires Occurs(es, k)
    ensures p < |es| && es[p].key == k
    ensures forall q :: 0 <= q < p ==> es[q].key != k
    decreases |es|
  {
    var q := es[..|es| - 1];
    if Occurs(q, k) then
      var p := FirstIndex(q, k);
      assert es[p] == q[p];
      p
    else
      assert forall i :: 0 <= i < |q| ==> es[i].key != k by {
        forall i | 0 <= i < |q| ensures es[i].key != k {
          assert es[i] == q[i];
        }
      }
      |es| - 1
  }

  /** `grouped[k]`: the position of the section keyed `k`, or -1 when the
      object has no such key yet. */
  function TitleIndex(secs: seq<Section>, k: string): (j: int)
    ensures -1 <= j < |secs|
    ensures 0 <= j ==> secs[j].title == k
    ensures j < 0 <==> forall i :: 0 <= i < |secs| ==> secs[i].title != k
    decreases |secs|
  {
    if |secs| == 0 then -1
    else if secs[0].title == k then 0
    else
      var j := TitleIndex(secs[1..], k);
      assert forall i :: 1 <= i < |secs| ==> secs[i] == secs[1..][i - 1];
      if j < 0 then -1 else j + 1
  }

  /** One accumulation step: file `v` under `k`, opening a new section at
      the end when `k` is not yet a key. */
  function Push(secs: seq<Section>, k: string, v: Volume): (r: seq<Section>)
    requires DistinctTitles(secs)
    ensures DistinctTitles(r)
    ensures TitleIndex(secs, k) >= 0 ==> |r| == |secs|
    ensures TitleIndex(secs, k) < 0 ==> |r| == |secs| + 1 && r[|secs|] == Section(k, [v])
    ensures forall i :: 0 <= i < |secs| ==> r[i].title == secs[i].title
    ensures forall i :: 0 <= i < |secs| ==>
      r[i].data == secs[i].data + (if secs[i].title == k then [v] else [])
  {
    var j := TitleIndex(secs, k);
    if j >= 0 then secs[j := Section(k, secs[j].data + [v])]
    else secs + [Section(k, [v])]
  }

  /** The whole `forEach`: pushes the entries in order into an empty
      object. The sections are exactly the distinct keys in first-occurrence
      order, and each holds precisely the volumes filed under its key, in
      entry order. */
  function Group(es: seq<Entry>): (r: seq<Section>)
    ensures DistinctTitles(r)
    ensures |r| == |Keys(es)|
    ensures forall i :: 0 <= i < |r| ==> r[i].title == Keys(es)[i]
    ensures forall i :: 0 <= i < |r| ==> r[i].data == Select(es, r[i].title)
    decreases |es|
  {
    if |es| == 0 then []
    else
      var q := es[..|es| - 1];
      var last := es[|es| - 1];
      var g := Group(q);
      SelectNonEmpty(q, last.key);
      assert last.key in Keys(q) <==> TitleIndex(g, last.key) >= 0 by {
        if last.key in Keys(q) {
          var i :| 0 <= i < |Keys(q)| && Keys(q)[i] == last.key;
          assert g[i].title == last.key;
        }
      }
      Push(g, last.key, last.volume)
  }

  /** A key has volumes filed under it exactly when some entry carries it. */
  lemma {:induction false} SelectNonEmpty(es: seq<Entry>, k: string)
    ensures Occurs(es, k) <==> |Select(es, k)| > 0
    decreases |es|
  {
    if |es| > 0 {
      OccursSnoc(es);
      SelectNonEmpty(es[..|es| - 1], k);
    }
  }

  /** Section order is first-occurrence order of the keys. */
  lemma {:induction false} KeysInFirstOccurrenceOrder(es: seq<Entry>)
    ensures forall i, j :: 0 <= i < j < |Keys(es)| ==>
      FirstIndex(es, Keys(es)[i]) < FirstIndex(es, Keys(es)[j])
    decreases |es|
  {
    if |es| > 0 {
      var q := es[..|es| - 1];
      var last := es[|es| - 1];
      KeysInFirstOccurrenceOrder(q);
      OccursSnoc(es);
      var ks := Keys(q);
      forall k | k in ks ensures FirstIndex(es, k) == FirstIndex(q, k) {
        assert Occurs(q, k);
      }
      if last.key !in ks {
        assert !Occurs(q, last.key);
        assert FirstIndex(es, last.key) == |es| - 1;
        forall i | 0 <= i < |ks| ensures FirstIndex(es, ks[i]) < |es| - 1 {
          assert ks[i] in ks;
          assert FirstIndex(q, ks[i]) < |q|;
        }
      }
    }
  }

  /** Adding one volume adds exactly it to the flattened sections. */
  lemma PushAddsOne(secs: seq<Section>, k: string, v: Volume)
    requires DistinctTitles(secs)
    ensures multiset(AllVolumes(Push(secs, k, v))) == multiset(AllVolumes(secs)) + multiset{v}
  {
    var j := TitleIndex(secs, k);
    if j >= 0 {
      AppendToSection(secs, j, v);
    } else {
      AllVolumesAppend(secs, Section(k, [v]));
    }
  }

  /** Partition: every entry's volume lands in the sections exactly once,
      so no volume is lost or duplicated. */
  lemma {:induction false} GroupPartitions(es: seq<Entry>)
    ensures multiset(AllVolumes(Group(es))) == multiset(VolumesOf(es))
    decreases |es|
  {
    if |es| == 0 {
      assert Group(es) == [] && VolumesOf(es) == [];
    } else {
      var q := es[..|es| - 1];
      var last := es[|es| - 1];
      GroupPartitions(q);
      GroupSnoc(es);
      VolumesOfSnoc(es);
      PushPartitions(Group(q), last.key, last.volume, VolumesOf(q));
    }
  }

  /** The section sizes add up to the number of pushes. */
  lemma GroupTotal(es: seq<Entry>)
    ensures Total(Group(es)) == |es|
  {
    GroupPartitions(es);
    SameCount(Group(es), VolumesOf(es));
  }

  lemma VolumesOfSnoc(es: seq<Entry>)
    requires |es| > 0
    ensures VolumesOf(es) == VolumesOf(es[..|es| - 1]) + [es[|es| - 1].volume]
  {
  }

  /** One unfolding of the accumulation. */
  lemma GroupSnoc(es: seq<Entry>)
    requires |es| > 0
    ensures Group(es) == Push(Group(es[..|es| - 1]), es[|es| - 1].key, es[|es| - 1].volume)
  {
  }

  lemma PushPartitions(g: seq<Section>, k: string, v: Volume, vs: seq<Volume>)
    requires DistinctTitles(g)
    requires multiset(AllVolumes(g)) == multiset(vs)
    ensures multiset(AllVolumes(Push(g, k, v))) == multiset(vs + [v])
  {
    PushAddsOne(g, k, v);
  }

  lemma SameCount(secs: seq<Section>, vs: seq<Volume>)
    requires multiset(AllVolumes(secs)) == multiset(vs)
    ensures Total(secs) == |vs|
  {
    assert |multiset(AllVolumes(secs))| == |AllVolumes(secs)|;
  }

  /** Select distributes over concatenation of entry lists. */
  lemma {:induction false} SelectAppend(a: seq<Entry>, b: seq<Entry>, k: string)
    ensures Select(a + b, k) == Select(a, k) + Select(b, k)
    decreases |b|
  {
    if |b| > 0 {
      var b' := b[..|b| - 1];
      assert (a + b)[..|a + b| - 1] == a + b';
      SelectAppend(a, b', k);
    } else {
      assert a + b == a;
    }
  }
}
