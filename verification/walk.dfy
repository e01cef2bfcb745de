/**
  `make_pages_and_entries`: the flattening walk over the top-level samples.
  Each top-level sample becomes one page; it contributes entries either for
  its children only (a redirect chain) or for itself followed by its
  children. Children of children are never visited.
 */
module Walk {
  import opened Wrappers
  import opened Jtl
  import opened Har

  /** The walk's redirect test: the sample has a first child whose status is 301 or 302. */
  predicate IsRedirectChain(s: Sample) {
    |s.children| > 0 && (IntAttr(s.children[0].rc) == 301 || IntAttr(s.children[0].rc) == 302)
  }

  /** How many entries a top-level sample contributes. */
  function EntryCount(s: Sample): nat {
    if IsRedirectChain(s) then |s.children| else |s.children| + 1
  }

  /** A sample chosen to become an entry, with the index of the page the entry refers to. */
  datatype Placed = Placed(sample: Sample, page: nat)

  /**
    Which samples of the top-level sample with index `id` become entries, in
    order: the children alone for a redirect chain, otherwise the sample
    itself and then its children.
   */
  function SamplePlacements(s: Sample, id: nat): (ps: seq<Placed>)
    ensures |ps| == EntryCount(s)
    ensures forall i :: 0 <= i < |ps| ==> ps[i].page == id
    ensures IsRedirectChain(s) ==> forall i :: 0 <= i < |s.children| ==> ps[i] == Placed(s.children[i], id)
    ensures !IsRedirectChain(s) ==> ps[0] == Placed(s, id)
    ensures !IsRedirectChain(s) ==> forall i :: 0 <= i < |s.children| ==> ps[i + 1] == Placed(s.children[i], id)
  {
    var children := seq(|s.children|, i requires 0 <= i < |s.children| => Placed(s.children[i], id));
    if IsRedirectChain(s) then children else [Placed(s, id)] + children
  }

  /** The placements of all top-level samples, in document order, the k-th sample's on page k. */
  function PlacementsOf(samples: seq<Sample>): seq<Placed>
    decreases |samples|
  {
    if |samples| == 0 then []
    else
      var n := |samples| - 1;
      PlacementsOf(samples[..n]) + SamplePlacements(samples[n], n)
  }

  /** Taking one more top-level sample appends that sample's placements. */
  lemma PlacementsSnoc(samples: seq<Sample>, n: nat)
    requires n < |samples|
    ensures PlacementsOf(samples[..n + 1]) == PlacementsOf(samples[..n]) + SamplePlacements(samples[n], n)
  {
    assert samples[..n + 1][..n] == samples[..n];
  }

  /** The sum of the entry counts of the samples. */
  function TotalEntries(samples: seq<Sample>): nat
    decreases |samples|
  {
    if |samples| == 0 then 0
    else TotalEntries(samples[..|samples| - 1]) + EntryCount(samples[|samples| - 1])
  }

  lemma {:induction false} PlacementsCount(samples: seq<Sample>)
    ensures |PlacementsOf(samples)| == TotalEntries(samples)
    decreases |samples|
  {
    if |samples| > 0 {
      PlacementsCount(samples[..|samples| - 1]);
    }
  }

  /** `entries` is one entry per placement, built by `entryOf` from the placed sample and its page index. */
  predicate EntriesFor(entries: seq<Entry>, ps: seq<Placed>, entryOf: (Sample, nat) -> Entry) {
    |entries| == |ps| && forall i :: 0 <= i < |ps| ==> entries[i] == entryOf(ps[i].sample, ps[i].page)
  }

  /**
    The walk as the converter performs it: a loop over the top-level
    samples with an index that advances once per sample, emitting the
    page, then the parent's entry unless the sample is a redirect chain,
    then one entry per child. `pageOf` and `entryOf` build the records
    (`output_page` and `output_entry`).
   */
  method MakePagesAndEntries(samples: seq<Sample>, pageOf: (Sample, nat) -> Page, entryOf: (Sample, nat) -> Entry)
    returns (pages: seq<Page>, entries: seq<Entry>)
    ensures |pages| == |samples|
    ensures forall i :: 0 <= i < |samples| ==> pages[i] == pageOf(samples[i], i)
    ensures EntriesFor(entries, PlacementsOf(samples), entryOf)
    ensures |entries| == TotalEntries(samples)
  {
    pages, entries := [], [];
    var id := 0;
    while id < |samples|
      invariant 0 <= id <= |samples|
      invariant |pages| == id
      invariant forall i :: 0 <= i < id ==> pages[i] == pageOf(samples[i], i)
      invariant EntriesFor(entries, PlacementsOf(samples[..id]), entryOf)
    {
      pages := pages + [pageOf(samples[id], id)];
      entries := AppendSampleEntries(entries, PlacementsOf(samples[..id]), samples[id], id, entryOf);
      PlacementsSnoc(samples, id);
      id := id + 1;
    }
    assert samples[..id] == samples;
    PlacementsCount(samples);
  }

  /** One iteration of the walk: the parent's entry unless it heads a redirect chain, then the children's. */
  method AppendSampleEntries(entries: seq<Entry>, ghost done: seq<Placed>, sample: Sample, id: nat,
                             entryOf: (Sample, nat) -> Entry)
    returns (out: seq<Entry>)
    requires EntriesFor(entries, done, entryOf)
    ensures EntriesFor(out, done + SamplePlacements(sample, id), entryOf)
  {
    ghost var ps := SamplePlacements(sample, id);
    ghost var head := if IsRedirectChain(sample) then 0 else 1;
    assert done + ps[..0] == done;
    out := entries;
    if !IsRedirectChain(sample) {
      EntriesForSnoc(out, done, ps, 0, entryOf);
      out := out + [entryOf(sample, id)];
    }
    var k := 0;
    while k < |sample.children|
      invariant 0 <= k <= |sample.children|
      invariant EntriesFor(out, done + ps[..head + k], entryOf)
    {
      EntriesForSnoc(out, done, ps, head + k, entryOf);
      out := out + [entryOf(sample.children[k], id)];
      k := k + 1;
    }
    assert ps[..head + k] == ps;
  }

  /** Building the entry of one more placement extends the correspondence by one. */
  lemma EntriesForSnoc(entries: seq<Entry>, done: seq<Placed>, ps: seq<Placed>, j: nat,
                       entryOf: (Sample, nat) -> Entry)
    requires j < |ps|
    requires EntriesFor(entries, done + ps[..j], entryOf)
    ensures EntriesFor(entries + [entryOf(ps[j].sample, ps[j].page)], done + ps[..j + 1], entryOf)
  {
    assert done + ps[..j + 1] == (done + ps[..j]) + [ps[j]];
  }

  /** How many placements are on page `k`. */
  function CountPage(ps: seq<Placed>, k: nat): nat
    decreases |ps|
  {
    if |ps| == 0 then 0
    else CountPage(ps[..|ps| - 1], k) + (if ps[|ps| - 1].page == k then 1 else 0)
  }

  lemma {:induction false} CountPageAppend(a: seq<Placed>, b: seq<Placed>, k: nat)
    ensures CountPage(a + b, k) == CountPage(a, k) + CountPage(b, k)
    decreases |b|
  {
    if |b| == 0 {
      assert a + b == a;
    } else {
      var n := |b| - 1;
      assert (a + b)[..|a + b| - 1] == a + b[..n];
      CountPageAppend(a, b[..n], k);
    }
  }

  lemma {:induction false} CountPageUniform(ps: seq<Placed>, id: nat, k: nat)
    requires forall i :: 0 <= i < |ps| ==> ps[i].page == id
    ensures CountPage(ps, k) == if k == id then |ps| else 0
    decreases |ps|
  {
    if |ps| > 0 {
      var n := |ps| - 1;
      CountPageUniform(ps[..n], id, k);
    }
  }

  /**
    The page with index `k` receives exactly the entries of the k-th
    top-level sample: as many as that sample contributes, and none for an
    index past the last sample.
   */
  lemma {:induction false} EntriesPerPage(samples: seq<Sample>, k: nat)
    ensures CountPage(PlacementsOf(samples), k) == if k < |samples| then EntryCount(samples[k]) else 0
    decreases |samples|
  {
    if |samples| > 0 {
      var n := |samples| - 1;
      var init := samples[..n];
      EntriesPerPage(init, k);
      CountPageAppend(PlacementsOf(init), SamplePlacements(samples[n], n), k);
      CountPageUniform(SamplePlacements(samples[n], n), n, k);
      if k < n {
        assert init[k] == samples[k];
      }
    }
  }

  lemma PrefixOfConcat(a: seq<Placed>, b: seq<Placed>, c: seq<Placed>)
    requires a <= b
    ensures a <= b + c
  {
    assert (b + c)[..|a|] == b[..|a|];
  }

  /** Adding samples after the first `k` only appends entries: earlier pages' entries come first. */
  lemma {:induction false} PlacementsPrefix(samples: seq<Sample>, k: nat)
    requires k <= |samples|
    ensures PlacementsOf(samples[..k]) <= PlacementsOf(samples)
    decreases |samples|
  {
    if k < |samples| {
      var n := |samples| - 1;
      assert samples[..n][..k] == samples[..k];
      PlacementsPrefix(samples[..n], k);
      PlacementsSnoc(samples, n);
      assert samples[..n + 1] == samples;
      PrefixOfConcat(PlacementsOf(samples[..k]), PlacementsOf(samples[..n]), SamplePlacements(samples[n], n));
    } else {
      assert samples[..k] == samples;
    }
  }

  /**
    A parent whose first child answered 302 is a redirect chain: only the
    children become entries. With 303 it is not: the parent comes first.
   */
  lemma RedirectBoundary(s: Sample)
    requires |s.children| == 2
    ensures s.children[0].rc == Some(302) ==>
              SamplePlacements(s, 0) == [Placed(s.children[0], 0), Placed(s.children[1], 0)]
    ensures s.children[0].rc == Some(303) ==>
              SamplePlacements(s, 0) == [Placed(s, 0), Placed(s.children[0], 0), Placed(s.children[1], 0)]
  {
  }

  /**
    Two top-level samples, the first a redirect chain of two hops and the
    second a page with one embedded resource: two pages and four entries,
    the first two on page 0 and the last two on page 1.
   */
  lemma WalkExample(a: Sample, b: Sample)
    requires |a.children| == 2 && a.children[0].rc == Some(301)
    requires |b.children| == 1 && b.children[0].rc.None?
    ensures PlacementsOf([a, b]) == [Placed(a.children[0], 0), Placed(a.children[1], 0), Placed(b, 1), Placed(b.children[0], 1)]
  {
    assert [a, b][..1] == [a];
    assert [a][..0] == [];
    assert IsRedirectChain(a) && !IsRedirectChain(b);
    assert SamplePlacements(a, 0) == [Placed(a.children[0], 0), Placed(a.children[1], 0)];
    assert SamplePlacements(b, 1) == [Placed(b, 1), Placed(b.children[0], 1)];
    assert PlacementsOf([a]) == PlacementsOf([a][..0]) + SamplePlacements([a][0], 0);
    assert PlacementsOf([a, b]) == PlacementsOf([a, b][..1]) + SamplePlacements([a, b][1], 1);
  }
}
