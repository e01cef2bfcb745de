/**
  `convert`: the whole log. The HAR version and the creator are constants,
  the browser comes from the root's `version` attribute, and the pages and
  entries from the walk over the top-level samples.
 */
module Convert {
  import opened Wrappers
  import opened Jtl
  import opened Har
  import opened Entries
  import opened Walk

  /** The HAR specification version the converter follows. */
  const HarVersion: string := "1.1"

  const CreatorName: string := "WatchMouse"

  const CreatorVersion: string := "0.1"

  /** PHP's truthiness test on a string: only `""` and `"0"` are false. */
  predicate Falsy(s: string) {
    s == "" || s == "0"
  }

  /** `output_browser`: JMeter, with the root's version unless that is absent or falsy. */
  function OutputBrowser(version: Option<string>): (b: Browser)
    ensures b.name == "Jakarta JMeter"
    ensures b.version == "N/A" <==> version.None? || version.value == "" || version.value == "0" || version.value == "N/A"
    ensures b.version != "N/A" ==> version == Some(b.version)
  {
    var v := TextOf(version);
    Browser("Jakarta JMeter", if Falsy(v) then "N/A" else v)
  }

  /**
    `convert`: one page per top-level sample, and the entries the walk
    places, each built by `output_entry` for its sample and page.
   */
  method ConvertLog(root: TestResults, fmt: int -> string) returns (log: Log)
    ensures log.version == "1.1" && log.creator == Creator("WatchMouse", "0.1")
    ensures log.browser == OutputBrowser(root.version)
    ensures |log.pages| == |root.samples|
    ensures forall i :: 0 <= i < |root.samples| ==> log.pages[i] == OutputPage(root.samples[i], i, fmt)
    ensures |log.entries| == |PlacementsOf(root.samples)| == TotalEntries(root.samples)
    ensures forall i :: 0 <= i < |log.entries| ==>
              log.entries[i] == OutputEntry(PlacementsOf(root.samples)[i].sample, PlacementsOf(root.samples)[i].page, fmt)
  {
    var pages, entries := MakePagesAndEntries(root.samples, (s: Sample, id: nat) => OutputPage(s, id, fmt), (s: Sample, id: nat) => OutputEntry(s, id, fmt));
    log := Log(HarVersion, Creator(CreatorName, CreatorVersion), OutputBrowser(root.version), pages, entries);
  }

  /** An entry refers to `page_k` exactly when it was built for page `k`. */
  lemma PagerefOfEntry(s: Sample, id: nat, k: nat, fmt: int -> string)
    ensures OutputEntry(s, id, fmt).pageref == PageId(k) <==> id == k
  {
    if OutputEntry(s, id, fmt).pageref == PageId(k) {
      PageIdInjective(id, k);
    }
  }
}
