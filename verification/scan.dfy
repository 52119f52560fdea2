/** `check_all_sites`: one pass over the configured sites, in config order,
    moving each URL's snapshot through the baseline / unchanged / changed /
    error state machine, collecting change records, and adopting newly seen
    page titles. The fetch of site `i` is given as `probes[i]`: its result
    and the `datetime.now()` read right after it. */
module Scan {
  import opened Wrappers
  import opened Records
  import Page

  datatype Probe = Probe(result: FetchResult, at: Timestamp)

  /** What checking one site does to the site entry and the snapshot map. */
  datatype SiteCheck = SiteCheck(
    site: Site,
    snapshots: map<Url, Snapshot>,
    change: Option<ChangeRecord>,
    titleUpdated: bool)

  /** The state of the loop: the (re-titled) sites seen so far, the snapshot
      map, the change list and the `config_changed` flag. */
  datatype ScanResult = ScanResult(
    sites: seq<Site>,
    snapshots: map<Url, Snapshot>,
    changes: seq<ChangeRecord>,
    configChanged: bool)

  function Lookup(snaps: map<Url, Snapshot>, url: Url): Option<Snapshot> {
    if url in snaps then Some(snaps[url]) else None
  }

  /** The fetch returned a truthy title that differs from the stored one. */
  predicate TitleUpdate(site: Site, result: FetchResult) {
    result.Fetched? && result.title.Some? && result.title.value != "" && site.title != result.title
  }

  /** The site entry after its check: the fetched title adopted when `TitleUpdate` holds. */
  function Retitled(site: Site, result: FetchResult): Site {
    if TitleUpdate(site, result) then site.(title := result.title) else site
  }

  /** A fetch counts as a change: it succeeded, a snapshot exists, and the
      snapshot's hash (possibly none) is not the new hash. */
  predicate Detects(prior: Option<Snapshot>, result: FetchResult) {
    result.Fetched? && prior.Some? && prior.value.hash != Some(result.hash)
  }

  /** The snapshot a URL has after one fetch, given the one it had before. */
  function NextSnapshot(prior: Option<Snapshot>, result: FetchResult, at: Timestamp): (s: Snapshot)
    ensures s.lastCheck == at
    ensures s.hash == (if result.Fetched? then Some(result.hash) else None)
    ensures s.status == Error <==> result.FetchFailed?
    ensures s.status == Baseline <==> result.Fetched? && prior.None?
    ensures s.status == Changed <==> Detects(prior, result)
    ensures s.status == Error ==> s.error == Some(result.error) && s.previousHash == NoPrevious
    ensures s.status == Changed ==> s.previousHash == Previous(prior.value.hash) && s.error.None?
    ensures s.status == Unchanged ==> s == prior.value.(lastCheck := at, status := Unchanged)
    ensures prior.None? || WellFormed(prior.value) ==> WellFormed(s)
  {
    match result
    case FetchFailed(e) => Snapshot(None, at, Error, Some(e), NoPrevious)
    case Fetched(h, _, _) =>
      if prior.None? then Snapshot(Some(h), at, Baseline, None, NoPrevious)
      else if prior.value.hash != Some(h) then Snapshot(Some(h), at, Changed, None, Previous(prior.value.hash))
      else prior.value.(lastCheck := at, status := Unchanged)
  }

  /** One iteration of the loop of `check_all_sites`. */
  function CheckSite(site: Site, probe: Probe, snaps: map<Url, Snapshot>): (r: SiteCheck)
    ensures r.snapshots.Keys == snaps.Keys + {site.url}
    ensures forall u :: u in snaps && u != site.url ==> r.snapshots[u] == snaps[u]
    ensures r.snapshots[site.url] == NextSnapshot(Lookup(snaps, site.url), probe.result, probe.at)
    ensures r.change.Some? <==> r.snapshots[site.url].status == Changed
    ensures r.change.Some? ==>
              r.change.value == ChangeRecord(site.url, Some(CategoryOf(site)), snaps[site.url].hash,
                                             probe.result.hash, probe.at)
    ensures r.site == Retitled(site, probe.result) == site.(title := r.site.title)
    ensures r.titleUpdated <==> r.site != site
    ensures r.titleUpdated ==> TitleUpdate(site, probe.result) && r.site.title == probe.result.title
  {
    var prior := Lookup(snaps, site.url);
    var next := NextSnapshot(prior, probe.result, probe.at);
    var change :=
      if Detects(prior, probe.result) then
        Some(ChangeRecord(site.url, Some(CategoryOf(site)), prior.value.hash, probe.result.hash, probe.at))
      else None;
    SiteCheck(Retitled(site, probe.result), snaps[site.url := next], change, TitleUpdate(site, probe.result))
  }

  /** Fold one site's check into the loop state. */
  function Absorb(acc: ScanResult, c: SiteCheck): ScanResult {
    ScanResult(
      acc.sites + [c.site],
      c.snapshots,
      acc.changes + (if c.change.Some? then [c.change.value] else []),
      acc.configChanged || c.titleUpdated)
  }

  /** `check_all_sites` as a left fold over the site list, starting from the
      loaded snapshot map, no changes and `config_changed = False`. */
  function CheckAllSites(sites: seq<Site>, probes: seq<Probe>, snaps: map<Url, Snapshot>): (r: ScanResult)
    requires |probes| == |sites|
    ensures |r.sites| == |sites|
    ensures |r.changes| <= |sites|
    decreases |sites|
  {
    if |sites| == 0 then ScanResult([], snaps, [], false)
    else
      var n := |sites| - 1;
      var prev := CheckAllSites(sites[..n], probes[..n], snaps);
      Absorb(prev, CheckSite(sites[n], probes[n], prev.snapshots))
  }

  /** The body of the loop of `check_all_sites`: check `config[i]`, retitle
      it in place if the fetch brought a new title, store its snapshot and
      append its change record, if any. */
  method VisitSite(config: seq<Site>, i: nat, probe: Probe, snapshots: map<Url, Snapshot>,
                   changes: seq<ChangeRecord>, configChanged: bool)
    returns (config': seq<Site>, snapshots': map<Url, Snapshot>, changes': seq<ChangeRecord>, configChanged': bool)
    requires i < |config|
    ensures var c := CheckSite(config[i], probe, snapshots);
            && config' == config[i := c.site]
            && ScanResult(config'[..i + 1], snapshots', changes', configChanged')
               == Absorb(ScanResult(config[..i], snapshots, changes, configChanged), c)
  {
    var c := CheckSite(config[i], probe, snapshots);
    config', snapshots', changes', configChanged' := config, snapshots, changes, configChanged;
    if c.titleUpdated {
      config' := config'[i := c.site];
      configChanged' := true;
    }
    snapshots' := c.snapshots;
    if c.change.Some? {
      changes' := changes' + [c.change.value];
    }
    assert config'[..i + 1] == config[..i] + [c.site];
  }

  /** The loop of `check_all_sites` as written: the config list is updated
      in place, the snapshot map and change list are threaded through. It
      computes the fold above; the config it would save is the re-titled list. */
  method CheckAllSitesLoop(sites: seq<Site>, probes: seq<Probe>, snaps: map<Url, Snapshot>)
    returns (config: seq<Site>, snapshots: map<Url, Snapshot>, changes: seq<ChangeRecord>, configChanged: bool)
    requires |probes| == |sites|
    ensures ScanResult(config, snapshots, changes, configChanged) == CheckAllSites(sites, probes, snaps)
  {
    config, snapshots, changes, configChanged := sites, snaps, [], false;
    var i := 0;
    while i < |sites|
      invariant LoopState(sites, probes, snaps, i, ScanResult(config, snapshots, changes, configChanged))
    {
      assert config[i] == sites[i] by { assert config[i..][0] == sites[i..][0]; }
      var before := ScanResult(config, snapshots, changes, configChanged);
      config, snapshots, changes, configChanged := VisitSite(config, i, probes[i], snapshots, changes, configChanged);
      LoopStep(sites, probes, snaps, i, before, ScanResult(config, snapshots, changes, configChanged));
      i := i + 1;
    }
    assert sites[..i] == sites && probes[..i] == probes && config[..i] == config;
  }

  /** The loop invariant of `CheckAllSitesLoop` after `i` iterations: the
      first `i` entries of the config and the threaded state are the fold
      over the first `i` sites; the rest of the config is untouched. */
  ghost predicate LoopState(sites: seq<Site>, probes: seq<Probe>, snaps: map<Url, Snapshot>, i: int, st: ScanResult)
    requires |probes| == |sites|
  {
    && 0 <= i <= |sites| && |st.sites| == |sites|
    && st.sites[i..] == sites[i..]
    && st.(sites := st.sites[..i]) == CheckAllSites(sites[..i], probes[..i], snaps)
  }

  /** One iteration of `CheckAllSitesLoop` keeps its invariant. */
  lemma LoopStep(sites: seq<Site>, probes: seq<Probe>, snaps: map<Url, Snapshot>, i: nat,
                 before: ScanResult, after: ScanResult)
    requires |probes| == |sites| && i < |sites|
    requires LoopState(sites, probes, snaps, i, before)
    requires var c := CheckSite(before.sites[i], probes[i], before.snapshots);
             && after.sites == before.sites[i := c.site]
             && after.(sites := after.sites[..i + 1])
                == Absorb(before.(sites := before.sites[..i]), c)
    ensures LoopState(sites, probes, snaps, i + 1, after)
  {
    assert before.sites[i] == sites[i] by { assert before.sites[i..][0] == sites[i..][0]; }
    LoopStepFold(sites, probes, snaps, i, before, after);
    assert after.sites[i + 1..] == sites[i + 1..] by {
      assert after.sites[i + 1..] == before.sites[i + 1..];
      assert before.sites[i + 1..] == before.sites[i..][1..];
    }
  }

  /** The threaded state after iteration `i` is the fold over `i + 1` sites. */
  lemma LoopStepFold(sites: seq<Site>, probes: seq<Probe>, snaps: map<Url, Snapshot>, i: nat,
                     before: ScanResult, after: ScanResult)
    requires |probes| == |sites| && i < |sites| && i <= |before.sites| && i < |after.sites|
    requires before.(sites := before.sites[..i]) == CheckAllSites(sites[..i], probes[..i], snaps)
    requires after.(sites := after.sites[..i + 1])
             == Absorb(before.(sites := before.sites[..i]), CheckSite(sites[i], probes[i], before.snapshots))
    ensures after.(sites := after.sites[..i + 1]) == CheckAllSites(sites[..i + 1], probes[..i + 1], snaps)
  {
    FoldStep(sites, probes, snaps, i);
  }

  /** Unfolding the fold at the end of a prefix. */
  lemma FoldStep(sites: seq<Site>, probes: seq<Probe>, snaps: map<Url, Snapshot>, i: nat)
    requires |probes| == |sites| && i < |sites|
    ensures var prev := CheckAllSites(sites[..i], probes[..i], snaps);
            CheckAllSites(sites[..i + 1], probes[..i + 1], snaps)
            == Absorb(prev, CheckSite(sites[i], probes[i], prev.snapshots))
  {
    assert sites[..i + 1][..i] == sites[..i];
    assert probes[..i + 1][..i] == probes[..i];
  }
}
