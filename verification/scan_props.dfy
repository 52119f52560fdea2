/** Properties of a whole pass of `check_all_sites` (the fold `Scan.CheckAllSites`). */
module ScanProperties {
  import opened Wrappers
  import opened Records
  import opened Scan

  /** After a scan every configured URL has a snapshot, no other URL gains
      one, and the snapshots of URLs that are not configured are untouched. */
  lemma ScanCoversConfig(sites: seq<Site>, probes: seq<Probe>, snaps: map<Url, Snapshot>)
    requires |probes| == |sites|
    ensures var r := CheckAllSites(sites, probes, snaps);
            && r.snapshots.Keys == snaps.Keys + UrlSet(sites)
            && forall u :: u in snaps && u !in UrlSet(sites) ==> r.snapshots[u] == snaps[u]
  {
    ScanKeys(sites, probes, snaps);
    ScanLeavesOthers(sites, probes, snaps);
  }

  /** After the scan the snapshot map has an entry for every loaded or configured URL, and no other. */
  lemma {:induction false} ScanKeys(sites: seq<Site>, probes: seq<Probe>, snaps: map<Url, Snapshot>)
    requires |probes| == |sites|
    ensures CheckAllSites(sites, probes, snaps).snapshots.Keys == snaps.Keys + UrlSet(sites)
    decreases |sites|
  {
    if |sites| > 0 {
      var n := |sites| - 1;
      ScanKeys(sites[..n], probes[..n], snaps);
      SnapshotStep(sites, probes, snaps);
      UrlSetSnoc(sites);
    }
  }

  /** The scan leaves the snapshot of an unconfigured URL as loaded. */
  lemma {:induction false} ScanLeavesOthers(sites: seq<Site>, probes: seq<Probe>, snaps: map<Url, Snapshot>)
    requires |probes| == |sites|
    ensures var r := CheckAllSites(sites, probes, snaps).snapshots;
            forall u :: u in snaps && u !in UrlSet(sites) ==> u in r && r[u] == snaps[u]
    decreases |sites|
  {
    if |sites| > 0 {
      var n := |sites| - 1;
      var r := CheckAllSites(sites, probes, snaps).snapshots;
      ScanLeavesOthers(sites[..n], probes[..n], snaps);
      SnapshotStep(sites, probes, snaps);
      UrlSetSnoc(sites);
      forall u | u in snaps && u !in UrlSet(sites)
        ensures u in r && r[u] == snaps[u]
      {
        assert u !in UrlSet(sites[..n]) && u != sites[n].url;
      }
    }
  }

  /** One step of the fold, seen from the snapshot map. */
  lemma SnapshotStep(sites: seq<Site>, probes: seq<Probe>, snaps: map<Url, Snapshot>)
    requires |probes| == |sites| > 0
    ensures var n := |sites| - 1;
            var prev := CheckAllSites(sites[..n], probes[..n], snaps).snapshots;
            var r := CheckAllSites(sites, probes, snaps).snapshots;
            && r.Keys == prev.Keys + {sites[n].url}
            && forall u :: u in prev && u != sites[n].url ==> r[u] == prev[u]
  {
  }

  /** Site `i` of the saved config is site `i` of the loaded one, with the
      fetched title adopted exactly when it is truthy and new; `config_changed`
      is set exactly when some title was adopted. */
  lemma ScanRetitles(sites: seq<Site>, probes: seq<Probe>, snaps: map<Url, Snapshot>)
    requires |probes| == |sites|
    ensures var r := CheckAllSites(sites, probes, snaps);
            && |r.sites| == |sites|
            && (forall i :: 0 <= i < |sites| ==> r.sites[i] == Retitled(sites[i], probes[i].result))
            && (r.configChanged <==> exists i :: 0 <= i < |sites| && TitleUpdate(sites[i], probes[i].result))
  {
    ScanRetitlesSites(sites, probes, snaps);
    ScanFlagsTitleUpdate(sites, probes, snaps);
  }

  /** One step of the fold, seen from the saved site list and the flag. */
  lemma RetitleStep(sites: seq<Site>, probes: seq<Probe>, snaps: map<Url, Snapshot>)
    requires |probes| == |sites| > 0
    ensures var n := |sites| - 1;
            var prev := CheckAllSites(sites[..n], probes[..n], snaps);
            var r := CheckAllSites(sites, probes, snaps);
            && r.sites == prev.sites + [Retitled(sites[n], probes[n].result)]
            && r.configChanged == (prev.configChanged || TitleUpdate(sites[n], probes[n].result))
  {
  }

  lemma ScanRetitlesSites(sites: seq<Site>, probes: seq<Probe>, snaps: map<Url, Snapshot>)
    requires |probes| == |sites|
    ensures var r := CheckAllSites(sites, probes, snaps);
            forall i :: 0 <= i < |sites| ==> r.sites[i] == Retitled(sites[i], probes[i].result)
  {
    forall i | 0 <= i < |sites|
      ensures CheckAllSites(sites, probes, snaps).sites[i] == Retitled(sites[i], probes[i].result)
    {
      SiteAfterScan(sites, probes, snaps, i);
    }
  }

  lemma {:induction false} SiteAfterScan(sites: seq<Site>, probes: seq<Probe>, snaps: map<Url, Snapshot>, i: int)
    requires |probes| == |sites| && 0 <= i < |sites|
    ensures CheckAllSites(sites, probes, snaps).sites[i] == Retitled(sites[i], probes[i].result)
    decreases |sites|
  {
    var n := |sites| - 1;
    RetitleStep(sites, probes, snaps);
    if i < n {
      SiteAfterScan(sites[..n], probes[..n], snaps, i);
      assert sites[..n][i] == sites[i] && probes[..n][i] == probes[i];
    }
  }

  lemma ScanFlagsTitleUpdate(sites: seq<Site>, probes: seq<Probe>, snaps: map<Url, Snapshot>)
    requires |probes| == |sites|
    ensures CheckAllSites(sites, probes, snaps).configChanged
            <==> exists i :: 0 <= i < |sites| && TitleUpdate(sites[i], probes[i].result)
  {
    if exists i :: 0 <= i < |sites| && TitleUpdate(sites[i], probes[i].result) {
      var i :| 0 <= i < |sites| && TitleUpdate(sites[i], probes[i].result);
      FlagSetBy(sites, probes, snaps, i);
    } else {
      FlagClearWithout(sites, probes, snaps);
    }
  }

  lemma {:induction false} FlagSetBy(sites: seq<Site>, probes: seq<Probe>, snaps: map<Url, Snapshot>, i: int)
    requires |probes| == |sites| && 0 <= i < |sites| && TitleUpdate(sites[i], probes[i].result)
    ensures CheckAllSites(sites, probes, snaps).configChanged
    decreases |sites|
  {
    var n := |sites| - 1;
    RetitleStep(sites, probes, snaps);
    if i < n {
      assert sites[..n][i] == sites[i] && probes[..n][i] == probes[i];
      FlagSetBy(sites[..n], probes[..n], snaps, i);
    }
  }

  lemma {:induction false} FlagClearWithout(sites: seq<Site>, probes: seq<Probe>, snaps: map<Url, Snapshot>)
    requires |probes| == |sites|
    requires forall i :: 0 <= i < |sites| ==> !TitleUpdate(sites[i], probes[i].result)
    ensures !CheckAllSites(sites, probes, snaps).configChanged
    decreases |sites|
  {
    if |sites| > 0 {
      var n := |sites| - 1;
      RetitleStep(sites, probes, snaps);
      assert forall i :: 0 <= i < n ==> sites[..n][i] == sites[i] && probes[..n][i] == probes[i];
      FlagClearWithout(sites[..n], probes[..n], snaps);
    }
  }

  /** The config is saved (`config_changed`) exactly when the list to save
      differs from the one loaded. */
  lemma ConfigSavedIffChanged(sites: seq<Site>, probes: seq<Probe>, snaps: map<Url, Snapshot>)
    requires |probes| == |sites|
    ensures var r := CheckAllSites(sites, probes, snaps);
            r.configChanged <==> r.sites != sites
  {
    ScanRetitles(sites, probes, snaps);
    var r := CheckAllSites(sites, probes, snaps);
    if r.configChanged {
      var i :| 0 <= i < |sites| && TitleUpdate(sites[i], probes[i].result);
      assert r.sites[i] != sites[i];
    }
    if r.sites != sites {
      var i :| 0 <= i < |sites| && r.sites[i] != sites[i];
      assert TitleUpdate(sites[i], probes[i].result);
    }
  }

  /** Where each change record came from: `idx[k]` is the config position of
      the site that produced `changes[k]`. */
  ghost predicate Origins(sites: seq<Site>, probes: seq<Probe>, changes: seq<ChangeRecord>, idx: seq<int>)
    requires |probes| == |sites|
  {
    && |idx| == |changes|
    && (forall k :: 0 <= k < |idx| ==> 0 <= idx[k] < |sites|)
    && (forall k, l :: 0 <= k < l < |idx| ==> idx[k] < idx[l])
    && (forall k :: 0 <= k < |idx| ==>
          && probes[idx[k]].result.Fetched?
          && changes[k].url == sites[idx[k]].url
          && changes[k].category == Some(CategoryOf(sites[idx[k]]))
          && changes[k].newHash == probes[idx[k]].result.hash
          && changes[k].detectedAt == probes[idx[k]].at)
  }

  /** Change records come in config order, at most one per site, each from a
      site whose fetch succeeded, carrying that site's URL, category, new
      hash and check time. */
  lemma {:induction false} ChangesFollowConfigOrder(sites: seq<Site>, probes: seq<Probe>, snaps: map<Url, Snapshot>)
    requires |probes| == |sites|
    ensures exists idx :: Origins(sites, probes, CheckAllSites(sites, probes, snaps).changes, idx)
    decreases |sites|
  {
    if |sites| == 0 {
      assert CheckAllSites(sites, probes, snaps).changes == [];
      assert Origins(sites, probes, [], []);
    } else {
      var n := |sites| - 1;
      ChangesFollowConfigOrder(sites[..n], probes[..n], snaps);
      var prev := CheckAllSites(sites[..n], probes[..n], snaps);
      var idx0 :| Origins(sites[..n], probes[..n], prev.changes, idx0);
      var c := CheckSite(sites[n], probes[n], prev.snapshots);
      assert CheckAllSites(sites, probes, snaps) == Absorb(prev, c);
      OriginsSnoc(sites, probes, prev.changes, idx0, c.change);
    }
  }

  lemma OriginsSnoc(sites: seq<Site>, probes: seq<Probe>, changes: seq<ChangeRecord>, idx: seq<int>,
                    extra: Option<ChangeRecord>)
    requires |probes| == |sites| > 0
    requires Origins(sites[..|sites| - 1], probes[..|sites| - 1], changes, idx)
    requires extra.Some? ==>
               var n := |sites| - 1;
               && probes[n].result.Fetched?
               && extra.value == ChangeRecord(sites[n].url, Some(CategoryOf(sites[n])), extra.value.previousHash,
                                              probes[n].result.hash, probes[n].at)
    ensures Origins(sites, probes, changes + (if extra.Some? then [extra.value] else []),
                    if extra.Some? then idx + [|sites| - 1] else idx)
  {
    var n := |sites| - 1;
    OriginsWiden(sites, probes, changes, idx);
    if extra.Some? {
      OriginsAppend(sites, probes, changes, idx, extra.value);
    } else {
      assert changes + [] == changes;
    }
  }

  /** Origins within a prefix of the config are origins within the whole config. */
  lemma OriginsWiden(sites: seq<Site>, probes: seq<Probe>, changes: seq<ChangeRecord>, idx: seq<int>)
    requires |probes| == |sites| > 0
    requires Origins(sites[..|sites| - 1], probes[..|sites| - 1], changes, idx)
    ensures Origins(sites, probes, changes, idx)
    ensures forall k :: 0 <= k < |idx| ==> idx[k] < |sites| - 1
  {
    var n := |sites| - 1;
    forall k | 0 <= k < |idx|
      ensures sites[..n][idx[k]] == sites[idx[k]] && probes[..n][idx[k]] == probes[idx[k]]
    {
    }
  }

  /** A record produced by the last site extends the origins by that site's position. */
  lemma OriginsAppend(sites: seq<Site>, probes: seq<Probe>, changes: seq<ChangeRecord>, idx: seq<int>,
                      x: ChangeRecord)
    requires |probes| == |sites| > 0
    requires Origins(sites, probes, changes, idx)
    requires forall k :: 0 <= k < |idx| ==> idx[k] < |sites| - 1
    requires var n := |sites| - 1;
             && probes[n].result.Fetched?
             && x == ChangeRecord(sites[n].url, Some(CategoryOf(sites[n])), x.previousHash,
                                  probes[n].result.hash, probes[n].at)
    ensures Origins(sites, probes, changes + [x], idx + [|sites| - 1])
  {
    var idx' := idx + [|sites| - 1];
    var changes' := changes + [x];
    assert forall k :: 0 <= k < |idx| ==> idx'[k] == idx[k] && changes'[k] == changes[k];
  }

  /** A scan keeps every snapshot in one of the shapes it writes. */
  lemma {:induction false} ScanPreservesWellFormed(sites: seq<Site>, probes: seq<Probe>, snaps: map<Url, Snapshot>)
    requires |probes| == |sites|
    requires AllWellFormed(snaps)
    ensures AllWellFormed(CheckAllSites(sites, probes, snaps).snapshots)
    decreases |sites|
  {
    if |sites| > 0 {
      var n := |sites| - 1;
      ScanPreservesWellFormed(sites[..n], probes[..n], snaps);
    }
  }

  // ---------------------------------------------------------------------
  // With distinct URLs the sequential fold is a per-site map

  /** The change records a scan would produce if every site were checked
      against the snapshot map as loaded, independently of the others. */
  function IndependentChanges(sites: seq<Site>, probes: seq<Probe>, snaps: map<Url, Snapshot>): seq<ChangeRecord>
    requires |probes| == |sites|
    decreases |sites|
  {
    if |sites| == 0 then []
    else
      var n := |sites| - 1;
      var prior := Lookup(snaps, sites[n].url);
      IndependentChanges(sites[..n], probes[..n], snaps)
      + if Detects(prior, probes[n].result)
        then [ChangeRecord(sites[n].url, Some(CategoryOf(sites[n])), prior.value.hash,
                           probes[n].result.hash, probes[n].at)]
        else []
  }

  /** When no URL is configured twice, each site's snapshot after the scan is
      the state-machine step from its snapshot as loaded, and the change list
      is exactly what checking every site independently gives: no record is
      lost, duplicated or reordered, and one fetch outcome lands per site. */
  lemma ScanIsPerSite(sites: seq<Site>, probes: seq<Probe>, snaps: map<Url, Snapshot>)
    requires |probes| == |sites|
    requires DistinctUrls(sites)
    ensures var r := CheckAllSites(sites, probes, snaps);
            && (forall i :: 0 <= i < |sites| ==>
                  && sites[i].url in r.snapshots
                  && r.snapshots[sites[i].url]
                  == NextSnapshot(Lookup(snaps, sites[i].url), probes[i].result, probes[i].at))
            && r.changes == IndependentChanges(sites, probes, snaps)
  {
    SnapshotsPerSite(sites, probes, snaps);
    ChangesPerSite(sites, probes, snaps);
  }

  lemma SnapshotsPerSite(sites: seq<Site>, probes: seq<Probe>, snaps: map<Url, Snapshot>)
    requires |probes| == |sites|
    requires DistinctUrls(sites)
    ensures var r := CheckAllSites(sites, probes, snaps);
            forall i :: 0 <= i < |sites| ==>
              && sites[i].url in r.snapshots
              && r.snapshots[sites[i].url]
                 == NextSnapshot(Lookup(snaps, sites[i].url), probes[i].result, probes[i].at)
  {
    forall i | 0 <= i < |sites|
      ensures var r := CheckAllSites(sites, probes, snaps);
              && sites[i].url in r.snapshots
              && r.snapshots[sites[i].url]
                 == NextSnapshot(Lookup(snaps, sites[i].url), probes[i].result, probes[i].at)
    {
      SnapshotOfSite(sites, probes, snaps, i);
    }
  }

  lemma {:induction false} SnapshotOfSite(sites: seq<Site>, probes: seq<Probe>, snaps: map<Url, Snapshot>, i: int)
    requires |probes| == |sites|
    requires DistinctUrls(sites)
    requires 0 <= i < |sites|
    ensures var r := CheckAllSites(sites, probes, snaps);
            && sites[i].url in r.snapshots
            && r.snapshots[sites[i].url]
               == NextSnapshot(Lookup(snaps, sites[i].url), probes[i].result, probes[i].at)
    decreases |sites|
  {
    var n := |sites| - 1;
    var prev := CheckAllSites(sites[..n], probes[..n], snaps);
    var c := CheckSite(sites[n], probes[n], prev.snapshots);
    assert CheckAllSites(sites, probes, snaps).snapshots == c.snapshots;
    if i == n {
      LastSiteSeesLoadedSnapshot(sites, probes, snaps);
    } else {
      DistinctPrefix(sites);
      SnapshotOfSite(sites[..n], probes[..n], snaps, i);
      assert sites[..n][i] == sites[i] && probes[..n][i] == probes[i];
      OtherUrlUntouched(sites[n], probes[n], prev.snapshots, sites[i].url);
    }
  }

  lemma OtherUrlUntouched(site: Site, probe: Probe, snaps: map<Url, Snapshot>, u: Url)
    requires u in snaps && u != site.url
    ensures var r := CheckSite(site, probe, snaps).snapshots;
            u in r && r[u] == snaps[u]
  {
  }

  lemma {:induction false} ChangesPerSite(sites: seq<Site>, probes: seq<Probe>, snaps: map<Url, Snapshot>)
    requires |probes| == |sites|
    requires DistinctUrls(sites)
    ensures CheckAllSites(sites, probes, snaps).changes == IndependentChanges(sites, probes, snaps)
    decreases |sites|
  {
    if |sites| > 0 {
      var n := |sites| - 1;
      DistinctPrefix(sites);
      ChangesPerSite(sites[..n], probes[..n], snaps);
      LastSiteSeesLoadedSnapshot(sites, probes, snaps);
      var prev := CheckAllSites(sites[..n], probes[..n], snaps);
      var c := CheckSite(sites[n], probes[n], prev.snapshots);
      assert CheckAllSites(sites, probes, snaps) == Absorb(prev, c);
    }
  }

  lemma DistinctPrefix(sites: seq<Site>)
    requires |sites| > 0 && DistinctUrls(sites)
    ensures DistinctUrls(sites[..|sites| - 1])
    ensures forall i :: 0 <= i < |sites| - 1 ==> sites[i].url != sites[|sites| - 1].url
  {
  }

  /** With distinct URLs, the last site's URL is untouched by the sites before it. */
  lemma LastSiteSeesLoadedSnapshot(sites: seq<Site>, probes: seq<Probe>, snaps: map<Url, Snapshot>)
    requires |probes| == |sites| > 0
    requires DistinctUrls(sites)
    ensures var n := |sites| - 1;
            Lookup(CheckAllSites(sites[..n], probes[..n], snaps).snapshots, sites[n].url)
            == Lookup(snaps, sites[n].url)
  {
    var n := |sites| - 1;
    var url := sites[n].url;
    ScanCoversConfig(sites[..n], probes[..n], snaps);
    assert url !in UrlSet(sites[..n]);
  }

  /** Error isolation: with distinct URLs, a site whose fetch fails ends in
      the error state and no change record names it; every other site is
      processed as if the failure had not happened (`ScanIsPerSite`). */
  lemma FailedSiteIsolated(sites: seq<Site>, probes: seq<Probe>, snaps: map<Url, Snapshot>, k: int)
    requires |probes| == |sites|
    requires DistinctUrls(sites)
    requires 0 <= k < |sites| && probes[k].result.FetchFailed?
    ensures var r := CheckAllSites(sites, probes, snaps);
            && sites[k].url in r.snapshots
            && r.snapshots[sites[k].url] == Snapshot(None, probes[k].at, Error, Some(probes[k].result.error), NoPrevious)
            && forall c :: c in r.changes ==> c.url != sites[k].url
  {
    ScanIsPerSite(sites, probes, snaps);
    NoRecordNamesFailedSite(sites, probes, snaps, k);
  }

  lemma {:induction false} NoRecordNamesFailedSite(sites: seq<Site>, probes: seq<Probe>, snaps: map<Url, Snapshot>, k: int)
    requires |probes| == |sites|
    requires DistinctUrls(sites)
    requires 0 <= k < |sites| && probes[k].result.FetchFailed?
    ensures forall c :: c in IndependentChanges(sites, probes, snaps) ==> c.url != sites[k].url
    decreases |sites|
  {
    var n := |sites| - 1;
    if k < n {
      NoRecordNamesFailedSite(sites[..n], probes[..n], snaps, k);
    } else if n > 0 {
      NoRecordNamesOther(sites[..n], probes[..n], snaps, sites[k].url);
    }
  }

  lemma {:induction false} NoRecordNamesOther(sites: seq<Site>, probes: seq<Probe>, snaps: map<Url, Snapshot>, url: Url)
    requires |probes| == |sites|
    requires forall i :: 0 <= i < |sites| ==> sites[i].url != url
    ensures forall c :: c in IndependentChanges(sites, probes, snaps) ==> c.url != url
    decreases |sites|
  {
    if |sites| > 0 {
      var n := |sites| - 1;
      NoRecordNamesOther(sites[..n], probes[..n], snaps, url);
    }
  }

  // ---------------------------------------------------------------------
  // Across two scans

  /** A transient error costs the stored hash: a site that fetched `h`,
      then failed, then fetched `h` again is reported as changed, with no
      previous hash, although its content never changed. */
  lemma ChangeReportedAfterError(site: Site, snaps: map<Url, Snapshot>, h: Hash, title: Option<string>, code: int,
                                  e: string, t1: Timestamp, t2: Timestamp)
    requires site.url in snaps && snaps[site.url].hash == Some(h)
    ensures var afterError := CheckSite(site, Probe(FetchFailed(e), t1), snaps).snapshots;
            var again := CheckSite(site, Probe(Fetched(h, title, code), t2), afterError);
            && afterError[site.url].hash.None?
            && again.change == Some(ChangeRecord(site.url, Some(CategoryOf(site)), None, h, t2))
            && again.snapshots[site.url].status == Changed
  {
  }

  /** Two successive fetches of a site yield a change record at the second
      exactly when the two hashes differ; the first is only a baseline. */
  lemma SecondFetchChangeIffHashDiffers(site: Site, snaps: map<Url, Snapshot>, a: FetchResult, b: FetchResult,
                                         t1: Timestamp, t2: Timestamp)
    requires site.url !in snaps
    requires a.Fetched? && b.Fetched?
    ensures var first := CheckSite(site, Probe(a, t1), snaps);
            var second := CheckSite(site, Probe(b, t2), first.snapshots);
            && first.change.None? && first.snapshots[site.url].status == Baseline
            && (second.change.Some? <==> a.hash != b.hash)
            && (second.change.None? ==> second.snapshots[site.url].status == Unchanged)
  {
  }
}
