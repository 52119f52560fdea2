/** The Flask application's logic with the JSON files held in memory: the
    site-registry routes (`add_site`, `delete_site`, `update_category`), the
    status view of `get_sites` and `index`, the "checked today?" predicate,
    the daily job, the startup check and the manual `check_now`. Request
    fields missing from the JSON body are passed as `""` (their `.get`
    default); dates are ISO strings as written by `date.today().isoformat()`. */
module App {
  import opened Wrappers
  import opened Records
  import opened Text
  import opened Scan
  import ScanProperties
  import Notifier

  /** `config.json`, `snapshots.json` and `metadata.json`. */
  datatype Store = Store(sites: seq<Site>, snapshots: map<Url, Snapshot>, metadata: Metadata)

  datatype RegistryError = UrlRequired | UrlAlreadyMonitored | InvalidIndex

  /** The JSON body a route answers with. `CheckReport` is the reply of
      `check_now`: the change count and whether its message says an email
      was sent. */
  datatype Reply =
    | Success
    | CategorySet(category: string)
    | Rejected(error: RegistryError)
    | CheckReport(changes: nat, emailSent: bool)

  /** The store after a request, the reply, and the digest mailed (if any). */
  datatype Handled = Handled(store: Store, reply: Reply, email: Option<Notifier.Digest>)

  /** A stripped category, `Uncategorized` when blank (`category or 'Uncategorized'`). */
  function CategoryOrDefault(category: string): (r: string)
    ensures r != ""
    ensures Strip(category) != "" ==> r == Strip(category)
    ensures Strip(category) == "" ==> r == Uncategorized
  {
    var c := Strip(category);
    if c == "" then Uncategorized else c
  }

  // ---------------------------------------------------------------------
  // Site registry

  /** `add_site`. */
  function AddSite(st: Store, url: string, category: string, selector: string, now: Timestamp): (r: Handled)
    ensures r.email.None?
    ensures r.reply == Success <==> Strip(url) != "" && Strip(url) !in UrlSet(st.sites)
    ensures Strip(url) == "" ==> r.reply == Rejected(UrlRequired)
    ensures Strip(url) != "" && Strip(url) in UrlSet(st.sites) ==> r.reply == Rejected(UrlAlreadyMonitored)
    ensures r.reply != Success ==> r.store == st
    ensures r.reply == Success ==>
              && r.store.snapshots == st.snapshots && r.store.metadata == st.metadata
              && |r.store.sites| == |st.sites| + 1
              && r.store.sites[..|st.sites|] == st.sites
              && var s := r.store.sites[|st.sites|];
                 && s.url == Strip(url)
                 && s.category == Some(CategoryOrDefault(category))
                 && (s.selector.Some? <==> Strip(selector) != "")
                 && (s.selector.Some? ==> s.selector.value == Strip(selector))
                 && s.title.None?
                 && s.added == Some(now)
  {
    var u := Strip(url);
    var sel := Strip(selector);
    if u == "" then Handled(st, Rejected(UrlRequired), None)
    else if exists i :: 0 <= i < |st.sites| && st.sites[i].url == u then
      Handled(st, Rejected(UrlAlreadyMonitored), None)
    else
      var site := Site(u, Some(CategoryOrDefault(category)), if sel != "" then Some(sel) else None, None, Some(now));
      assert (st.sites + [site])[..|st.sites|] == st.sites;
      Handled(st.(sites := st.sites + [site]), Success, None)
  }

  /** `delete_site`: drop the entry at `index` and its URL's snapshot. */
  function DeleteSite(st: Store, index: int): (r: Handled)
    ensures r.email.None?
    ensures r.reply == Success <==> 0 <= index < |st.sites|
    ensures r.reply != Success ==> r.reply == Rejected(InvalidIndex) && r.store == st
    ensures r.reply == Success ==>
              && r.store.metadata == st.metadata
              && |r.store.sites| == |st.sites| - 1
              && (forall i :: 0 <= i < index ==> r.store.sites[i] == st.sites[i])
              && (forall i :: index <= i < |r.store.sites| ==> r.store.sites[i] == st.sites[i + 1])
              && r.store.snapshots.Keys == st.snapshots.Keys - {st.sites[index].url}
              && (forall u :: u in r.store.snapshots ==> r.store.snapshots[u] == st.snapshots[u])
  {
    if index < 0 || index >= |st.sites| then Handled(st, Rejected(InvalidIndex), None)
    else
      var removed := st.sites[index];
      var sites := st.sites[..index] + st.sites[index + 1..];
      var snaps := if removed.url in st.snapshots then st.snapshots - {removed.url} else st.snapshots;
      Handled(Store(sites, snaps, st.metadata), Success, None)
  }

  /** `update_category`: set one site's category, `Uncategorized` when blank. */
  function UpdateCategory(st: Store, index: int, category: string): (r: Handled)
    ensures r.email.None?
    ensures r.reply.CategorySet? <==> 0 <= index < |st.sites|
    ensures !r.reply.CategorySet? ==> r.reply == Rejected(InvalidIndex) && r.store == st
    ensures r.reply.CategorySet? ==>
              && r.reply.category == CategoryOrDefault(category)
              && r.store.snapshots == st.snapshots && r.store.metadata == st.metadata
              && |r.store.sites| == |st.sites|
              && r.store.sites[index] == st.sites[index].(category := Some(r.reply.category))
              && (forall i :: 0 <= i < |st.sites| && i != index ==> r.store.sites[i] == st.sites[i])
  {
    if index < 0 || index >= |st.sites| then Handled(st, Rejected(InvalidIndex), None)
    else
      var c := CategoryOrDefault(category);
      Handled(st.(sites := st.sites[index := st.sites[index].(category := Some(c))]), CategorySet(c), None)
  }

  /** What the registry keeps true of the site list: every URL is non-empty,
      has no surrounding whitespace, and appears once. */
  ghost predicate RegistryValid(sites: seq<Site>) {
    && DistinctUrls(sites)
    && forall i :: 0 <= i < |sites| ==> sites[i].url != "" && Trimmed(sites[i].url)
  }

  /** Adding a site keeps the site list valid: the stored URL is stripped
      (so has no surrounding whitespace), non-empty and not yet configured. */
  lemma AddSitePreservesRegistry(st: Store, url: string, category: string, selector: string, now: Timestamp)
    requires RegistryValid(st.sites)
    ensures RegistryValid(AddSite(st, url, category, selector, now).store.sites)
  {
    var r := AddSite(st, url, category, selector, now);
    if r.reply == Success {
      var n := |st.sites|;
      var site := r.store.sites[n];
      assert r.store.sites == st.sites + [site] by {
        assert r.store.sites == r.store.sites[..n] + [site];
      }
      AppendKeepsRegistry(st.sites, site);
    }
  }

  lemma AppendKeepsRegistry(sites: seq<Site>, site: Site)
    requires RegistryValid(sites)
    requires site.url != "" && Trimmed(site.url) && site.url !in UrlSet(sites)
    ensures RegistryValid(sites + [site])
  {
    var s := sites + [site];
    forall i, j | 0 <= i < j < |s|
      ensures s[i].url != s[j].url
    {
      assert s[i] == sites[i];
      if j < |sites| {
        assert s[j] == sites[j];
      } else {
        assert sites[i].url in UrlSet(sites);
      }
    }
    forall i | 0 <= i < |s|
      ensures s[i].url != "" && Trimmed(s[i].url)
    {
      if i < |sites| {
        assert s[i] == sites[i];
      }
    }
  }

  /** Deleting a site keeps the site list valid. */
  lemma DeleteSitePreservesRegistry(st: Store, index: int)
    requires RegistryValid(st.sites)
    ensures RegistryValid(DeleteSite(st, index).store.sites)
  {
    var r := DeleteSite(st, index);
    if r.reply == Success {
      var sites := r.store.sites;
      forall i, j | 0 <= i < j < |sites|
        ensures sites[i].url != sites[j].url
      {
        var i' := if i < index then i else i + 1;
        var j' := if j < index then j else j + 1;
        assert sites[i] == st.sites[i'] && sites[j] == st.sites[j'];
      }
      forall i | 0 <= i < |sites|
        ensures sites[i].url != "" && Trimmed(sites[i].url)
      {
        var i' := if i < index then i else i + 1;
        assert sites[i] == st.sites[i'];
      }
    }
  }

  /** Re-categorising a site keeps the site list valid: URLs are untouched. */
  lemma UpdateCategoryPreservesRegistry(st: Store, index: int, category: string)
    requires RegistryValid(st.sites)
    ensures RegistryValid(UpdateCategory(st, index, category).store.sites)
  {
    var r := UpdateCategory(st, index, category);
    assert |r.store.sites| == |st.sites| by {
      if !r.reply.CategorySet? { assert r.store == st; }
    }
    forall i | 0 <= i < |st.sites|
      ensures r.store.sites[i].url == st.sites[i].url
    {
      if r.reply.CategorySet? && i == index {
        assert r.store.sites[i] == st.sites[i].(category := Some(r.reply.category));
      }
    }
    SameUrlsKeepRegistry(st.sites, r.store.sites);
  }

  /** Deleting a site removes its URL from the store entirely: with URLs
      unique, no remaining site and no snapshot has it. */
  lemma DeleteForgetsUrl(st: Store, index: int)
    requires RegistryValid(st.sites) && 0 <= index < |st.sites|
    ensures var r := DeleteSite(st, index).store;
            st.sites[index].url !in UrlSet(r.sites) && st.sites[index].url !in r.snapshots
  {
    var r := DeleteSite(st, index).store;
    var u := st.sites[index].url;
    forall i | 0 <= i < |r.sites|
      ensures r.sites[i].url != u
    {
      if i >= index {
        assert r.sites[i] == st.sites[i + 1];
      }
    }
  }

  // ---------------------------------------------------------------------
  // Status view

  datatype LastCheck = Never | CheckedAt(time: Timestamp)

  /** The status shown for a site: `new` when it has no snapshot yet. */
  datatype ShownStatus = New | Shown(status: Status)

  datatype SiteView = SiteView(site: Site, lastCheck: LastCheck, status: ShownStatus)

  /** The enrichment of `get_sites` (and of `index`): each site with its
      snapshot's last check and status, or `Never` / `new`. */
  function GetSites(st: Store): (r: seq<SiteView>)
    ensures |r| == |st.sites|
    ensures forall i :: 0 <= i < |r| ==> r[i].site == st.sites[i]
    ensures forall i :: 0 <= i < |r| ==>
              (r[i].status == New <==> st.sites[i].url !in st.snapshots) && (r[i].status == New <==> r[i].lastCheck == Never)
    ensures forall i :: 0 <= i < |r| && st.sites[i].url in st.snapshots ==>
              var s := st.snapshots[st.sites[i].url];
              r[i].lastCheck == CheckedAt(s.lastCheck) && r[i].status == Shown(s.status)
  {
    seq(|st.sites|, i requires 0 <= i < |st.sites| =>
      var site := st.sites[i];
      if site.url in st.snapshots then
        SiteView(site, CheckedAt(st.snapshots[site.url].lastCheck), Shown(st.snapshots[site.url].status))
      else SiteView(site, Never, New))
  }

  // ---------------------------------------------------------------------
  // Daily check and its scheduling guard

  /** `has_checked_today`: a recorded, non-empty date equal to today. */
  function HasCheckedToday(m: Metadata, today: string): (r: bool)
    ensures m.lastCheckDate.None? || m.lastCheckDate == Some("") ==> !r
    ensures today != "" ==> (r <==> m.lastCheckDate == Some(today))
  {
    m.lastCheckDate.Some? && m.lastCheckDate.value != "" && m.lastCheckDate.value == today
  }

  /** A scan over the store: snapshots always saved, config saved only when a title changed. */
  function ScanStore(st: Store, probes: seq<Probe>): (r: (Store, seq<ChangeRecord>))
    requires |probes| == |st.sites|
    ensures var scan := CheckAllSites(st.sites, probes, st.snapshots);
            && r.0 == st.(sites := scan.sites, snapshots := scan.snapshots)
            && r.1 == scan.changes
  {
    ScanProperties.ConfigSavedIffChanged(st.sites, probes, st.snapshots);
    var scan := CheckAllSites(st.sites, probes, st.snapshots);
    (st.(sites := if scan.configChanged then scan.sites else st.sites, snapshots := scan.snapshots), scan.changes)
  }

  /** The digest mailed for a change list: only a non-empty one is sent. */
  function MailFor(changes: seq<ChangeRecord>): (r: Option<Notifier.Digest>)
    ensures r.Some? <==> |changes| > 0
    ensures r.Some? ==> r.value.count == |changes|
    ensures r == Notifier.BuildDigest(changes)
  {
    if |changes| > 0 then Notifier.BuildDigest(changes) else None
  }

  datatype Run = Run(store: Store, changes: seq<ChangeRecord>, email: Option<Notifier.Digest>)

  /** `daily_check_job`: scan, record today's date, mail the digest when
      there are changes. */
  function DailyCheckJob(st: Store, probes: seq<Probe>, today: string): (r: Run)
    requires |probes| == |st.sites|
    ensures today != "" ==> HasCheckedToday(r.store.metadata, today)
    ensures r.email.Some? <==> |r.changes| > 0
    ensures r.email.Some? ==> r.email.value.count == |r.changes|
    ensures r.changes == CheckAllSites(st.sites, probes, st.snapshots).changes
    ensures var scan := CheckAllSites(st.sites, probes, st.snapshots);
            r.store == st.(sites := scan.sites, snapshots := scan.snapshots, metadata := Metadata(Some(today)))
    ensures r.email == Notifier.BuildDigest(r.changes)
  {
    var (store, changes) := ScanStore(st, probes);
    Run(store.(metadata := Metadata(Some(today))), changes, MailFor(changes))
  }

  /** `startup_check`: run the daily job unless it already ran today. The
      clock is read twice: `today` by the guard before the scan, `jobDay` by
      the job after it, so the two differ when the scan crosses midnight. */
  function StartupCheck(st: Store, probes: seq<Probe>, today: string, jobDay: string): (r: Option<Run>)
    requires |probes| == |st.sites|
    ensures r.Some? <==> !HasCheckedToday(st.metadata, today)
    ensures r.Some? && jobDay != "" ==> HasCheckedToday(r.value.store.metadata, jobDay)
    ensures r.Some? ==> r.value == DailyCheckJob(st, probes, jobDay)
  {
    if HasCheckedToday(st.metadata, today) then None else Some(DailyCheckJob(st, probes, jobDay))
  }

  /** A second startup on the day the store last recorded does not scan
      again, whether or not the first one scanned, and whether or not it
      found changes. */
  lemma StartupOncePerDay(st: Store, probes: seq<Probe>, later: seq<Probe>, today: string, jobDay: string, laterJobDay: string)
    requires |probes| == |st.sites| && today != "" && jobDay != ""
    ensures var first := StartupCheck(st, probes, today, jobDay);
            var st' := if first.Some? then first.value.store else st;
            var day := if first.Some? then jobDay else today;
            |later| == |st'.sites| ==> StartupCheck(st', later, day, laterJobDay).None?
  {
  }

  /** A startup scan that runs past midnight records the later day, so a
      second startup still on the guard's day scans again. */
  lemma StartupAcrossMidnightRescans(st: Store, probes: seq<Probe>, later: seq<Probe>, today: string, jobDay: string, laterJobDay: string)
    requires |probes| == |st.sites| && today != "" && jobDay != today
    requires !HasCheckedToday(st.metadata, today)
    ensures var st' := StartupCheck(st, probes, today, jobDay).value.store;
            |later| == |st'.sites| ==> StartupCheck(st', later, today, laterJobDay).Some?
  {
  }

  /** `check_now`: scan and mail like the daily job, but leave the recorded
      date alone; the reply counts the change records. */
  function CheckNow(st: Store, probes: seq<Probe>): (r: Handled)
    requires |probes| == |st.sites|
    ensures r.reply.CheckReport?
    ensures r.reply.changes == |CheckAllSites(st.sites, probes, st.snapshots).changes|
    ensures r.reply.emailSent <==> r.reply.changes > 0
    ensures r.email.Some? <==> r.reply.changes > 0
    ensures r.email.Some? ==> r.email.value.count == r.reply.changes
    ensures r.store.metadata == st.metadata
    ensures var scan := CheckAllSites(st.sites, probes, st.snapshots);
            && r.store == st.(sites := scan.sites, snapshots := scan.snapshots)
            && r.email == Notifier.BuildDigest(scan.changes)
  {
    var (store, changes) := ScanStore(st, probes);
    Handled(store, CheckReport(|changes|, |changes| > 0), MailFor(changes))
  }

  // ---------------------------------------------------------------------
  // Scans and the registry

  /** A scan saves exactly the re-titled site list: same URLs in the same
      order, so a valid registry stays valid. */
  lemma ScanKeepsRegistry(st: Store, probes: seq<Probe>)
    requires |probes| == |st.sites|
    ensures var st' := ScanStore(st, probes).0;
            && |st'.sites| == |st.sites|
            && (forall i :: 0 <= i < |st.sites| ==> st'.sites[i].url == st.sites[i].url)
            && (RegistryValid(st.sites) ==> RegistryValid(st'.sites))
  {
    var scan := CheckAllSites(st.sites, probes, st.snapshots);
    ScanProperties.ScanRetitles(st.sites, probes, st.snapshots);
    assert forall i :: 0 <= i < |st.sites| ==> scan.sites[i].url == st.sites[i].url;
    var saved := if scan.configChanged then scan.sites else st.sites;
    assert ScanStore(st, probes).0.sites == saved;
    SameUrlsKeepRegistry(st.sites, saved);
  }

  lemma SameUrlsKeepRegistry(a: seq<Site>, b: seq<Site>)
    requires |a| == |b| && forall i :: 0 <= i < |a| ==> b[i].url == a[i].url
    ensures RegistryValid(a) ==> RegistryValid(b)
  {
  }

  /** After a scan no configured site shows as `new`: every one of them has
      a snapshot. */
  lemma NothingNewAfterScan(st: Store, probes: seq<Probe>)
    requires |probes| == |st.sites|
    ensures var st' := ScanStore(st, probes).0;
            forall i :: 0 <= i < |st'.sites| ==> GetSites(st')[i].status != New
  {
    ScanKeepsRegistry(st, probes);
    ScanProperties.ScanCoversConfig(st.sites, probes, st.snapshots);
    var st' := ScanStore(st, probes).0;
    forall i | 0 <= i < |st'.sites|
      ensures st'.sites[i].url in st'.snapshots
    {
      assert st.sites[i].url in UrlSet(st.sites);
    }
  }

  /** The daily job and the manual check leave the store in the same state
      and mail the same digest; they differ only in the recorded date. */
  lemma CheckNowIsDailyJobWithoutDate(st: Store, probes: seq<Probe>, today: string)
    requires |probes| == |st.sites|
    ensures var job := DailyCheckJob(st, probes, today);
            var now := CheckNow(st, probes);
            && now.store == job.store.(metadata := st.metadata)
            && now.email == job.email
            && now.reply.changes == |job.changes|
  {
  }
}
