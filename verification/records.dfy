/** The records the monitor keeps in its three JSON files (`config.json`,
    `snapshots.json`, `metadata.json`), the outcome of one page fetch, and
    the change records a scan hands to the notifier. A JSON key that may be
    missing is an `Option`; Python's `.get(key, default)` is `GetOr`. */
module Records {
  import opened Wrappers

  type Url = string

  /** A hex SHA-256 digest; only ever compared for equality. */
  type Hash = string

  /** `datetime.now().isoformat()`; only ever stored and displayed. */
  type Timestamp = string

  const Uncategorized: string := "Uncategorized"

  /** One entry of `config['sites']`. `add_site` writes url, category,
      added and (when given) selector; a scan writes title. */
  datatype Site = Site(
    url: Url,
    category: Option<string>,
    selector: Option<string>,
    title: Option<string>,
    added: Option<Timestamp>)

  /** `site.get('category', 'Uncategorized')`. */
  function CategoryOf(site: Site): string {
    site.category.GetOr(Uncategorized)
  }

  datatype Status = Baseline | Unchanged | Changed | Error

  /** The `previous_hash` key of a snapshot: absent, or present with the
      previous hash, which is JSON `null` when the previous snapshot had none. */
  datatype PrevHash = NoPrevious | Previous(hash: Option<Hash>)

  /** One value of the URL-keyed `snapshots.json` map. */
  datatype Snapshot = Snapshot(
    hash: Option<Hash>,
    lastCheck: Timestamp,
    status: Status,
    error: Option<string>,
    previousHash: PrevHash)

  /** The snapshot shapes a scan writes: an error snapshot holds a message
      and no hash; every other snapshot holds a hash and no message; a
      baseline has no previous hash; a recorded previous hash differs from
      the current one. */
  ghost predicate WellFormed(s: Snapshot) {
    if s.status == Error then
      s.hash.None? && s.error.Some? && s.previousHash == NoPrevious
    else
      && s.hash.Some? && s.error.None?
      && (s.status == Baseline ==> s.previousHash == NoPrevious)
      && (s.status == Changed ==> s.previousHash.Previous?)
      && (s.previousHash.Previous? ==> s.previousHash.hash != s.hash)
  }

  ghost predicate AllWellFormed(snaps: map<Url, Snapshot>) {
    forall u :: u in snaps ==> WellFormed(snaps[u])
  }

  /** What `get_page_hash` returns: success with the content hash, the page
      title (if any) and the HTTP status code, or an error with its message. */
  datatype FetchResult =
    | Fetched(hash: Hash, title: Option<string>, statusCode: int)
    | FetchFailed(error: string)

  /** One element of the list `check_all_sites` returns. `category` is a
      key the notifier reads with a default, so it is optional here. */
  datatype ChangeRecord = ChangeRecord(
    url: Url,
    category: Option<string>,
    previousHash: Option<Hash>,
    newHash: Hash,
    detectedAt: Timestamp)

  /** `metadata.json`: the ISO date of the last daily check, if any. */
  datatype Metadata = Metadata(lastCheckDate: Option<string>)

  /** The URLs of a site list. */
  function UrlSet(sites: seq<Site>): (r: set<Url>)
    ensures forall i :: 0 <= i < |sites| ==> sites[i].url in r
    ensures forall u :: u in r ==> exists i :: 0 <= i < |sites| && sites[i].url == u
  {
    set i | 0 <= i < |sites| :: sites[i].url
  }

  /** No URL is configured twice (what `add_site` guards). */
  ghost predicate DistinctUrls(sites: seq<Site>) {
    forall i, j :: 0 <= i < j < |sites| ==> sites[i].url != sites[j].url
  }

  lemma UrlSetSnoc(sites: seq<Site>)
    requires |sites| > 0
    ensures UrlSet(sites) == UrlSet(sites[..|sites| - 1]) + {sites[|sites| - 1].url}
  {
    var n := |sites| - 1;
    forall u | u in UrlSet(sites)
      ensures u in UrlSet(sites[..n]) + {sites[n].url}
    {
      var i :| 0 <= i < |sites| && sites[i].url == u;
      if i < n {
        assert sites[..n][i].url == u;
      }
    }
  }
}
