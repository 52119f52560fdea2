# website-monitor in Dafny

A model of the core of a small website-change monitor. The monitor keeps:

- a list of configured sites (URL, category, optional CSS selector, page title);
- a URL-keyed map of snapshots (content fingerprint, last check, status);
- the date of the last daily check.

**The scan (`check_all_sites`).** It fetches every configured site in config order. Each fetched page is reduced to its canonical visible text and fingerprinted. Each URL's snapshot then moves through a small state machine: `baseline`, `unchanged`, `changed` or `error`. Every detected change becomes a change record, and newly seen page titles are adopted into the config.

**The digest (`send_digest_email`).** It groups the change records by category, in ascending category order, and states their count.

**The Flask application.** It adds, deletes and re-categorises sites and shows each site's status. It runs the scan daily and once at startup unless it has already run that day, and on demand through `check_now`.

The modules follow the program:

- `Text`: the whitespace canonicaliser at the end of `clean_html_content`, collapse then strip. Python's `str.isspace` decides what counts as whitespace.
- `Records`: the JSON records.
- `Page`: `get_page_hash` and its helpers. HTML parsing, CSS selection, the `<title>` lookup and SHA-256 are function-valued parameters about which nothing is assumed. In particular the hash is not assumed injective.
- `Scan`: `check_all_sites`, modelled twice:
  - as a left fold over the site list (`CheckAllSites`);
  - as the in-place loop the code runs (`CheckAllSitesLoop`), proved to compute the fold.
- `ScanProperties`: what a scan guarantees.
- `StrOrder`: Python's `str` ordering.
- `Notifier`: the digest grouping and ordering.
- `App`: the routes, the daily job, the startup check and `check_now`, over an in-memory `Store`.

Inputs the code reads from outside become parameters:

- Each site's fetch outcome, together with the `datetime.now()` read right after it, is a `Probe`. The scan takes one probe per configured site, aligned with the site list.
- Today's ISO date is a string. The startup check reads it twice, as the code does: once for its guard before the scan (app.py:60) and once when the job records the date after the scan (app.py:70). The two reads are separate parameters, so a startup scan that runs past midnight records the later day.
- The `added` timestamp of a new site is a string.
- A request field missing from the JSON body is `""`, its `.get` default.

Some behaviours of the code worth knowing, all modelled as written:

- `add_site` stores a bare host as given; it adds no `https://` prefix.
- A page title fetched by a scan is always adopted when it is new; there is no title lock and no route that edits a title.
- An error snapshot replaces the stored one, so the stored hash is lost.
- The startup check is skipped exactly when the recorded date equals today's date, however long ago the last scan ran.
- `check_now` scans and mails but does not update the recorded date.

## Model

| member | source | states |
|---|---|---|
| Text.Strip | fetcher.py:29 | `str.strip()`: the result is the slice of the input that starts right after its leading whitespace, everything after it is whitespace, it has no whitespace at either end, and it keeps every non-space character in order |
| Text.Collapse | fetcher.py:28 | `re.sub(r'\s+', ' ', text)`: the result is no longer than the input, has no whitespace other than `' '` and never two whitespace characters in a row. It keeps the input's non-space characters in order, and starts with whitespace exactly when the input does |
| Text.Normalize | fetcher.py:28-29 | the canonical text is no longer than the input, single-spaced, has no whitespace at either end, and has exactly the input's non-space characters in order |
| Text.CollapseSingleSpaced | fetcher.py:28 | a text that is already single-spaced is left unchanged by the collapse |
| Text.NormalizeIdempotent | fetcher.py:28-29 | normalising twice gives the same text as normalising once |
| Text.NormalizeEmptyIffBlank | fetcher.py:28-29 | the canonical text is empty exactly when the input is all whitespace |
| Text.CollapseIsSpacedWords | fetcher.py:28 | the collapse equals an independent reference built from the input's words (`s.split()`): the words in order joined by single spaces, with one extra space in front when the input starts with whitespace and one behind when whitespace follows the last word; an all-whitespace input gives a single space |
| Text.NormalizeIsJoinedWords | fetcher.py:28-29 | the canonical text equals an independent reference: the whitespace-separated words of the input, in order, joined by single spaces (`' '.join(s.split())`) |
| Page.CleanHtmlContent | fetcher.py:12-31 | the cleaned page text is canonical, keeps exactly the non-space characters of the parser's visible text, and equals the visible text's words joined by single spaces |
| Page.ExtractContentBySelector | fetcher.py:33-46 | a selector that matches nothing falls back to the cleaned whole page; otherwise the result is the cleaned text of the matched elements concatenated in order |
| Page.GetPageTitle | fetcher.py:48-57 | there is a title exactly when the parser finds one. It is the slice of the parser's title that starts right after its leading whitespace, with only whitespace after it, so it has no whitespace at either end and keeps the title's non-space characters |
| Page.PageContent | fetcher.py:71-75 | the hashed text is canonical. With a non-empty selector it is the selector extraction; with no selector or an empty one it is the cleaned whole page |
| Page.GetPageHash | fetcher.py:59-92 | success exactly when a response arrived with a status outside 400-599; on success it gives the hash of the page content, the stripped title and the status code; a transport failure or an HTTP error status gives an error carrying its message |
| Page.SameCanonicalTextSameHash | fetcher.py:71-78 | two successful fetches whose visible text normalises alike get the same fingerprint, whatever their markup and whitespace, when the selector is absent or empty or matches nothing in either page |
| Scan.NextSnapshot | fetcher.py:141-186 | the per-URL state machine, each status with the exact condition that gives it. Error exactly on a failed fetch, with the message and no hash or previous hash. Baseline exactly on a first success. Changed exactly when a prior snapshot exists and its hash, possibly none, is not the new hash; it then records the old hash as previous. Unchanged keeps the prior snapshot but for the check time and status. The check time is always the given time, and well-formed snapshots stay well-formed |
| Scan.CheckSite | fetcher.py:123-186 | one loop iteration. Only this site's URL gets a snapshot written, and it is the state-machine step from its prior snapshot. A change record exists exactly when the new status is changed, and it carries the URL, the site's category (default `Uncategorized`), the old and new hash and the check time. The title is adopted exactly when the fetch returned a non-empty title different from the stored one, and nothing else in the site entry changes |
| Scan.VisitSite | fetcher.py:123-186 | the in-place loop body: only position `i` of the config may change, and the threaded state advances by exactly one fold step |
| Scan.CheckAllSitesLoop | fetcher.py:116-194 | the loop as written (in-place title updates, snapshot map and change list threaded through) computes exactly the fold over the site list |
| ScanProperties.ScanCoversConfig | fetcher.py:123-188 | after a scan the snapshot map's keys are exactly the loaded URLs plus the configured URLs, and a snapshot of an unconfigured URL is untouched |
| ScanProperties.ScanRetitles | fetcher.py:135-139 | each saved site entry is its original with the fetched title adopted when that is a title update, and `config_changed` holds exactly when some site had a title update |
| ScanProperties.ConfigSavedIffChanged | fetcher.py:190-192 | the config is saved exactly when the re-titled site list differs from the loaded one |
| ScanProperties.ChangesFollowConfigOrder | fetcher.py:123-173 | change records come in config order, at most one per site. Each comes from a site whose fetch succeeded and carries that site's URL, category, new hash and check time |
| ScanProperties.ScanPreservesWellFormed | fetcher.py:141-186 | a scan keeps every snapshot well-formed. An error snapshot has a message and no hash. Every other snapshot has a hash and no message, and a recorded previous hash differs from the current one |
| ScanProperties.ScanIsPerSite | fetcher.py:123-186 | with no URL configured twice, each site's final snapshot is the state-machine step from its snapshot as loaded. The change list equals an independent reference that checks every site on its own: nothing is lost, duplicated or reordered |
| ScanProperties.FailedSiteIsolated | fetcher.py:141-149 | with distinct URLs, a site whose fetch fails ends in the error state with its message and the check time, and no change record names it |
| ScanProperties.ChangeReportedAfterError | fetcher.py:141-167 | because the error branch drops the stored hash, the next successful fetch of an unchanged page is reported as a change whose previous hash is none |
| ScanProperties.SecondFetchChangeIffHashDiffers | fetcher.py:154-185 | a first successful fetch records a baseline and no change. A second successful fetch reports a change exactly when the hashes differ, and otherwise leaves the URL unchanged |
| StrOrder.LessIrreflexive | notifier.py:55 | no category sorts before itself |
| StrOrder.LessTransitive | notifier.py:55 | the category order is transitive |
| StrOrder.LessTotal | notifier.py:55 | any two different categories are ordered one way or the other |
| StrOrder.LessAsymmetric | notifier.py:55 | no two categories sort before each other |
| Notifier.BuildDigest | notifier.py:21-26 | an empty change list builds no digest, and a non-empty one always does. The count in the subject equals the number of changes |
| Notifier.InCategoryMembers | notifier.py:47-52 | a change is among a category's changes exactly when it is an input change of that category (default `Uncategorized`) |
| Notifier.GroupByCategoryGroups | notifier.py:46-52 | the `by_category` loop builds one non-empty list per category seen, with distinct categories. Each list holds exactly that category's changes in input order, and the lists together hold as many entries as there are changes |
| Notifier.SortSectionsSorted | notifier.py:55 | sorting sections with distinct categories puts them in strictly ascending category order |
| Notifier.SortSectionsSameSections | notifier.py:55 | the sort keeps every section as it was and every category present |
| Notifier.DigestSections | notifier.py:46-59 | the digest's sections are in ascending category order, one per category present. Each lists exactly that category's changes, in input order. A change is listed under a section exactly when the section has its category. The count equals both the number of changes and the number of listed entries |
| Notifier.EachChangeInOneSection | notifier.py:47-59 | every change is listed in exactly one section |
| Notifier.UncategorizedDefault | notifier.py:49 | a change without a category is listed only under `Uncategorized` |
| App.CategoryOrDefault | app.py:139 | the stored category is never empty: it is the stripped input when that is non-empty, and `Uncategorized` when the input is blank |
| App.AddSite | app.py:136-164 | rejects a URL that is blank after stripping, or one already configured, and then leaves the store as it was. It succeeds exactly otherwise and then appends one entry and changes nothing else. The entry holds the stripped URL and a category that defaults to `Uncategorized`. It has a selector exactly when a non-blank one was given, holds no title, and is stamped with the given time |
| App.DeleteSite | app.py:166-185 | rejects an index out of range and leaves the store as it was; otherwise it removes exactly that entry, keeping the others in order. It also removes that URL's snapshot and leaves every other snapshot as it was |
| App.UpdateCategory | app.py:187-203 | rejects an index out of range and leaves the store as it was; otherwise it sets only that site's category, to the stripped input or `Uncategorized` when blank, and replies with it |
| App.AddSitePreservesRegistry | app.py:138-161 | adding a site keeps every configured URL non-empty, free of surrounding whitespace and unique |
| App.DeleteSitePreservesRegistry | app.py:170-173 | deleting a site keeps the configured URLs non-empty, free of surrounding whitespace and unique |
| App.UpdateCategoryPreservesRegistry | app.py:191-200 | changing a category keeps the configured URLs non-empty, free of surrounding whitespace and unique |
| App.DeleteForgetsUrl | app.py:173-183 | with unique URLs, a deleted site's URL is in neither the site list nor the snapshot map afterwards |
| App.GetSites | app.py:118-126 | each configured site is shown in order with its snapshot's last check and status. It shows `new` and `Never` exactly when its URL has no snapshot |
| App.HasCheckedToday | app.py:52-61 | false when no date, or an empty one, is recorded; otherwise true exactly when the recorded date is today |
| App.ScanStore | fetcher.py:188-194 | saving the config only when a title changed leaves the same store as always saving the re-titled site list: afterwards the store holds the scan's sites and snapshots, and the scan's changes are returned |
| App.MailFor | app.py:73-74 | a digest is mailed exactly when the change list is non-empty, and it counts every change. The guard agrees with the digest builder, which builds nothing for an empty list |
| App.DailyCheckJob | app.py:63-77 | after the job, the check counts as done today whether or not changes were found. Its changes are the scan's changes, and the store holds the scan's sites and snapshots with today's date recorded. The mailed digest is the one built from the changes: one exactly when there are changes, counting them all |
| App.StartupCheck | app.py:82-88 | the startup check runs the daily job exactly when the guard's date is not the recorded one. Its outcome is then exactly that job's outcome on the date read after the scan, and that date counts as checked |
| App.StartupOncePerDay | app.py:52-88 | a second startup on the day the store last recorded never scans, whatever the first one did |
| App.StartupAcrossMidnightRescans | app.py:58-88 | a startup scan that ends on a later day than its guard read records that later day, so another startup on the guard's day scans again |
| App.CheckNow | app.py:205-222 | the reply counts the scan's change records. It says an email was sent exactly when that count is positive. The mailed digest is the one built from the changes, and the store holds the scan's sites and snapshots with the recorded date untouched |
| App.CheckNowIsDailyJobWithoutDate | app.py:63-77 | the manual check and the daily job leave the same sites and snapshots and mail the same digest; only the recorded date differs |
| App.ScanKeepsRegistry | fetcher.py:135-192 | a scan saves a site list with the same URLs in the same order, so valid URLs stay valid |
| App.NothingNewAfterScan | app.py:119-126 | after a scan no configured site is shown as `new` |

## Left out

- HTTP fetching (`requests.get`, its timeout, `raise_for_status`): each site's outcome is a given `HttpOutcome` or `FetchResult`. The error message of an HTTP error status is an uninterpreted function of the status code and URL.
- BeautifulSoup (tag removal, comment extraction, `get_text`, `select`, the `<title>` lookup): uninterpreted functions in `Page.Libraries`. This includes the comment filter at fetcher.py:21, whose `isinstance(text, type(soup))` test matches no comment.
- The title parser raising an exception (fetcher.py:56-57) is folded into the title function returning `None`.
- SHA-256 and UTF-8 encoding (fetcher.py:78): an opaque function from text to hash, not assumed injective.
- Exceptions other than `RequestException` during a fetch (fetcher.py:86) are not modelled: the scan would abort, and the model has no partial-scan state.
- JSON load and save, file initialisation and `os.makedirs` (app.py:16-50, fetcher.py:94-114): the three files are the in-memory `Store`. The snapshot file is always written after a scan. The config is written only when a title changed.
- Snapshots lacking a `last_check` or `status` key, read with the defaults `'Never'` and `'unknown'` at app.py:122-123: every snapshot a scan writes has both keys, so `Snapshot` always carries them.
- APScheduler registration and threads (app.py:33-34, app.py:80): the daily job is a function that the scheduler would call.
- Flask routing and request parsing, `render_template` and response headers. The `index` page (app.py:90-108) does the same enrichment as `GetSites`. The `<int:index>` converter is modelled by an `int` index.
- The progress `print` calls of the scan and the jobs.
- SMTP connection and sending (notifier.py:88-106), and the wording, emoji, separators and timestamps of the digest text: the model keeps the digest's count and its ordered sections.
- App.CheckNow: `emailSent` means that the reply's message says an email was sent. As in the code, this holds whenever there were changes, whether or not the SMTP send succeeded.
- `test_email_config` in notifier.py and the whole of email_diagnostic.py: interactive diagnostics with no logic of their own.
