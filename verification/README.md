# JobAgent new-listing detection, modelled in Dafny

JobAgent scrapes a LinkedIn job-search results page, works out which
listings are new compared with the listings seen on earlier runs, and emails
a digest of the new ones. This project models the logic in `app.py` that
sits between the browser and the mail transport, and proves properties of
that model:

- **Extraction** (`listing.dfy`, module `Listing`). The matched anchor
  elements become a sequence of `(href, text)` pairs. An anchor is kept only
  when its `href` is present and non-empty, its text is non-empty and its
  `href` contains `/jobs/view/`. Its link is `https://www.linkedin.com`
  followed by the `href` cut at the first `?`.
- **Deduplication** (`dedup.dfy`, module `Dedup`). Records are identified by
  the whole `(title, link)` pair. The order of the deduplicated list is left
  open, as Python's set iteration leaves it.
- **Novelty filter** (`novelty.dfy`, module `Novelty`). The durable state is
  a class `SeenStore`. Its field `lines` is the content of `sent_jobs.txt`,
  and `firstRunDone` says whether `first_run.txt` exists. On the first run
  the store is overwritten with every candidate link and nothing is
  reported. On later runs the candidates whose link is not stored are
  reported, and their links are appended.
- **Digest** (`digest.dfy`, module `Digest`). There is no message for an
  empty list. Otherwise the subject states the count and the body lists
  each job's `title\nlink`, joined by blank lines, in input order.
- **Pipeline** (`pipeline.dfy`, module `Pipeline`). One run of the
  scrape-then-notify graph, and a client that runs it twice on the same page.

Two behaviours of the code differ from what a reader might expect, and the
model follows the code:

- **Identity.** One might expect records to be identified by their URL
  alone. The code deduplicates on the whole `(title, link)` record
  (app.py:65), so two records that share a link but differ in title are
  both kept, both reported, and the link is appended twice.
- **Bootstrap writes.** One might expect the first run to add the candidate
  URLs to whatever is already stored, and a run with no candidates to leave
  the store alone. The code opens the file in mode `"w"` (app.py:75), so
  earlier contents are discarded, and a bootstrap run with no candidates
  empties the store.

## Model

| member | source | states |
|---|---|---|
| Listing.ContainsIff | app.py:57 | the substring test `'/jobs/view/' in href` holds exactly when the pattern occurs at some index of `href` |
| Listing.BeforeQuery | app.py:58 | `href.split('?')[0]` is a prefix of `href` with no `?`, and it stops only at a `?` or at the end |
| Listing.BeforeQueryUnique | app.py:58 | any prefix with those three properties is the split result, so they characterise it |
| Listing.LinkIsCanonical | app.py:58-59 | every link starts with the origin, continues with a prefix of `href` that stops at the first `?`, and contains no `?` |
| Listing.QueryStringIgnored | app.py:58-59 | two hrefs that differ only after their `?` give the same record |
| Listing.Extracted | app.py:54-63 | at most one record is produced per anchor |
| Listing.ExtractedMembership | app.py:55-63 | a record is produced if and only if some anchor passes the href/title/path guard and canonicalises to it; every other pair is skipped |
| Listing.ExtractedAppend | app.py:54-63 | records are appended in input order: extraction distributes over concatenation of the anchors |
| Listing.ExtractListings | app.py:53-63 | the extraction loop returns exactly the specified records, in order |
| Dedup.Dedupe | app.py:65 | the result has no two equal `(title, link)` records and holds exactly the records of its input |
| Dedup.DedupsArePermutations | app.py:65 | any two such deduplications are permutations of each other: only the order is unspecified |
| Dedup.SharedLinkBothKept | app.py:65 | records sharing a link but differing in title occupy two distinct positions of the result |
| Novelty.Links | app.py:76-77 | the lines written for a list of jobs are their links, one per job, in order |
| Novelty.Novel | app.py:82 | the novelty filter returns at most as many records as it is given |
| Novelty.NovelMembership | app.py:82 | a record is new if and only if it is a candidate whose link is not in the stored set |
| Novelty.NovelAppend | app.py:82 | the filter keeps the candidates' relative order |
| Novelty.NovelEmptyIffCovered | app.py:82-83 | nothing is new if and only if every candidate's link is already stored |
| Novelty.SteadyStateIdempotent | app.py:82-86 | after a steady-state run appends the new links, the same candidates in any order yield nothing new |
| Novelty.BootstrapCoversCandidates | app.py:74-82 | after a bootstrap run stores the candidate links, the same candidates in any order yield nothing new |
| Novelty.LineSetAppend | app.py:84-86 | appending lines to the store only adds to the set the file reads back as |
| Novelty.SeenStore.constructor | app.py:66-72 | the store starts from the given file lines (a missing file reads as none) and the given first-run marker |
| Novelty.SeenStore.FilterAndRecord | app.py:66-87 | bootstrap: returns nothing, the store becomes exactly the candidate links with earlier lines discarded, and the marker is set. Steady state: returns exactly the candidates whose link was not stored, in order. The new links are appended, every earlier link stays, every returned link is stored, and with nothing new the file is untouched |
| Novelty.ScrapeJobs | app.py:52-91 | a failed page load or render returns nothing and leaves the state alone. Otherwise the above applies to some deduplication of the extracted records, and every returned link is stored afterwards and was not stored before |
| Digest.NatToDecimal | app.py:102 | `str(n)` is a non-empty string of decimal digits without a leading zero |
| Digest.DecimalRoundTrip | app.py:102 | the decimal text of a count reads back as that count |
| Digest.SubjectRoundTrip | app.py:102 | the subject line embeds `len(new_jobs)`, which can be parsed back exactly |
| Digest.BodyAppend | app.py:101 | the body of a concatenation is the two bodies joined by `"\n\n"`, so the blocks appear in input order |
| Digest.BodySingle | app.py:101 | one job's body is its `title`, a newline and its `link` |
| Digest.Compose | app.py:96-102 | no message if and only if the job list is empty; otherwise the subject states the count and the body lists the jobs |
| Digest.Notify | app.py:94-110 | on every path that returns, the node returns its input state unchanged and hands a message to the transport only when there are new jobs |
| Pipeline.RunOnce | app.py:113-119 | one graph run sends the digest of the returned jobs. A failed load reports nothing and changes nothing. A bootstrap run reports nothing and leaves exactly the links of some deduplication of the extracted records in the store. A steady-state run reports exactly the deduplicated records whose link was not stored, in order, and appends their links. Every reported link was new and is stored by the end of the run |
| Pipeline.RunTwice | app.py:124-128 | two consecutive graph runs on the same page: the second sends nothing, whether or not the first run was the bootstrap run |

## Left out

- Browser automation is not modelled: the Selenium driver, page load, the 15-second wait, the scroll script and the sleep (app.py:32-50). It is replaced by the input `page`: a sequence of anchors, or `None` when loading or rendering failed.
- HTML parsing and the CSS class selector (app.py:49, 52) are not modelled. The anchors' `href` and whitespace-stripped text are inputs, and `get_text(strip=True)` is not modelled.
- Files are not modelled as files. `sent_jobs.txt` is the sequence of lines written to it, and a missing file is the empty sequence. `first_run.txt` is a boolean.
- The model assumes each written link reads back as one line. A link that itself contained a line-break character would be split by `splitlines()`. This is not modelled.
- I/O failures while reading or writing the two files are not modelled. They are caught by the blanket handler at app.py:89-91. A non-`FileNotFoundError` read failure, or a failure between the store write and the marker write, can leave a partial state.
- Digest.Notify: a failure while constructing the mail client (app.py:100) lies outside the `try` at app.py:104-108 and escapes the node and the graph run; the model covers only the paths that return, where a failure of `send` itself is swallowed.
- SMTP construction, sending, and the transport's own failures are not modelled (app.py:100, 104-108). `Notify` only says what would be handed to the transport. A send failure changes neither the returned state nor the store.
- The Streamlit calls, the button and spinner, and the repeating trigger loop are not modelled (app.py:122-128). The loop line `while True` lacks its colon and does not parse. `RunTwice` models two consecutive iterations.
- Configuration from the environment (app.py:16-24) is not modelled: the sender, password and recipient do not affect what is composed.
