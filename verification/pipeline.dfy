/** The graph `scrape_jobs -> send_email` run once per invocation
    (app.py lines 113-119 and 127). */
module Pipeline {
  import opened Wrappers
  import opened Listing
  import opened Dedup
  import opened Novelty
  import opened Digest

  /** One `graph.invoke`: scrape against the store, then notify. Returns the
      final graph state, the message handed to the transport, if any, and
      (as the ghost `unique`) the order the deduplication chose. */
  method RunOnce(page: Option<seq<Anchor>>, store: SeenStore)
      returns (finalJobs: seq<Job>, sent: Option<Message>, ghost unique: seq<Job>)
    modifies store
    ensures sent == Compose(finalJobs)
    ensures page.None? ==> finalJobs == [] && unchanged(store)
    ensures page.Some? ==> IsDedupOf(unique, Extracted(page.value)) && store.firstRunDone
    ensures page.Some? && !old(store.firstRunDone) ==> finalJobs == [] && store.lines == Links(unique)
    ensures page.Some? && old(store.firstRunDone) ==>
      finalJobs == Novel(unique, old(store.Seen())) && store.lines == old(store.lines) + Links(finalJobs)
    ensures old(store.firstRunDone) ==> old(store.Seen()) <= store.Seen()
    ensures forall j :: j in finalJobs ==> j.link in store.Seen() && j.link !in old(store.Seen())
  {
    var newJobs;
    newJobs, unique := ScrapeJobs(page, store);
    if page.Some? && old(store.firstRunDone) {
      LineSetAppend(old(store.lines), Links(newJobs));
    }
    var r := Notify(newJobs);
    finalJobs, sent := r.state, r.outbox;
  }

  /** Running the pipeline twice on the same page: the second run never
      sends anything, whether the first run was the bootstrap run or not. */
  method RunTwice(page: Option<seq<Anchor>>, store: SeenStore)
      returns (first: Option<Message>, second: Option<Message>)
    modifies store
    ensures !old(store.firstRunDone) ==> first == None
    ensures second == None
  {
    var jobs1, jobs2;
    ghost var unique1, unique2;
    jobs1, first, unique1 := RunOnce(page, store);
    jobs2, second, unique2 := RunOnce(page, store);
    if page.Some? {
      assert forall j :: j in unique2 ==> j in unique1;
      if old(store.firstRunDone) {
        LineSetAppend(old(store.lines), Links(jobs1));
        SteadyStateIdempotent(unique1, unique2, old(store.Seen()));
      } else {
        BootstrapCoversCandidates(unique1, unique2);
      }
    }
  }
}
