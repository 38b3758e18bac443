/** The novelty filter with its persisted state (app.py lines 66-87): the
    seen-links file `sent_jobs.txt` and the first-run marker `first_run.txt`. */
module Novelty {
  import opened Wrappers
  import opened Listing
  import opened Dedup

  /** The links of `jobs`, one per record, in order: the lines written by
      `f.write(f"{job['link']}\n")` over `jobs`. */
  function Links(jobs: seq<Job>): (ls: seq<string>)
    ensures |ls| == |jobs|
    ensures forall i :: 0 <= i < |jobs| ==> ls[i] == jobs[i].link
  {
    if jobs == [] then [] else Links(jobs[..|jobs| - 1]) + [jobs[|jobs| - 1].link]
  }

  /** The set a file of lines reads back as: `set(f.read().splitlines())`. */
  function LineSet(lines: seq<string>): set<string> {
    set l | l in lines
  }

  /** `[job for job in unique_jobs if job["link"] not in sent_links]`. */
  function Novel(unique: seq<Job>, seen: set<string>): (r: seq<Job>)
    ensures |r| <= |unique|
  {
    if unique == [] then []
    else
      var j := unique[|unique| - 1];
      Novel(unique[..|unique| - 1], seen) + (if j.link in seen then [] else [j])
  }

  /** A record is new exactly when it is a candidate whose link was not seen. */
  lemma {:induction false} NovelMembership(unique: seq<Job>, seen: set<string>, j: Job)
    ensures j in Novel(unique, seen) <==> j in unique && j.link !in seen
  {
    if unique != [] {
      var init := unique[..|unique| - 1];
      assert unique == init + [unique[|unique| - 1]];
      NovelMembership(init, seen, j);
    }
  }

  /** The filter keeps the candidates' relative order: it distributes over
      concatenation. */
  lemma {:induction false} NovelAppend(xs: seq<Job>, ys: seq<Job>, seen: set<string>)
    ensures Novel(xs + ys, seen) == Novel(xs, seen) + Novel(ys, seen)
    decreases |ys|
  {
    if ys == [] {
      assert xs + ys == xs;
    } else {
      var init := ys[..|ys| - 1];
      assert (xs + ys)[..|xs + ys| - 1] == xs + init;
      NovelAppend(xs, init, seen);
    }
  }

  /** Nothing is new exactly when every candidate's link was already seen. */
  lemma NovelEmptyIffCovered(unique: seq<Job>, seen: set<string>)
    ensures Novel(unique, seen) == [] <==> forall j :: j in unique ==> j.link in seen
  {
    forall j ensures j in Novel(unique, seen) <==> j in unique && j.link !in seen {
      NovelMembership(unique, seen, j);
    }
    if Novel(unique, seen) != [] {
      assert Novel(unique, seen)[0] in Novel(unique, seen);
    }
  }

  /** After a steady-state run has appended the links of its new records,
      the same candidates, in any order, yield nothing new. */
  lemma SteadyStateIdempotent(u1: seq<Job>, u2: seq<Job>, seen: set<string>)
    requires forall j :: j in u2 ==> j in u1
    ensures Novel(u2, seen + LineSet(Links(Novel(u1, seen)))) == []
  {
    var fresh1 := Novel(u1, seen);
    forall j | j in u2 ensures j.link in seen + LineSet(Links(fresh1)) {
      NovelMembership(u1, seen, j);
      if j.link !in seen {
        var i :| 0 <= i < |fresh1| && fresh1[i] == j;
        assert Links(fresh1)[i] == j.link;
      }
    }
    NovelEmptyIffCovered(u2, seen + LineSet(Links(fresh1)));
  }

  /** After a bootstrap run has stored the links of its records, the same
      candidates, in any order, yield nothing new. */
  lemma BootstrapCoversCandidates(u1: seq<Job>, u2: seq<Job>)
    requires forall j :: j in u2 ==> j in u1
    ensures Novel(u2, LineSet(Links(u1))) == []
  {
    forall j | j in u2 ensures j.link in LineSet(Links(u1)) {
      var i :| 0 <= i < |u1| && u1[i] == j;
      assert Links(u1)[i] == j.link;
    }
    NovelEmptyIffCovered(u2, LineSet(Links(u1)));
  }

  /** Appending lines to the file only adds to the set it reads back as. */
  lemma LineSetAppend(lines: seq<string>, extra: seq<string>)
    ensures LineSet(lines + extra) == LineSet(lines) + LineSet(extra)
  {
  }

  /** The durable state of the filter. `lines` holds the lines of
      `sent_jobs.txt` (a missing file reads like an empty one);
      `firstRunDone` says whether `first_run.txt` exists. */
  class SeenStore {
    var lines: seq<string>
    var firstRunDone: bool

    /** `sent_links`: the store read back as a set of lines. */
    function Seen(): set<string>
      reads this
    {
      LineSet(lines)
    }

    constructor (lines: seq<string>, firstRunDone: bool)
      ensures this.lines == lines && this.firstRunDone == firstRunDone
    {
      this.lines := lines;
      this.firstRunDone := firstRunDone;
    }

    /** The first-run/diff logic applied to `unique_jobs`. On the first run
        the store is overwritten with every candidate link and nothing is
        new; afterwards the candidates whose link is not stored are new and
        their links are appended, the file being opened only when there is
        at least one. */
    method FilterAndRecord(unique: seq<Job>) returns (newJobs: seq<Job>)
      modifies this
      ensures firstRunDone
      ensures !old(firstRunDone) ==> newJobs == [] && lines == Links(unique)
      ensures !old(firstRunDone) ==> Seen() == set j | j in unique :: j.link
      ensures old(firstRunDone) ==> newJobs == Novel(unique, old(Seen()))
      ensures old(firstRunDone) ==> lines == old(lines) + Links(newJobs)
      ensures old(firstRunDone) ==> old(Seen()) <= Seen()
      ensures old(firstRunDone) ==> forall j :: j in newJobs ==> j.link in Seen()
      ensures old(firstRunDone) && newJobs == [] ==> lines == old(lines)
    {
      var sentLinks := Seen();
      if !firstRunDone {
        lines := [];
        for i := 0 to |unique|
          invariant lines == Links(unique[..i])
        {
          assert unique[..i + 1][..i] == unique[..i];
          lines := lines + [unique[i].link];
        }
        assert unique[..|unique|] == unique;
        firstRunDone := true;
        newJobs := [];
        forall l ensures l in Seen() <==> l in set j | j in unique :: j.link {
          if l in Seen() {
            var i :| 0 <= i < |lines| && lines[i] == l;
            assert unique[i] in unique;
          }
          if l in set j | j in unique :: j.link {
            var j :| j in unique && j.link == l;
            var i :| 0 <= i < |unique| && unique[i] == j;
            assert lines[i] == l;
          }
        }
      } else {
        newJobs := Novel(unique, sentLinks);
        if newJobs != [] {
          for i := 0 to |newJobs|
            invariant lines == old(lines) + Links(newJobs[..i])
            invariant firstRunDone
          {
            assert newJobs[..i + 1][..i] == newJobs[..i];
            lines := lines + [newJobs[i].link];
          }
          assert newJobs[..|newJobs|] == newJobs;
        }
        LineSetAppend(old(lines), Links(newJobs));
        forall j | j in newJobs ensures j.link in Seen() {
          var i :| 0 <= i < |newJobs| && newJobs[i] == j;
          assert Links(newJobs)[i] == j.link;
        }
      }
    }
  }

  /** One run of `scrape_linkedin_jobs` from the rendered page on. `page` is
      None when loading or rendering failed: nothing new and no state change.
      Otherwise the anchors are filtered, deduplicated in some order (given
      back as the ghost `unique`) and passed to the store. */
  method ScrapeJobs(page: Option<seq<Anchor>>, store: SeenStore)
      returns (newJobs: seq<Job>, ghost unique: seq<Job>)
    modifies store
    ensures page.None? ==> newJobs == [] && unchanged(store)
    ensures page.Some? ==> IsDedupOf(unique, Extracted(page.value)) && store.firstRunDone
    ensures page.Some? && !old(store.firstRunDone) ==> newJobs == [] && store.lines == Links(unique)
    ensures page.Some? && old(store.firstRunDone) ==>
      newJobs == Novel(unique, old(store.Seen())) && store.lines == old(store.lines) + Links(newJobs)
    ensures forall j :: j in newJobs ==> j.link in store.Seen() && j.link !in old(store.Seen())
  {
    if page.None? {
      return [], [];
    }
    var jobs := ExtractListings(page.value);
    var uniqueJobs := Dedupe(jobs);
    unique := uniqueJobs;
    newJobs := store.FilterAndRecord(uniqueJobs);
    forall j | j in newJobs ensures j.link !in old(store.Seen()) {
      NovelMembership(unique, old(store.Seen()), j);
    }
  }
}
