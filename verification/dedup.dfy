/** Deduplication of the extracted records (app.py line 65): the set
    comprehension over `tuple(sorted(d.items()))` identifies records by the
    whole (title, link) pair, and the list built from the set comes out in
    an order the program does not fix. */
module Dedup {
  import opened Listing

  predicate NoDuplicates(s: seq<Job>) {
    forall i, j :: 0 <= i < j < |s| ==> s[i] != s[j]
  }

  /** `u` is some duplicate-free listing of exactly the records of `jobs`. */
  ghost predicate IsDedupOf(u: seq<Job>, jobs: seq<Job>) {
    NoDuplicates(u) && forall j :: j in u <==> j in jobs
  }

  /** Builds `unique_jobs`. The order chosen here (first occurrences) stands
      for the set's iteration order, so the contract promises no order. */
  method Dedupe(jobs: seq<Job>) returns (unique: seq<Job>)
    ensures IsDedupOf(unique, jobs)
  {
    unique := [];
    for i := 0 to |jobs|
      invariant NoDuplicates(unique)
      invariant forall j :: j in unique <==> j in jobs[..i]
    {
      assert jobs[..i + 1] == jobs[..i] + [jobs[i]];
      if jobs[i] !in unique {
        unique := unique + [jobs[i]];
      }
    }
    assert jobs[..|jobs|] == jobs;
  }

  /** In a duplicate-free sequence every record occurs at most once. */
  lemma {:induction false} NoDuplicatesMultiplicity(u: seq<Job>, x: Job)
    requires NoDuplicates(u)
    ensures multiset(u)[x] == if x in u then 1 else 0
  {
    if u != [] {
      var init := u[..|u| - 1];
      assert u == init + [u[|u| - 1]];
      assert NoDuplicates(init);
      NoDuplicatesMultiplicity(init, x);
    }
  }

  /** The only freedom the set comprehension leaves is the order: any two
      deduplications of the same records are permutations of each other. */
  lemma DedupsArePermutations(u1: seq<Job>, u2: seq<Job>, jobs: seq<Job>)
    requires IsDedupOf(u1, jobs) && IsDedupOf(u2, jobs)
    ensures multiset(u1) == multiset(u2)
  {
    forall x ensures multiset(u1)[x] == multiset(u2)[x] {
      NoDuplicatesMultiplicity(u1, x);
      NoDuplicatesMultiplicity(u2, x);
    }
  }

  /** Identity is the whole record: two records sharing a link but with
      different titles both survive deduplication, as two entries. */
  lemma SharedLinkBothKept(u: seq<Job>, jobs: seq<Job>, a: Job, b: Job)
    requires IsDedupOf(u, jobs)
    requires a in jobs && b in jobs && a.link == b.link && a.title != b.title
    ensures exists i, k :: 0 <= i < |u| && 0 <= k < |u| && i != k && u[i] == a && u[k] == b
  {
    var i :| 0 <= i < |u| && u[i] == a;
    var k :| 0 <= k < |u| && u[k] == b;
    assert i != k;
  }
}
