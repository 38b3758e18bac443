/** Extraction of listing records from the anchors of a rendered search page
    (app.py, `scrape_linkedin_jobs`, the loop over `job_links`). */
module Listing {
  import opened Wrappers

  /** One matched anchor element: its `href` attribute (None when the
      attribute is absent) and its visible text, already whitespace-stripped. */
  datatype Anchor = Anchor(href: Option<string>, text: string)

  /** A listing record: the `{"title": ..., "link": ...}` dictionary. */
  datatype Job = Job(title: string, link: string)

  /** The site origin prefixed to every kept path. */
  const Origin: string := "https://www.linkedin.com"

  /** Only anchors whose `href` contains this path are listings. */
  const JobPath: string := "/jobs/view/"

  /** `pat` occurs in `s` starting at index `i`. */
  ghost predicate OccursAt(s: string, pat: string, i: nat) {
    i + |pat| <= |s| && s[i..i + |pat|] == pat
  }

  /** Python's substring test `pat in s`. */
  function Contains(s: string, pat: string): bool
    decreases |s|
  {
    if pat <= s then true
    else if s == [] then false
    else Contains(s[1..], pat)
  }

  lemma OccursAtStart(s: string, pat: string)
    ensures OccursAt(s, pat, 0) <==> pat <= s
  {
  }

  lemma OccursAtShift(s: string, pat: string, i: nat)
    requires s != []
    ensures OccursAt(s, pat, i + 1) <==> OccursAt(s[1..], pat, i)
  {
    if i + 1 + |pat| <= |s| {
      assert s[1..][i..i + |pat|] == s[i + 1..i + 1 + |pat|];
    }
  }

  /** `Contains` is substring occurrence at some index. */
  lemma {:induction false} ContainsIff(s: string, pat: string)
    ensures Contains(s, pat) <==> exists i: nat :: OccursAt(s, pat, i)
    decreases |s|
  {
    OccursAtStart(s, pat);
    if pat <= s {
    } else if s == [] {
      forall i: nat ensures !OccursAt(s, pat, i) {
      }
    } else {
      ContainsIff(s[1..], pat);
      if Contains(s, pat) {
        var i: nat :| OccursAt(s[1..], pat, i);
        OccursAtShift(s, pat, i);
      } else {
        forall i: nat ensures !OccursAt(s, pat, i) {
          if i > 0 {
            OccursAtShift(s, pat, i - 1);
          }
        }
      }
    }
  }

  /** `s.split('?')[0]`: the part of `s` before its first '?', all of `s`
      when it has none. */
  function BeforeQuery(s: string): (r: string)
    ensures r <= s
    ensures '?' !in r
    ensures |r| < |s| ==> s[|r|] == '?'
  {
    if s == [] || s[0] == '?' then [] else [s[0]] + BeforeQuery(s[1..])
  }

  /** The guard `href and title and '/jobs/view/' in href`. */
  predicate Kept(a: Anchor) {
    a.href.Some? && a.href.value != [] && a.text != [] && Contains(a.href.value, JobPath)
  }

  /** The record built for a kept anchor: its text and the origin followed by
      the `href` with its query string cut off. */
  function ToJob(a: Anchor): Job
    requires a.href.Some?
  {
    Job(a.text, Origin + BeforeQuery(a.href.value))
  }

  /** The records the loop appends to `jobs`, in input order. */
  function Extracted(anchors: seq<Anchor>): (jobs: seq<Job>)
    ensures |jobs| <= |anchors|
  {
    if anchors == [] then []
    else
      var a := anchors[|anchors| - 1];
      Extracted(anchors[..|anchors| - 1]) + (if Kept(a) then [ToJob(a)] else [])
  }

  /** Every link is the origin followed by a prefix of the anchor's `href`
      that stops at the first '?', so no link carries a query string. */
  lemma LinkIsCanonical(a: Anchor)
    requires a.href.Some?
    ensures var link := ToJob(a).link;
      && Origin <= link
      && link[|Origin|..] <= a.href.value
      && '?' !in link
      && (|link| - |Origin| < |a.href.value| ==> a.href.value[|link| - |Origin|] == '?')
  {
    var link := ToJob(a).link;
    assert link[|Origin|..] == BeforeQuery(a.href.value);
    assert '?' !in Origin;
  }

  /** Any prefix of `s` without '?' that stops at a '?' or at the end of `s`
      is what `BeforeQuery` returns. */
  lemma {:induction false} BeforeQueryUnique(s: string, r: string)
    requires r <= s && '?' !in r
    requires |r| < |s| ==> s[|r|] == '?'
    ensures BeforeQuery(s) == r
  {
    if r != [] {
      assert s[0] == r[0];
      BeforeQueryUnique(s[1..], r[1..]);
    }
  }

  /** Two hrefs that differ only in their query string give the same record. */
  lemma QueryStringIgnored(path: string, query: string, title: string)
    requires '?' !in path
    ensures ToJob(Anchor(Some(path + "?" + query), title)) == ToJob(Anchor(Some(path), title))
  {
    BeforeQueryUnique(path + "?" + query, path);
    BeforeQueryUnique(path, path);
  }

  /** A record is produced exactly for the kept anchors: none is produced
      for any other pair, and no kept anchor is dropped. */
  lemma {:induction false} ExtractedMembership(anchors: seq<Anchor>, j: Job)
    ensures j in Extracted(anchors) <==> exists a :: a in anchors && Kept(a) && ToJob(a) == j
  {
    if anchors != [] {
      var init := anchors[..|anchors| - 1];
      var a := anchors[|anchors| - 1];
      assert anchors == init + [a];
      ExtractedMembership(init, j);
      if j in Extracted(anchors) && j !in Extracted(init) {
        assert Kept(a) && ToJob(a) == j;
      }
      if exists b :: b in anchors && Kept(b) && ToJob(b) == j {
        var b :| b in anchors && Kept(b) && ToJob(b) == j;
        if b != a {
          assert b in init;
        }
      }
    }
  }

  /** Records come out in input order: extraction distributes over
      concatenation of the anchor sequence. */
  lemma {:induction false} ExtractedAppend(xs: seq<Anchor>, ys: seq<Anchor>)
    ensures Extracted(xs + ys) == Extracted(xs) + Extracted(ys)
    decreases |ys|
  {
    if ys != [] {
      var init := ys[..|ys| - 1];
      assert (xs + ys)[..|xs + ys| - 1] == xs + init;
      ExtractedAppend(xs, init);
    } else {
      assert xs + ys == xs;
    }
  }

  /** The extraction loop over the matched anchors. */
  method ExtractListings(anchors: seq<Anchor>) returns (jobs: seq<Job>)
    ensures jobs == Extracted(anchors)
  {
    jobs := [];
    for i := 0 to |anchors|
      invariant jobs == Extracted(anchors[..i])
    {
      assert anchors[..i + 1][..i] == anchors[..i];
      var a := anchors[i];
      if a.href.Some? && a.href.value != [] && a.text != [] && Contains(a.href.value, JobPath) {
        var cleanHref := BeforeQuery(a.href.value);
        jobs := jobs + [Job(a.text, Origin + cleanHref)];
      }
    }
    assert anchors[..|anchors|] == anchors;
  }
}
