/** Composition of the notification digest (app.py, `send_email_notification`). */
module Digest {
  import opened Wrappers
  import opened Listing

  /** What would be handed to the mail transport. */
  datatype Message = Message(subject: string, body: string)

  /** The graph node's result: the state it returns and the message, if any,
      it hands to the transport. */
  datatype Notified = Notified(state: seq<Job>, outbox: Option<Message>)

  const Separator: string := "\n\n"
  const SubjectPrefix: string := "[ML Intern Jobs] "
  const SubjectSuffix: string := " new posting(s) found!"

  predicate IsDigit(c: char) {
    '0' <= c <= '9'
  }

  predicate AllDigits(s: string) {
    forall i :: 0 <= i < |s| ==> IsDigit(s[i])
  }

  function DigitChar(d: nat): (c: char)
    requires d < 10
    ensures IsDigit(c)
  {
    ('0' as int + d) as char
  }

  function DigitValue(c: char): nat
    requires IsDigit(c)
  {
    c as int - '0' as int
  }

  /** Python's `str(n)` for a non-negative integer: decimal digits, most
      significant first, without leading zeros. */
  function NatToDecimal(n: nat): (s: string)
    ensures s != [] && AllDigits(s)
    ensures n > 0 ==> s[0] != '0'
  {
    if n < 10 then [DigitChar(n)] else NatToDecimal(n / 10) + [DigitChar(n % 10)]
  }

  /** The number a string of decimal digits denotes. */
  function DecimalValue(s: string): nat
    requires AllDigits(s)
  {
    if s == [] then 0 else DecimalValue(s[..|s| - 1]) * 10 + DigitValue(s[|s| - 1])
  }

  lemma {:induction false} DecimalRoundTrip(n: nat)
    ensures DecimalValue(NatToDecimal(n)) == n
  {
    if n >= 10 {
      var s := NatToDecimal(n);
      assert s[..|s| - 1] == NatToDecimal(n / 10);
      DecimalRoundTrip(n / 10);
    }
  }

  /** `f"[ML Intern Jobs] {len(new_jobs)} new posting(s) found!"`. */
  function Subject(count: nat): string {
    SubjectPrefix + NatToDecimal(count) + SubjectSuffix
  }

  /** Reads the count back out of a subject line of the form above; the
      count must be written as `str` writes it, without leading zeros. */
  function ParseCount(subject: string): Option<nat> {
    if |subject| < |SubjectPrefix| + |SubjectSuffix| then None
    else
      var digits := subject[|SubjectPrefix|..|subject| - |SubjectSuffix|];
      if subject[..|SubjectPrefix|] == SubjectPrefix
         && subject[|subject| - |SubjectSuffix|..] == SubjectSuffix
         && digits != [] && AllDigits(digits)
         && (|digits| == 1 || digits[0] != '0')
      then Some(DecimalValue(digits))
      else None
  }

  /** The subject states the number of new postings, readable back exactly. */
  lemma SubjectRoundTrip(count: nat)
    ensures ParseCount(Subject(count)) == Some(count)
  {
    var s := Subject(count);
    var d := NatToDecimal(count);
    assert s[..|SubjectPrefix|] == SubjectPrefix;
    assert s[|s| - |SubjectSuffix|..] == SubjectSuffix;
    assert s[|SubjectPrefix|..|s| - |SubjectSuffix|] == d;
    DecimalRoundTrip(count);
  }

  /** One paragraph of the body: `f"{job['title']}\n{job['link']}"`. */
  function Block(j: Job): string {
    j.title + "\n" + j.link
  }

  /** `"\n\n".join(...)` of the blocks of `jobs`. */
  function Body(jobs: seq<Job>): string {
    if |jobs| == 0 then ""
    else if |jobs| == 1 then Block(jobs[0])
    else Body(jobs[..|jobs| - 1]) + Separator + Block(jobs[|jobs| - 1])
  }

  /** The blocks follow the input order, one separator between neighbours:
      the body of a concatenation is the two bodies joined by the separator. */
  lemma {:induction false} BodyAppend(xs: seq<Job>, ys: seq<Job>)
    requires xs != [] && ys != []
    ensures Body(xs + ys) == Body(xs) + Separator + Body(ys)
    decreases |ys|
  {
    var init := ys[..|ys| - 1];
    assert (xs + ys)[..|xs + ys| - 1] == xs + init;
    if |ys| > 1 {
      BodyAppend(xs, init);
    }
  }

  /** A single posting gives a body of exactly its own block. */
  lemma BodySingle(j: Job)
    ensures Body([j]) == j.title + "\n" + j.link
  {
  }

  /** The message for a list of new jobs: none when the list is empty,
      otherwise one whose subject states the count and whose body lists the
      jobs in order. */
  function Compose(jobs: seq<Job>): (m: Option<Message>)
    ensures m.None? <==> jobs == []
    ensures m.Some? ==> ParseCount(m.value.subject) == Some(|jobs|)
    ensures m.Some? ==> m.value.body == Body(jobs)
  {
    if jobs == [] then None
    else
      SubjectRoundTrip(|jobs|);
      Some(Message(Subject(|jobs|), Body(jobs)))
  }

  /** The graph node: on every path that returns, it returns its input
      state and hands a message to the transport only when there are new
      jobs. A failure of the send itself is reported and swallowed, so it
      changes neither; a failure while building the mail client escapes
      the node and is not modelled. */
  function Notify(newJobs: seq<Job>): (r: Notified)
    ensures r.state == newJobs
    ensures r.outbox.None? <==> newJobs == []
    ensures r.outbox == Compose(newJobs)
  {
    Notified(newJobs, Compose(newJobs))
  }
}
