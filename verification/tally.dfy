/** The bookkeeping of the command's main loop: the verdict on one
    product, the loop body as a step on the loop's variables, and reference
    definitions of what the loop should have counted, listed and written
    after any number of products, with the lemmas that keep the two in
    agreement. */
module Tally {
  import opened Wrappers

  /** The command-line options the loop uses. */
  datatype Config = Config(years: int, batchSize: int, dryRun: bool, sampleLimit: int, showUnmatched: int)

  /** A product as the loop body sees it: its key, its stripped expiry and
      what the rewriter made of that expiry. */
  datatype Seen = Seen(pk: int, original: string, out: Option<string>)

  /** What the loop decides for one product. */
  datatype Verdict = Skipped | Unchanged | Updated(exp: string)

  /** The loop body's branches: no rewrite means skipped, a rewrite equal
      to the stripped value means unchanged, anything else is the new
      value. */
  function Decide(original: string, out: Option<string>): (v: Verdict)
    ensures v.Skipped? <==> out.None?
    ensures v == Unchanged <==> out == Some(original)
    ensures v.Updated? ==> out == Some(v.exp) && v.exp != original
  {
    match out
    case None => Skipped
    case Some(n) => if n == original then Unchanged else Updated(n)
  }

  function VerdictOf(s: Seen): Verdict {
    Decide(s.original, s.out)
  }

  /** An unmatched value kept for display: the product and its stripped
      expiry. */
  datatype Unmatched = Unmatched(pk: int, exp: string)

  /** One change handed to the bulk update: the product and its new
      expiry. */
  datatype Change = Change(pk: int, exp: string)

  /** A dry-run sample: the product, its stripped expiry and the new one. */
  datatype Sample = Sample(pk: int, before: string, after: string)

  /** The changes due for the first `n` products, in order. */
  function Updates(ss: seq<Seen>, n: nat): (cs: seq<Change>)
    requires n <= |ss|
    ensures |cs| <= n
  {
    if n == 0 then []
    else
      var s := ss[n - 1];
      match VerdictOf(s)
      case Updated(e) => Updates(ss, n - 1) + [Change(s.pk, e)]
      case _ => Updates(ss, n - 1)
  }

  /** The same changes with the value each one replaces. */
  function SampleList(ss: seq<Seen>, n: nat): (ps: seq<Sample>)
    requires n <= |ss|
    ensures |ps| == |Updates(ss, n)|
  {
    if n == 0 then []
    else
      var s := ss[n - 1];
      match VerdictOf(s)
      case Updated(e) => SampleList(ss, n - 1) + [Sample(s.pk, s.original, e)]
      case _ => SampleList(ss, n - 1)
  }

  /** The unmatched products among the first `n`, in order. */
  function Skips(ss: seq<Seen>, n: nat): (us: seq<Unmatched>)
    requires n <= |ss|
    ensures |us| <= n
  {
    if n == 0 then []
    else
      var s := ss[n - 1];
      if VerdictOf(s).Skipped? then Skips(ss, n - 1) + [Unmatched(s.pk, s.original)] else Skips(ss, n - 1)
  }

  /** A change is due exactly when one of the products has that key and
      an updated verdict with that value. */
  lemma {:induction false} UpdatesExact(ss: seq<Seen>, n: nat, ch: Change)
    requires n <= |ss|
    ensures ch in Updates(ss, n) <==> exists j :: 0 <= j < n && ss[j].pk == ch.pk && VerdictOf(ss[j]) == Updated(ch.exp)
  {
    if n > 0 {
      UpdatesExact(ss, n - 1, ch);
      var s := ss[n - 1];
      if ch in Updates(ss, n) && ch !in Updates(ss, n - 1) {
        assert s.pk == ch.pk && VerdictOf(s) == Updated(ch.exp);
      }
      if exists j :: 0 <= j < n && ss[j].pk == ch.pk && VerdictOf(ss[j]) == Updated(ch.exp) {
        var j :| 0 <= j < n && ss[j].pk == ch.pk && VerdictOf(ss[j]) == Updated(ch.exp);
        if j == n - 1 {
          assert Updates(ss, n) == Updates(ss, n - 1) + [ch];
        }
      }
    }
  }

  /** How many of the first `n` products are left as they are. */
  function CountKept(ss: seq<Seen>, n: nat): (k: nat)
    requires n <= |ss|
    ensures k <= n
  {
    if n == 0 then 0
    else CountKept(ss, n - 1) + if VerdictOf(ss[n - 1]) == Unchanged then 1 else 0
  }

  /** Every product is exactly one of updated, unchanged or skipped. */
  lemma {:induction false} CountsPartition(ss: seq<Seen>, n: nat)
    requires n <= |ss|
    ensures |Updates(ss, n)| + CountKept(ss, n) + |Skips(ss, n)| == n
  {
    if n > 0 {
      CountsPartition(ss, n - 1);
    }
  }

  /** The first `k` elements of `s` (all of them when there are fewer; none
      when `k` is not positive). */
  function Take<T>(s: seq<T>, k: int): (t: seq<T>)
    ensures |t| == if k <= 0 then 0 else if |s| <= k then |s| else k
    ensures forall j :: 0 <= j < |t| ==> t[j] == s[j]
  {
    if k <= 0 then [] else if |s| <= k then s else s[..k]
  }

  /** Appending to a list capped at `k` keeps the new element only while
      there is room. */
  lemma TakeAppend<T>(s: seq<T>, x: T, k: int)
    ensures Take(s + [x], k) == if 0 < k && |s| < k then Take(s, k) + [x] else Take(s, k)
  {
    if 0 < k && |s| >= k {
      assert (s + [x])[..k] == s[..k];
    }
  }

  /** All batches, concatenated in order. */
  function Flatten<T>(bs: seq<seq<T>>): (s: seq<T>)
  {
    if bs == [] then [] else Flatten(bs[..|bs| - 1]) + bs[|bs| - 1]
  }

  lemma FlattenAppend<T>(bs: seq<seq<T>>, b: seq<T>)
    ensures Flatten(bs + [b]) == Flatten(bs) + b
  {
    assert (bs + [b])[..|bs|] == bs;
  }

  /** Batches of a bulk update with size limit `size`: every batch holds
      between one and `size` changes, and all but the last hold exactly
      `size`. */
  predicate Batched(bs: seq<seq<Change>>, size: int) {
    && (forall k :: 0 <= k < |bs| ==> 0 < |bs[k]| <= size)
    && (forall k :: 0 <= k < |bs| - 1 ==> |bs[k]| == size)
  }

  /** The loop's variables: the three counters, the unmatched values and
      samples kept for display, the batches written so far and the pending
      batch. */
  datatype State = State(
    updated: nat, kept: nat, skipped: nat,
    unmatched: seq<Unmatched>, samples: seq<Sample>,
    written: seq<seq<Change>>, pending: seq<Change>)

  /** The loop's variables before the first product. */
  const Start := State(0, 0, 0, [], [], [], [])

  /** One turn of the loop of `handle`: skipped values are kept for display
      while fewer than `showUnmatched` are; updates are sampled in a dry run
      while fewer than `sampleLimit` are, and otherwise queued, the queue
      being written once it holds `batchSize` changes. */
  function Step(c: Config, st: State, s: Seen): (nx: State)
    ensures nx.updated + nx.kept + nx.skipped == st.updated + st.kept + st.skipped + 1
  {
    match VerdictOf(s)
    case Skipped =>
      st.(skipped := st.skipped + 1,
          unmatched := if c.showUnmatched > 0 && |st.unmatched| < c.showUnmatched
                       then st.unmatched + [Unmatched(s.pk, s.original)] else st.unmatched)
    case Unchanged =>
      st.(kept := st.kept + 1)
    case Updated(e) =>
      var samples := if c.dryRun && |st.samples| < c.sampleLimit
                     then st.samples + [Sample(s.pk, s.original, e)] else st.samples;
      var pending := if c.dryRun then st.pending else st.pending + [Change(s.pk, e)];
      if !c.dryRun && |pending| >= c.batchSize
      then st.(updated := st.updated + 1, samples := samples, written := st.written + [pending], pending := [])
      else st.(updated := st.updated + 1, samples := samples, pending := pending)
  }

  /** The loop's variables after the first `n` products. */
  function Run(c: Config, ss: seq<Seen>, n: nat): State
    requires n <= |ss|
  {
    if n == 0 then Start else Step(c, Run(c, ss, n - 1), ss[n - 1])
  }

  /** The counters agree with the reference definitions. */
  predicate Counted(ss: seq<Seen>, n: nat, st: State)
    requires n <= |ss|
  {
    && st.updated == |Updates(ss, n)|
    && st.kept == CountKept(ss, n)
    && st.skipped == |Skips(ss, n)|
  }

  /** The display lists are the first few unmatched values and samples. */
  predicate Shown(c: Config, ss: seq<Seen>, n: nat, st: State)
    requires n <= |ss|
  {
    && st.unmatched == Take(Skips(ss, n), c.showUnmatched)
    && st.samples == (if c.dryRun then Take(SampleList(ss, n), c.sampleLimit) else [])
  }

  /** Written batches are full, the pending one is not, and together they
      hold every change due so far; a dry run queues nothing. */
  predicate Queued(c: Config, ss: seq<Seen>, n: nat, st: State)
    requires n <= |ss|
  {
    && (c.dryRun ==> st.written == [] && st.pending == [])
    && (!c.dryRun ==> Flatten(st.written) + st.pending == Updates(ss, n))
    && (forall k :: 0 <= k < |st.written| ==> |st.written[k]| == c.batchSize)
    && |st.pending| < c.batchSize
  }

  lemma StepCounted(c: Config, ss: seq<Seen>, n: nat, st: State)
    requires n < |ss| && Counted(ss, n, st)
    ensures Counted(ss, n + 1, Step(c, st, ss[n]))
  {
  }

  lemma StepShown(c: Config, ss: seq<Seen>, n: nat, st: State)
    requires n < |ss| && Shown(c, ss, n, st)
    ensures Shown(c, ss, n + 1, Step(c, st, ss[n]))
  {
    var s := ss[n];
    TakeAppend(Skips(ss, n), Unmatched(s.pk, s.original), c.showUnmatched);
    match VerdictOf(s)
    case Updated(e) =>
      TakeAppend(SampleList(ss, n), Sample(s.pk, s.original, e), c.sampleLimit);
    case _ =>
  }

  lemma StepQueued(c: Config, ss: seq<Seen>, n: nat, st: State)
    requires c.batchSize > 0
    requires n < |ss| && Queued(c, ss, n, st)
    ensures Queued(c, ss, n + 1, Step(c, st, ss[n]))
  {
    var s := ss[n];
    match VerdictOf(s)
    case Updated(e) =>
      if !c.dryRun {
        FlattenAppend(st.written, st.pending + [Change(s.pk, e)]);
      }
    case _ =>
  }

  /** After any number of products the loop's variables agree with the
      reference definitions. */
  lemma {:induction false} RunAgrees(c: Config, ss: seq<Seen>, n: nat)
    requires c.batchSize > 0 && n <= |ss|
    ensures Counted(ss, n, Run(c, ss, n))
    ensures Shown(c, ss, n, Run(c, ss, n))
    ensures Queued(c, ss, n, Run(c, ss, n))
  {
    if n > 0 {
      var st := Run(c, ss, n - 1);
      RunAgrees(c, ss, n - 1);
      StepCounted(c, ss, n - 1, st);
      StepShown(c, ss, n - 1, st);
      StepQueued(c, ss, n - 1, st);
    }
  }

  /** The batches written once the loop is over: the pending batch, if
      any, is written last, and nothing is written in a dry run. */
  function Flush(c: Config, st: State): seq<seq<Change>> {
    if !c.dryRun && st.pending != [] then st.written + [st.pending] else st.written
  }

  lemma Flushed(c: Config, ss: seq<Seen>, st: State)
    requires c.batchSize > 0 && Queued(c, ss, |ss|, st)
    ensures c.dryRun ==> Flush(c, st) == []
    ensures !c.dryRun ==> Flatten(Flush(c, st)) == Updates(ss, |ss|) && Batched(Flush(c, st), c.batchSize)
  {
    if !c.dryRun && st.pending != [] {
      FlattenAppend(st.written, st.pending);
      FullThenPartial(st.written, st.pending, c.batchSize);
    }
  }

  /** Full batches followed by one smaller, non-empty batch are batched. */
  lemma FullThenPartial(bs: seq<seq<Change>>, b: seq<Change>, size: int)
    requires forall k :: 0 <= k < |bs| ==> |bs[k]| == size
    requires 0 < |b| <= size
    ensures Batched(bs + [b], size)
  {
    var all := bs + [b];
    forall k | 0 <= k < |all| ensures 0 < |all[k]| <= size {
      if k < |bs| { assert all[k] == bs[k]; }
    }
    forall k | 0 <= k < |all| - 1 ensures |all[k]| == size {
      assert all[k] == bs[k];
    }
  }

  /** What the loop reports and writes. */
  datatype Summary = Summary(
    processed: nat, updated: nat, kept: nat, skipped: nat,
    unmatched: seq<Unmatched>, samples: seq<Sample>, batches: seq<seq<Change>>)

  /** The loop's variables turned into its report once `n` products are
      done and the pending batch is flushed. */
  function Report(c: Config, st: State, n: nat): Summary {
    Summary(n, st.updated, st.kept, st.skipped, st.unmatched, st.samples, Flush(c, st))
  }

  /** The report of the whole loop counts, lists and writes what the
      reference definitions say. */
  lemma Reported(c: Config, ss: seq<Seen>)
    requires c.batchSize > 0
    ensures var r := Report(c, Run(c, ss, |ss|), |ss|);
            && r.processed == |ss|
            && r.updated == |Updates(ss, |ss|)|
            && r.kept == CountKept(ss, |ss|)
            && r.skipped == |Skips(ss, |ss|)|
            && r.unmatched == Take(Skips(ss, |ss|), c.showUnmatched)
            && r.samples == (if c.dryRun then Take(SampleList(ss, |ss|), c.sampleLimit) else [])
            && (c.dryRun ==> r.batches == [])
            && (!c.dryRun ==> Flatten(r.batches) == Updates(ss, |ss|) && Batched(r.batches, c.batchSize))
  {
    RunAgrees(c, ss, |ss|);
    Flushed(c, ss, Run(c, ss, |ss|));
  }
}
