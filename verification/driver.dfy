/** The command's main loop: validate the options, walk the products that
    have an expiry, judge each one, count the outcomes, keep the first few
    unmatched values and dry-run samples, and write the updates in batches.
    The database is modelled by its inputs and outputs: the products the
    query returns, and the list of batches handed to the bulk update. */
module Driver {
  import opened Wrappers
  import opened Chars
  import opened Rules
  import opened Expiry
  import opened Reparse
  import opened Outputs
  import opened Tally

  /** The three option checks, in the order they are made. */
  datatype ConfigError = YearsNotPositive | BatchSizeNotPositive | SamplesNegative

  /** The first failing option check, if any. */
  function Validate(c: Config): (e: Option<ConfigError>)
    ensures e.None? <==> c.years > 0 && c.batchSize > 0 && c.sampleLimit >= 0
    ensures e == Some(YearsNotPositive) <==> c.years <= 0
    ensures e == Some(BatchSizeNotPositive) <==> c.years > 0 && c.batchSize <= 0
    ensures e == Some(SamplesNegative) <==> c.years > 0 && c.batchSize > 0 && c.sampleLimit < 0
  {
    if c.years <= 0 then Some(YearsNotPositive)
    else if c.batchSize <= 0 then Some(BatchSizeNotPositive)
    else if c.sampleLimit < 0 then Some(SamplesNegative)
    else None
  }

  /** A product row: its primary key and its expiry column, which may be
      NULL. */
  datatype Product = Product(pk: int, exp: Option<string>)

  /** A product selected for processing, with its non-empty expiry. */
  datatype Record = Record(pk: int, exp: string)

  /** The query: products whose expiry is neither NULL nor empty, in the
      order given (the database's primary-key order). */
  function Candidates(ps: seq<Product>): (rs: seq<Record>)
    ensures |rs| <= |ps|
    ensures forall k :: 0 <= k < |rs| ==> rs[k].exp != []
  {
    if ps == [] then []
    else
      var rest := Candidates(ps[..|ps| - 1]);
      var p := ps[|ps| - 1];
      if p.exp.Some? && p.exp.value != [] then rest + [Record(p.pk, p.exp.value)] else rest
  }

  /** Every candidate comes from a product with that key and expiry, and
      every product with a non-empty expiry is a candidate. */
  lemma {:induction false} CandidatesExact(ps: seq<Product>, pk: int, exp: string)
    ensures Record(pk, exp) in Candidates(ps) <==> exp != [] && Product(pk, Some(exp)) in ps
  {
    if ps != [] {
      var init := ps[..|ps| - 1];
      CandidatesExact(init, pk, exp);
      assert ps == init + [ps[|ps| - 1]];
    }
  }

  /** The verdict on one expiry value. */
  function Judge(exp: string, years: int): Verdict {
    Decide(Strip(exp), Rewrite(Strip(exp), years))
  }

  /** A value is skipped exactly when no pattern accepts its stripped form,
      and an update carries what the rewriter makes of the raw value. */
  lemma JudgeSkipped(exp: string, years: int)
    ensures Judge(exp, years).Skipped? <==> !exists i: nat, m, y :: Accepts(i, Strip(exp), m, y)
    ensures Judge(exp, years).Updated? ==> Rewrite(exp, years) == Some(Judge(exp, years).exp)
  {
    StripIdempotent(exp);
    RewriteIffAccepted(Strip(exp), years);
    RewriteStripped(exp, years);
  }

  /** Rewriting the stripped value is rewriting the value: the rewrite
      strips first. */
  lemma RewriteStripped(exp: string, years: int)
    ensures Rewrite(Strip(exp), years) == Rewrite(exp, years)
  {
    StripIdempotent(exp);
    StripEmpty(exp);
    StripEmpty(Strip(exp));
  }

  /** A value comes out unchanged exactly when the rewrite gives its
      stripped form back. */
  lemma UnchangedIsFixed(exp: string, years: int)
    ensures Judge(exp, years) == Unchanged <==> Rewrite(exp, years) == Some(Strip(exp))
  {
    RewriteStripped(exp, years);
  }

  /** A classified value comes out unchanged exactly when the rewrite
      reads back the very fields it was given: by `Reparse.ReparsedIsSelf`,
      when its year does not move and it is already in printed form. */
  lemma UnchangedIff(exp: string, years: int, p: Parsed)
    requires Classify(Strip(exp)) == Some(p)
    ensures Judge(exp, years) == Unchanged <==> Reparsed(Table[p.rule], p.fields, years) == p.fields
  {
    UnchangedIsFixed(exp, years);
    RewriteClassified(exp, years, p);
    ReadsBackAt(p.rule, p.fields, years, Strip(exp));
  }

  /** A value comes out unchanged only when it is already in printed form
      (its groups written the way the pattern prints them) and moving its
      year by `years` is no move at all: a two-digit year moved by a
      multiple of 100, or a four-digit year moved by 0. So with a positive
      offset a four-digit year is always updated. */
  lemma UnchangedMeansNoMove(exp: string, years: int, p: Parsed)
    requires Classify(Strip(exp)) == Some(p)
    requires Judge(exp, years) == Unchanged
    ensures MovedYear(Table[p.rule].yearLength, p.fields.year + years) == p.fields.year
    ensures InPrintedForm(Table[p.rule], p.fields)
  {
    UnchangedIff(exp, years, p);
    ReparsedIsSelfAt(p.rule, p.fields, years);
  }

  /** A value already in printed form whose year does not move comes out
      unchanged. */
  lemma NoMoveMeansUnchanged(exp: string, years: int, p: Parsed)
    requires Classify(Strip(exp)) == Some(p)
    requires MovedYear(Table[p.rule].yearLength, p.fields.year + years) == p.fields.year
    requires InPrintedForm(Table[p.rule], p.fields)
    ensures Judge(exp, years) == Unchanged
  {
    ReparsedIsSelfAt(p.rule, p.fields, years);
    UnchangedIff(exp, years, p);
  }

  /** Each selected product as the loop body sees it: its key, its
      stripped expiry, and a verdict that skips it exactly when no pattern
      accepts that expiry, keeps it exactly when the rewrite gives the
      stripped expiry back, and otherwise updates it to the rewrite. */
  function Look(rs: seq<Record>, years: int): (ss: seq<Seen>)
    ensures |ss| == |rs|
    ensures forall k :: 0 <= k < |rs| ==> ss[k].pk == rs[k].pk && ss[k].original == Strip(rs[k].exp)
    ensures forall k :: 0 <= k < |rs| ==>
              (VerdictOf(ss[k]).Skipped? <==> !exists i: nat, m, y :: Accepts(i, Strip(rs[k].exp), m, y))
    ensures forall k :: 0 <= k < |rs| ==>
              (VerdictOf(ss[k]) == Unchanged <==> Rewrite(rs[k].exp, years) == Some(Strip(rs[k].exp)))
    ensures forall k :: 0 <= k < |rs| ==>
              VerdictOf(ss[k]).Updated? ==> Rewrite(rs[k].exp, years) == Some(VerdictOf(ss[k]).exp)
  {
    var ss := seq(|rs|, k requires 0 <= k < |rs| => Seen(rs[k].pk, Strip(rs[k].exp), Rewrite(Strip(rs[k].exp), years)));
    JudgeAll(rs, ss, years);
    ss
  }

  /** `JudgeSkipped` and `RewriteStripped` for every product. */
  lemma JudgeAll(rs: seq<Record>, ss: seq<Seen>, years: int)
    requires |ss| == |rs|
    requires forall k :: 0 <= k < |rs| ==> ss[k] == Seen(rs[k].pk, Strip(rs[k].exp), Rewrite(Strip(rs[k].exp), years))
    ensures forall k :: 0 <= k < |rs| ==>
              (VerdictOf(ss[k]).Skipped? <==> !exists i: nat, m, y :: Accepts(i, Strip(rs[k].exp), m, y))
    ensures forall k :: 0 <= k < |rs| ==>
              (VerdictOf(ss[k]) == Unchanged <==> Rewrite(rs[k].exp, years) == Some(Strip(rs[k].exp)))
    ensures forall k :: 0 <= k < |rs| ==>
              VerdictOf(ss[k]).Updated? ==> Rewrite(rs[k].exp, years) == Some(VerdictOf(ss[k]).exp)
  {
    forall k | 0 <= k < |rs|
      ensures VerdictOf(ss[k]).Skipped? <==> !exists i: nat, m, y :: Accepts(i, Strip(rs[k].exp), m, y)
      ensures VerdictOf(ss[k]) == Unchanged <==> Rewrite(rs[k].exp, years) == Some(Strip(rs[k].exp))
      ensures VerdictOf(ss[k]).Updated? ==> Rewrite(rs[k].exp, years) == Some(VerdictOf(ss[k]).exp)
    {
      assert VerdictOf(ss[k]) == Judge(rs[k].exp, years);
      JudgeSkipped(rs[k].exp, years);
      RewriteStripped(rs[k].exp, years);
    }
  }

  /** The loop of `handle` over the selected products, with the final
      flush of the pending batch. A dry run writes nothing and collects
      samples instead. */
  method Process(c: Config, ss: seq<Seen>) returns (s: Summary)
    requires Validate(c).None?
    ensures s.processed == |ss|
    ensures s.updated == |Updates(ss, |ss|)|
    ensures s.kept == CountKept(ss, |ss|)
    ensures s.skipped == |Skips(ss, |ss|)|
    ensures s.unmatched == Take(Skips(ss, |ss|), c.showUnmatched)
    ensures s.samples == if c.dryRun then Take(SampleList(ss, |ss|), c.sampleLimit) else []
    ensures c.dryRun ==> s.batches == []
    ensures !c.dryRun ==> Flatten(s.batches) == Updates(ss, |ss|) && Batched(s.batches, c.batchSize)
  {
    var st := Start;
    var i := 0;
    while i < |ss|
      invariant i <= |ss|
      invariant st == Run(c, ss, i)
    {
      st := Step(c, st, ss[i]);
      i := i + 1;
    }
    Reported(c, ss);
    s := Report(c, st, i);
  }

  /** How the command ends. */
  datatype Outcome = Invalid(error: ConfigError) | NoCandidates | Done(summary: Summary)

  /** `handle` without its debug branch: reject bad options, stop early
      when no product has an expiry, otherwise run the loop on the
      candidates. */
  method Handle(c: Config, ps: seq<Product>) returns (o: Outcome)
    ensures o.Invalid? <==> Validate(c).Some?
    ensures o.Invalid? ==> Validate(c) == Some(o.error)
    ensures o.NoCandidates? <==> Validate(c).None? && Candidates(ps) == []
    ensures o.Done? ==> var ss := Look(Candidates(ps), c.years);
                        && o.summary.processed == |ss|
                        && o.summary.updated == |Updates(ss, |ss|)|
                        && (!c.dryRun ==> Flatten(o.summary.batches) == Updates(ss, |ss|))
                        && (c.dryRun ==> o.summary.batches == [])
  {
    match Validate(c)
    case Some(e) => return Invalid(e);
    case None =>
      var rs := Candidates(ps);
      if rs == [] {
        return NoCandidates;
      }
      var s := Process(c, Look(rs, c.years));
      return Done(s);
  }
}
