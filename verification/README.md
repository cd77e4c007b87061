# Expiry-year rewriter of `update_product_expiry`

This project models the Django management command `update_product_expiry`. The command moves every product's expiry value forward by a given number of years. An expiry is free text such as `Aug-29`, `08/2029`, `2029-8` or `0829`. The command:

- trims it;
- finds the first of twelve anchored patterns that reads it as a month and a year;
- adds the years;
- writes it back in the same shape.

It then bulk-updates the changed products in batches.

The modules follow the program's structure:

- `Chars`: ASCII character classes, and the string operations the rewriter uses: `str.strip`, `str.lower`, and "first letter upper, rest lower".
- `Decimal`: `int()` on a run of digits, and the zero-padded `f"{n:0{w}d}"`.
- `Months`: `MONTH_MAP`, looked up case-insensitively.
- `Rules`: the twelve patterns of `EXP_PATTERNS`, in priority order. It gives each a relational reading (`Matches`) and an executable one (`Match`), and proves that they agree and that no two patterns match the same string.
- `Expiry`: `_calculate_new_expiry`, written as `Classify` (the pattern loop) followed by `Render` (the output formatting). `Rewrite` puts the two together.
- `Outputs` and `Reparse`: what an output looks like, and the round trip. An output is accepted again by the pattern that produced it, with the same month and the moved year. Rewriting it with no offset gives it back unchanged.
- `Tally`: the bookkeeping of the main loop of `handle`.
  - The verdict on one product: skipped, unchanged or updated.
  - The loop body as a step function.
  - Reference definitions of what should be counted, displayed and written.
  - The invariant linking the two.
- `Driver`: option validation, the candidate query, the loop as a method (`Process`), and `handle` itself (`Handle`).
- `Samples`: worked inputs. `Dec-99`, `August-2029` and `AUGUST/29` are each moved three years on, and `13/25` is rejected.

Behaviours of the code that the model keeps:

- A text month is re-capitalised, not preserved: `AUG-29` becomes `Aug-32`. The comments at lines 338 and 376 speak of preserving the capitalisation. The code at line 378 normalises it, and the model follows the code.
- A two-digit year moves modulo 100: `12/99` plus one year becomes `12/00`. A value is counted as unchanged exactly when the rewrite reads back the very groups and values it was given (`Driver.UnchangedIff`). By `Reparse.ReparsedIsSelf`, that means two things hold. First, it is already in printed form: a two-digit month, or a capitalised name, and a year group written the way its pattern prints it. Second, its year does not move: a two-digit year moved by a multiple of 100, or a four-digit year moved by 0. So `08/29` with an offset of 100 is unchanged, but `8/29` and `aug-29` are updated to `08/29` and `Aug-29`.
- A four-digit year is zero-padded to four characters. If the moved year exceeds 9999, it is printed with all its digits and no leading zero. Such an output no longer fits its own pattern, so the round-trip lemmas require the moved year to stay within 0..9999. Such a value is still always counted as updated (`Reparse.WideYearChangesText`).
- A month group that matches a pattern but is not a month (`13/25`, `Foo-29`) makes the loop skip that pattern. No later pattern can match the same string, so the value is left alone (`Expiry.ClassifyRejected`).
- `_calculate_new_expiry` does not check the sign of its offset, so `Rewrite` accepts any integer offset. A negative four-digit result is printed the way Python prints it: a minus sign, then the magnitude padded to three digits.

## Model

| member | source | states |
|---|---|---|
| Months.LookupMonth | store/management/commands/update_product_expiry.py:11-24 | A name that is found denotes a month from 1 to 12 whose lower-case names include the lower-cased name. A name that is not found is not the name of any month. |
| Months.LookupIgnoresCase | store/management/commands/update_product_expiry.py:333-334 | Two names that are equal up to case denote the same month, or are both absent. |
| Chars.Lower | store/management/commands/update_product_expiry.py:333 | Lower-casing keeps the length and maps each character to its lower-case form. |
| Chars.Strip | store/management/commands/update_product_expiry.py:315 | The trimmed value is no longer than the input and neither starts nor ends with whitespace. |
| Chars.StripEmpty | store/management/commands/update_product_expiry.py:315-317 | Trimming leaves nothing exactly when the value is all whitespace. |
| Chars.StripRemovesOnlySpace | store/management/commands/update_product_expiry.py:315 | The input is the trimmed value with a run of whitespace before it and a run after it. |
| Chars.StripIdempotent | store/management/commands/update_product_expiry.py:242-243 | Trimming an already trimmed value changes nothing. |
| Chars.Capitalize | store/management/commands/update_product_expiry.py:378 | The capitalised word has the same length, equals the input up to case, and is written first letter upper, rest lower. |
| Chars.CapitalizeIdempotent | store/management/commands/update_product_expiry.py:378 | Capitalising a capitalised word leaves it unchanged. |
| Decimal.Value | store/management/commands/update_product_expiry.py:357-358 | `int()` of a run of k digits is below 10^k. |
| Decimal.Format | store/management/commands/update_product_expiry.py:370-372 | A non-negative number prints as digits that read back as the number. The output has exactly `width` characters when the number is below 10^width; otherwise it has no leading zero. A negative number prints as a minus sign followed by its magnitude. That takes exactly `width` characters when the magnitude is below 10^(width-1); otherwise the magnitude has no leading zero. These clauses fix the string. |
| Rules.TableWellFormed | store/management/commands/update_product_expiry.py:33-130 | There are twelve patterns, and each one sits at the priority position its shape gives it. |
| Rules.MatchComplete | store/management/commands/update_product_expiry.py:36-124 | Whenever an anchored pattern matches with some month and year groups, the executable match finds exactly those groups. |
| Rules.PatternsDisjoint | store/management/commands/update_product_expiry.py:33-130 | No string matches two patterns, and no pattern matches one string in two ways. |
| Expiry.MonthNumber | store/management/commands/update_product_expiry.py:333-353 | A valid month group denotes a month from 1 to 12. |
| Expiry.Parse | store/management/commands/update_product_expiry.py:320-360 | A successful pass matches the pattern with the returned groups, and its values are what those groups denote. |
| Expiry.ParseComplete | store/management/commands/update_product_expiry.py:320-360 | When the pattern matches, the pass succeeds with those groups exactly when the month group is a month. |
| Expiry.Classify | store/management/commands/update_product_expiry.py:319-360 | A classification names a pattern that accepts the string, together with what that pattern reads. |
| Expiry.ClassifyFirst | store/management/commands/update_product_expiry.py:319-336 | The classifying pattern parses the string and every earlier pattern fails. When there is no classification, every pattern fails. |
| Expiry.ClassifyAccepted | store/management/commands/update_product_expiry.py:319-360 | A string that some pattern accepts is classified by that pattern, with its groups and their values. |
| Expiry.ClassifyRejected | store/management/commands/update_product_expiry.py:335-353 | A string whose matching pattern reads a non-month is not classified at all. |
| Expiry.ClassifyIffAccepted | store/management/commands/update_product_expiry.py:319-394 | A string is classified exactly when some pattern accepts it. |
| Expiry.FormatYear | store/management/commands/update_product_expiry.py:367-372 | A two-digit year prints as two digits holding the value modulo 100. A four-digit year prints with at least four characters, exactly four when it is in 0..9999. A wider year has no leading zero. A negative year has a minus sign and its magnitude padded to three digits, with no leading zero beyond that. |
| Expiry.FormatMonth | store/management/commands/update_product_expiry.py:375-380 | A name month keeps its word up to case and is capitalised. A numeric month prints as two digits holding the month. |
| Expiry.Rewrite | store/management/commands/update_product_expiry.py:310-317 | An empty or all-whitespace value gives no result. Any result comes from a classified value. |
| Outputs.RewriteAccepted | store/management/commands/update_product_expiry.py:319-392 | An accepted value is rewritten. The result has the pattern's order and separator around a month part that keeps the month and a year part that holds the moved year. |
| Outputs.FormatMonthKept | store/management/commands/update_product_expiry.py:375-380 | The printed month keeps the month group's month. |
| Outputs.FormatYearShifted | store/management/commands/update_product_expiry.py:362-372 | The printed year holds the year plus the offset, modulo 100 for a two-digit pattern. Its length and zeros are as `Expiry.FormatYear` states. |
| Outputs.RewriteIffAccepted | store/management/commands/update_product_expiry.py:310-394 | The rewrite gives a result exactly when some pattern accepts the trimmed value. |
| Outputs.RoundTrip | store/management/commands/update_product_expiry.py:310-394 | The output is re-classified by the same pattern, with the same month and the moved year, and rewriting it with no offset gives it back. |
| Reparse.RenderRoundTrip | store/management/commands/update_product_expiry.py:362-392 | An output rewritten with no offset is unchanged and is read back by the pattern that produced it. |
| Reparse.ClassifyRender | store/management/commands/update_product_expiry.py:362-392 | An output is already trimmed and is classified by its own pattern. Printing that parse with no offset reproduces the output. |
| Reparse.YearAgain | store/management/commands/update_product_expiry.py:367-372 | The printed year fills its pattern's year group and denotes the moved year. |
| Reparse.MonthAgain | store/management/commands/update_product_expiry.py:375-380 | The printed month is a valid month group for its pattern, denotes the same month and prints the same way again. |
| Samples.MonthThirteenRejected | store/management/commands/update_product_expiry.py:66-73 | `13/25` is not rewritten, because 13 is not a month and no later pattern can take it. |
| Samples.DecemberWraps | store/management/commands/update_product_expiry.py:35-41 | `Dec-99` moved three years on is `Dec-02`: the two-digit year wraps. |
| Samples.AugustFourDigits | store/management/commands/update_product_expiry.py:43-49 | `August-2029` moved three years on is `August-2032`: the four-digit year does not wrap. |
| Samples.UpperCaseNormalised | store/management/commands/update_product_expiry.py:51-57 | `AUGUST/29` moved three years on is `August/32`: the name is written first letter upper, rest lower. |
| Tally.Decide | store/management/commands/update_product_expiry.py:245-253 | Skipped exactly when there is no rewrite. Unchanged exactly when the rewrite equals the trimmed value. Otherwise updated with the rewrite, which differs from the trimmed value. |
| Tally.UpdatesExact | store/management/commands/update_product_expiry.py:255-261 | A change is due exactly when some product has that key and an updated verdict with that value. |
| Tally.CountsPartition | store/management/commands/update_product_expiry.py:241-255 | Every processed product is counted exactly once: as updated, as unchanged or as skipped. |
| Tally.Step | store/management/commands/update_product_expiry.py:240-269 | One loop turn adds exactly one to the sum of the three counters. |
| Tally.StepShown | store/management/commands/update_product_expiry.py:247-257 | One turn keeps the unmatched list and the sample list equal to the first few skipped values and updates. |
| Tally.StepQueued | store/management/commands/update_product_expiry.py:259-269 | One turn keeps the written batches full and the pending batch below the batch size, and together they hold every change due. |
| Tally.RunAgrees | store/management/commands/update_product_expiry.py:240-269 | After any number of products, the loop's counters, display lists and batches agree with the reference definitions. |
| Tally.Flushed | store/management/commands/update_product_expiry.py:271-276 | After the final flush, the batches hold every change in order. Every batch but the last is full, and none is empty. A dry run writes nothing. |
| Tally.Reported | store/management/commands/update_product_expiry.py:240-276 | The loop's report counts, lists and writes what the reference definitions say. |
| Driver.Validate | store/management/commands/update_product_expiry.py:175-180 | The options pass exactly when the years and batch size are positive and the sample limit is not negative. Otherwise the first failing check, in source order, is named. |
| Driver.CandidatesExact | store/management/commands/update_product_expiry.py:182-186 | A record is selected exactly when a product with that key has that non-NULL, non-empty expiry. |
| Driver.JudgeSkipped | store/management/commands/update_product_expiry.py:242-249 | A product is skipped exactly when no pattern accepts its trimmed expiry. An update carries the rewrite of the raw value. |
| Driver.RewriteStripped | store/management/commands/update_product_expiry.py:242-243 | Rewriting the trimmed value is the same as rewriting the raw value. |
| Driver.UnchangedIsFixed | store/management/commands/update_product_expiry.py:242-253 | A value is counted as unchanged exactly when the rewrite gives its trimmed form back. |
| Driver.UnchangedIff | store/management/commands/update_product_expiry.py:251-253 | A classified value comes out unchanged exactly when the rewrite reads back the very groups and values it was given. |
| Driver.UnchangedMeansNoMove | store/management/commands/update_product_expiry.py:251-253 | A classified value comes out unchanged only when its year does not move and it is already in printed form, with its groups written the way its pattern prints them. Not moving means a two-digit year moved by a multiple of 100, or a four-digit year moved by 0. |
| Driver.NoMoveMeansUnchanged | store/management/commands/update_product_expiry.py:251-253 | A classified value already in printed form whose year does not move comes out unchanged. |
| Reparse.WideYearChangesText | store/management/commands/update_product_expiry.py:362-372 | A four-digit year moved outside 0..9999 always changes the text. The output is longer than the input, or has a minus sign where the input has a digit. |
| Reparse.FixedPointKeepsYear | store/management/commands/update_product_expiry.py:362-392 | A string that its pattern renders back to itself keeps its year under the move, and is already in printed form. |
| Reparse.ReadsBack | store/management/commands/update_product_expiry.py:362-392 | A string that a pattern reads renders back to itself exactly when the rewrite reads back the same groups and values. |
| Reparse.ReparsedIsSelf | store/management/commands/update_product_expiry.py:362-380 | The rewrite reads back the groups and values it was given exactly when the year does not move and both groups are already written the way the pattern prints them. |
| Driver.Look | store/management/commands/update_product_expiry.py:240-253 | For each selected product the loop sees its key and its trimmed expiry. The product is skipped exactly when no pattern accepts that expiry. It is kept exactly when the rewrite gives the trimmed expiry back. Otherwise it is updated to the rewrite. |
| Driver.Process | store/management/commands/update_product_expiry.py:240-276 | The loop processes every product, and counts, lists and batches the updates as the reference definitions say. |
| Driver.Handle | store/management/commands/update_product_expiry.py:168-276 | Bad options are rejected with the first failing check. An empty selection stops early. Otherwise the loop runs over the selected products. |

## Left out

- The database is modelled as its inputs and outputs. The query is a list of products in primary-key order. `bulk_update` is the list of batches handed to it. Transactions, the dry-run rollback and the chunked iterator are not modelled.
- The wrapping of an exception in `CommandError` is not modelled. None of the modelled operations can raise.
- The output written to stdout is not modelled. This includes the progress lines and the summary printed at lines 283-308. The summary's numbers and lists are `Summary`.
- The debug branch of `handle` (lines 194-219) is not modelled. It only prints sample values and their rewrites.
- Argument parsing (`add_arguments`) is not modelled. `Config` holds the parsed options.
- Only ASCII is modelled, in three places:
  - `str.strip` removes Unicode whitespace as well;
  - `\d` matches, and `int()` reads, non-ASCII decimal digits;
  - `[A-Za-z]` under `re.IGNORECASE` also matches a few non-ASCII letters.

  Those letters lower-case to nothing in the month table, so they change no outcome. Non-ASCII digits and whitespace are outside the model.
- Driver.Handle: its `Done` case repeats only the processed count, the update count and the batches. The other counters and lists are stated by `Driver.Process`.
- Outputs.RoundTrip, Reparse.RenderRoundTrip and Reparse.ClassifyRender: these require a moved four-digit year to stay within 0..9999. A wider year prints with more digits and no longer matches its own pattern.
