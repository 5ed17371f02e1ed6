# gradepoints — a verified model of the grade engine, the rate limiter and the icon encoder

gradepoints is a web application in which Swiss vocational students record their grades and
see whether they pass. This project models its computational core in Dafny and proves
properties of that model:

- **Grade engine** (`src/app/dashboard/DashboardContext.tsx`). Two schools use it.
  - KSH: per-subject weighted averages with a bonus/malus adjustment, clamped to [1, 6] and
    rounded to the nearest half grade (halves go up). Then the unrounded semester average,
    the doubly rounded finals average, the overall average, and the per-subject final grade
    over three years (IDAF takes the semester-6 IDPA grade as its final). Pass/fail uses
    three rules (average at least 4, at most two subjects below 4, at most two negative
    points), applied per semester and again over three years.
  - BZZ: module averages, the normal and ÜK tier averages, their combined final average,
    the IPA grade and the BZZ verdict.
  - Grades without a school count as KSH.
- **Catalog** (`src/lib/semesters.ts`). The fixed subject, finals and module tables, and the
  membership tests the API uses.
- **Rate limiter** (`src/lib/rate-limit.ts`). A fixed-window counter per key, kept in a map
  that the calls update in place, and the client key taken from `x-forwarded-for`.
- **Icon generator** (`scripts/generate-icons.mjs`). It draws a dark rounded square with the
  letters "GP" into an RGBA buffer, updated in place, and writes it as a PNG file. The PNG
  holds a zlib stream of stored deflate blocks, with CRC-32 and Adler-32 checksums.

Modules: `Options`, `Seqs` (the `filter`/`find` of arrays), `Records`, `Averages`,
`Catalog`, `Ksh`, `Bzz`, `ForwardedFor`, `RateLimit`, `Bytes`, `Checksums`, `Zlib`, `Png`,
`Canvas`, `Shape`, `Lettering`, `Icons`.

Grades and averages are exact reals. JavaScript's `Math.round(v)` becomes `Floor(v + 1/2)`.
Pure getters become functions. Loops that build values become methods with loop invariants,
each proved equal to a specification function. The rate limiter's map is a field of a
class. The pixel buffer is an `array` that the drawing methods update in place.

The rate limiter's doc comment calls it a sliding window. The code implements a fixed
window, and the model follows the code. The record type in `src/app/dashboard/types.ts`
has no `school` field, yet the school filters read one. The model gives grades and
adjustments an optional school, and a missing school counts as KSH, as the filters treat it.

## Model

| member | source | states |
|---|---|---|
| Records.GradeInExactlyOneSchool | src/app/dashboard/DashboardContext.tsx:197-199 | every grade passes exactly one of the KSH filter (no school or KSH) and the BZZ filter |
| Records.SchoolFiltersSplitGrades | src/app/dashboard/DashboardContext.tsx:197-199 | the KSH and BZZ grade lists partition the grades: their lengths add up to the total and each grade lands in exactly one |
| Records.KshGrades | src/app/dashboard/DashboardContext.tsx:197 | the KSH grades are no more than the stored grades, and none of them belongs to BZZ |
| Records.BzzGrades | src/app/dashboard/DashboardContext.tsx:199 | the BZZ grades are no more than the stored grades, and every one of them belongs to BZZ |
| Seqs.Filter | src/app/dashboard/DashboardContext.tsx:226 | `filter` keeps only elements satisfying the predicate, is no longer than its input, and is empty exactly when no element satisfies it |
| Seqs.FilterMembership | src/app/dashboard/DashboardContext.tsx:226 | x is in the filtered list exactly when x is in the input and satisfies the predicate |
| Seqs.FilterAppend | src/app/dashboard/DashboardContext.tsx:226 | filtering a concatenation is concatenating the filtered parts |
| Seqs.FindIndex | src/app/dashboard/DashboardContext.tsx:232 | the index of the first element satisfying the predicate, none exactly when no element does |
| Seqs.Find | src/app/dashboard/DashboardContext.tsx:232 | `find` returns the first matching element, or none exactly when nothing matches |
| Seqs.FindAppend | src/app/dashboard/DashboardContext.tsx:232 | appending an element changes the result of `find` only when nothing earlier matched |
| Seqs.FilterFilterFirst | src/app/dashboard/DashboardContext.tsx:196 | after two filters, the head of the result is the first element passing both |
| Seqs.FindIndexUnique | src/app/dashboard/DashboardContext.tsx:232 | a matching index with no match before it is the index `find` reports |
| Averages.Clamp | src/app/dashboard/DashboardContext.tsx:247 | `Math.min(6, Math.max(1, x))` lies in [1, 6], is x inside that range, 1 below it and 6 above it |
| Averages.RoundHalf | src/app/dashboard/DashboardContext.tsx:257 | `Math.round(x*2)/2` is a multiple of 0.5 in (x - 0.25, x + 0.25], so halves round up |
| Averages.RoundTenth | src/app/dashboard/DashboardContext.tsx:335 | `Math.round(x*10)/10` is a multiple of 0.1 in (x - 0.05, x + 0.05] |
| Averages.RoundHalfUnique | src/app/dashboard/DashboardContext.tsx:257 | the rounded value is the only multiple of 0.5 in (x - 0.25, x + 0.25] |
| Averages.RoundHalfIdempotent | src/app/dashboard/DashboardContext.tsx:292-296 | rounding an already rounded value changes nothing |
| Averages.RoundHalfMonotone | src/app/dashboard/DashboardContext.tsx:257 | rounding preserves order |
| Averages.RoundHalfBetween | src/app/dashboard/DashboardContext.tsx:257 | a value between two half-steps rounds to a value between them |
| Averages.RoundTenthOfHalfStep | src/app/dashboard/DashboardContext.tsx:335 | rounding a half-step to a tenth leaves it unchanged |
| Averages.HalfStepSum | src/app/dashboard/DashboardContext.tsx:325 | sums and differences of half-steps are half-steps |
| Averages.SumBounds | src/app/dashboard/DashboardContext.tsx:269 | n values in [lo, hi] sum to between n*lo and n*hi |
| Averages.SumAppend | src/app/dashboard/DashboardContext.tsx:307-309 | the sum of a concatenation is the sum of the sums |
| Averages.MeanBounds | src/app/dashboard/DashboardContext.tsx:269 | the mean of values in [lo, hi] lies in [lo, hi] |
| Averages.Present | src/app/dashboard/DashboardContext.tsx:267 | dropping the nulls gives a list no longer than the input, empty exactly when every entry is null |
| Averages.PresentKeeps | src/app/dashboard/DashboardContext.tsx:267 | a property of every present value holds of every element of the list without nulls |
| Averages.PresentBetween | src/app/dashboard/DashboardContext.tsx:267 | present values within bounds stay within bounds after the nulls are dropped |
| Averages.PresentAppend | src/app/dashboard/DashboardContext.tsx:307 | dropping nulls commutes with concatenation |
| Averages.MeanOfPresent | src/app/dashboard/DashboardContext.tsx:264-270 | the mean of the non-null values is null exactly when all values are null |
| Averages.RoundedMeanOfPresent | src/app/dashboard/DashboardContext.tsx:476-480 | the 0.5-rounded mean of the non-null values is null exactly when all are null, and otherwise a half-step |
| Averages.MeanOfPresentInRange | src/app/dashboard/DashboardContext.tsx:268-269 | both means of grades in [1, 6] lie in [1, 6] |
| Averages.TotalWeight | src/app/dashboard/DashboardContext.tsx:244 | the total weight of counting grades is non-negative, and positive when there is at least one |
| Averages.RawAverage | src/app/dashboard/DashboardContext.tsx:241-248 | the raw average is null exactly when no grade has weight above 0, and otherwise lies in [1, 6] |
| Averages.WeightedSumBounds | src/app/dashboard/DashboardContext.tsx:244-245 | grades in [lo, hi] give a weighted sum between lo and hi times the total weight |
| Averages.ValidGradesNeedNoClamp | src/app/dashboard/DashboardContext.tsx:247 | with grades in [1, 6] and no adjustment the clamp does nothing: the raw average is the weighted mean |
| Averages.ZeroWeightIgnored | src/app/dashboard/DashboardContext.tsx:242 | inserting a grade of weight at most 0 anywhere leaves the raw average unchanged |
| Averages.DroppedGrade | src/app/dashboard/DashboardContext.tsx:242 | the weight filter removes such a grade wherever it stands |
| Averages.WorkedSubjectAverage | src/app/dashboard/DashboardContext.tsx:241-258 | 5 (weight 1) and 6 (weight 2) average 17/3 and round to 5.5; a +0.5 adjustment clamps to 6; 4.25 rounds to 4.5 |
| Averages.RoundedAverage | src/app/dashboard/DashboardContext.tsx:254-258 | the rounded average is null exactly when the raw one is, and otherwise a half-step in [1, 6] within 0.25 of it, so the re-clamp changes nothing |
| Ksh.GradesForSubject | src/app/dashboard/DashboardContext.tsx:225-226 | the selection is no longer than the stored grades and every selected grade has the requested semester and subject |
| Ksh.GradesForSubjectMeaning | src/app/dashboard/DashboardContext.tsx:225-226 | a grade is selected exactly when it is a KSH grade of that semester and subject |
| Ksh.GradesForSubjectValid | src/app/dashboard/DashboardContext.tsx:225-226 | when every stored grade is in [1, 6], so is every selected one |
| Ksh.MissingAdjustmentIsZero | src/app/dashboard/DashboardContext.tsx:231-234 | without a matching adjustment the adjustment is 0 |
| Ksh.AdjustmentFor | src/app/dashboard/DashboardContext.tsx:231-234 | the value of the first stored KSH adjustment for that semester and subject is returned; a non-zero result always comes from such an adjustment |
| Ksh.RawSubjectAverage | src/app/dashboard/DashboardContext.tsx:241-248 | null exactly when the subject has no grade of positive weight, otherwise in [1, 6] |
| Ksh.SubjectAverage | src/app/dashboard/DashboardContext.tsx:254-258 | null exactly when the raw average is, otherwise a half-step in [1, 6] within 0.25 of the raw average |
| Ksh.SubjectAverageIsNearestHalfStep | src/app/dashboard/DashboardContext.tsx:254-258 | the subject average is the nearest half-step to the raw average, halves up |
| Ksh.ZeroAdjustmentSameAsMissing | src/app/dashboard/DashboardContext.tsx:231-247 | storing an adjustment of 0 leaves the adjustment, the raw average and the subject average unchanged |
| Ksh.SemesterAverage | src/app/dashboard/DashboardContext.tsx:264-270 | null exactly when no subject of the semester's catalog has an average, otherwise in [1, 6] |
| Ksh.EntryGrade | src/app/dashboard/DashboardContext.tsx:289 | a finals entry's grade is null exactly when no finals grade is stored for it |
| Ksh.EntryGradeMeaning | src/app/dashboard/DashboardContext.tsx:289 | an entry grade exists exactly when a KSH finals grade for that entry is stored, and is the value of such a grade |
| Ksh.FinalsIgnoreWeight | src/app/dashboard/DashboardContext.tsx:289 | a finals grade of weight 0 still counts for its entry although a subject average would ignore it |
| Ksh.EntryGradeIsFirst | src/app/dashboard/DashboardContext.tsx:289 | when several KSH finals grades are stored for an entry, the entry grade is the value of the first one in stored order |
| Ksh.EntryGradeValid | src/app/dashboard/DashboardContext.tsx:289 | with valid grades every entry grade lies in [1, 6] |
| Ksh.FinalsGroupGrade | src/app/dashboard/DashboardContext.tsx:288-292 | a group grade is null exactly when none of its entries has a grade, otherwise a half-step, in [1, 6] for valid grades |
| Ksh.FinalsExamGrade | src/app/dashboard/DashboardContext.tsx:346-354 | null for subjects without finals entries, otherwise a half-step, in [1, 6] for valid grades |
| Ksh.FinalsGroupsFollowCatalog | src/app/dashboard/DashboardContext.tsx:278-285 | the six hard-coded groups are exactly the finals entries of the six finals subjects, in order |
| Ksh.FinalsAverage | src/app/dashboard/DashboardContext.tsx:277-297 | null exactly when no group has a grade, otherwise a half-step, in [1, 6] for valid grades |
| Ksh.FinalsAverageUsesExamGrades | src/app/dashboard/DashboardContext.tsx:277-297 | the finals average is the rounded mean of the per-subject finals exam grades |
| Ksh.OverallOf | src/app/dashboard/DashboardContext.tsx:303-310 | null exactly when every semester average and the finals average are null; in [1, 6] when they are |
| Ksh.OverallMeanInRange | src/app/dashboard/DashboardContext.tsx:303-310 | the mean of present averages in [1, 6] lies in [1, 6] |
| Ksh.OverallAverage | src/app/dashboard/DashboardContext.tsx:303-310 | with valid grades the overall average lies in [1, 6] |
| Ksh.OverallTreatsFinalsAsSemester | src/app/dashboard/DashboardContext.tsx:307-309 | the overall average is the plain mean of the semester averages with the finals average appended |
| Ksh.OverallAverageMeaning | src/app/dashboard/DashboardContext.tsx:303-310 | null exactly when no semester from 1 to 6 and no finals have an average |
| Ksh.ResultsOf | src/app/dashboard/DashboardContext.tsx:318-320 | pairing subjects with non-null grades yields no more results than subjects, none exactly when all grades are null |
| Ksh.SemesterResults | src/app/dashboard/DashboardContext.tsx:318-320 | the results of a semester carry exactly its non-null subject averages, in catalog order, each a half-step |
| Ksh.ResultsKeepPresentGrades | src/app/dashboard/DashboardContext.tsx:318-320 | the grades of the results are exactly the non-null grades, in order |
| Ksh.NegativePoints | src/app/dashboard/DashboardContext.tsx:325 | negative points are non-negative and 0 exactly when no result is below 4 |
| Ksh.NegativePointsBounds | src/app/dashboard/DashboardContext.tsx:325 | negative points are non-negative, 0 exactly when no subject is below 4, at most 3 per failing subject |
| Ksh.NegativePointsOfHalfSteps | src/app/dashboard/DashboardContext.tsx:325-335 | negative points of half-step grades are a half-step, so the reported 1-decimal value equals the compared one |
| Ksh.ResultsOfHalfSteps | src/app/dashboard/DashboardContext.tsx:318-320 | results built from half-step grades carry half-step grades |
| Ksh.CheckRules | src/app/dashboard/DashboardContext.tsx:324-338 | rule 1 is average at least 4, rule 2 at most two subjects below 4, rule 3 unrounded negative points at most 2; passed is their conjunction; the reported count is the length of the reported list |
| Ksh.SemesterStatusOf | src/app/dashboard/DashboardContext.tsx:317-340 | the status is null exactly when the semester average is, and carries that average |
| Ksh.SemesterPassMeaning | src/app/dashboard/DashboardContext.tsx:317-340 | a semester passes exactly when the unrounded mean of its subject averages is at least 4, at most two are below 4 and their negative points are at most 2 |
| Ksh.WorkedSemesterRules | src/app/dashboard/DashboardContext.tsx:324-328 | 4, 3, 3, 5, 4.5 average 3.9 with two subjects below 4 and exactly 2 negative points |
| Ksh.SemestersForSubject | src/app/dashboard/DashboardContext.tsx:360-366 | strictly increasing, and a semester is listed exactly when it lies in 1..6 and its catalog holds the subject |
| Ksh.SemestersUpTo | src/app/dashboard/DashboardContext.tsx:360-366 | the listed semesters are strictly increasing, within 1..n, and exactly those whose catalog holds the subject |
| Ksh.ListSemestersForSubject | src/app/dashboard/DashboardContext.tsx:360-366 | the loop returns, in increasing order, exactly the semesters 1 to 6 whose catalog holds the subject |
| Ksh.IdpaGrade | src/app/dashboard/DashboardContext.tsx:372-373 | null exactly when no KSH IDPA grade of semester 6 has positive weight, otherwise a half-step in [1, 6] |
| Ksh.SubjectAveragesAcross | src/app/dashboard/DashboardContext.tsx:381-382 | one average per semester teaching the subject, each present one a half-step in [1, 6] |
| Ksh.SemesterPart | src/app/dashboard/DashboardContext.tsx:381-385 | the rounded mean of a subject's semester averages is a half-step in [1, 6] |
| Ksh.FinalsPart | src/app/dashboard/DashboardContext.tsx:387-389 | the finals part is a half-step, in [1, 6] for valid grades |
| Ksh.FinalsPartOfIdaf | src/app/dashboard/DashboardContext.tsx:387-389 | IDAF's finals part is the semester-6 IDPA average; every other subject's is its finals exam grade |
| Ksh.Merge | src/app/dashboard/DashboardContext.tsx:391-402 | all null exactly when both parts are; with both parts, the rounded mean, which lies between them and within 0.25 of their mean; with one part, that part |
| Ksh.FinalSubjectGradeOf | src/app/dashboard/DashboardContext.tsx:380-403 | the final grade is null exactly when both parts are, otherwise a half-step, in [1, 6] for valid grades |
| Ksh.WorkedMerge | src/app/dashboard/DashboardContext.tsx:397-399 | 4.5 and 5 give 5; 5 alone gives 5 |
| Ksh.OverviewAverage | src/app/dashboard/DashboardContext.tsx:415-418 | the overview average is a half-step, and at least 4 exactly when the unrounded mean is at least 3.75 |
| Ksh.OverviewStatusFor | src/app/dashboard/DashboardContext.tsx:409-433 | null exactly when no subject has a final grade; otherwise non-empty results, a half-step average, and rule 1 holds exactly when the unrounded mean reaches 3.75 |
| Ksh.OverviewStatusOf | src/app/dashboard/DashboardContext.tsx:409-433 | null exactly when no overview subject has a final grade; otherwise the results are non-empty and the average is a half-step |
| Ksh.RoundedAtLeastFour | src/app/dashboard/DashboardContext.tsx:415-418 | a value rounds to at least 4 exactly when it is at least 3.75 |
| Ksh.OverviewPassMeaning | src/app/dashboard/DashboardContext.tsx:409-433 | the results are the non-null final grades, and the overview passes exactly when their rounded mean is at least 4, at most two are below 4 and their negative points are at most 2 |
| Catalog.SemesterCatalog | src/lib/semesters.ts:104 | a semester without a table entry has the empty catalog |
| Catalog.SubjectsForSemester | src/lib/semesters.ts:100-105 | semester 7 gives the finals keys, any other semester its catalog |
| Catalog.FinalsSemesterOffersFinalsKeys | src/lib/semesters.ts:100-103 | semester 7 offers exactly the nine finals keys |
| Catalog.UnknownSemesterAcceptsNothing | src/lib/semesters.ts:104-109 | outside 1..7 the subject list is empty and no subject is valid |
| Catalog.ValidSubjectForSemesterMeaning | src/lib/semesters.ts:107-109 | a pair is valid exactly when the subject is in the catalog of semester 1..6, or a finals key in semester 7 |
| Catalog.BzzChecksAgree | src/lib/semesters.ts:86-113 | both BZZ checks agree and mean membership in the normal modules, the ÜK modules or IPA |
| Catalog.IsBzzModule | src/lib/semesters.ts:94-96 | a subject is a BZZ module exactly when it is a normal module, an ÜK module or IPA |
| Catalog.IsValidBzzSubject | src/lib/semesters.ts:111-113 | accepts exactly the subjects the BZZ module check accepts |
| Catalog.IsValidSubjectForSemester | src/lib/semesters.ts:107-109 | a valid pair always names a semester from 1 to 7 |
| Catalog.OverviewSubjectsAreSubjectsWithoutIdpa | src/lib/semesters.ts:54 | the overview subjects are the first nine subjects, without IDPA, in order |
| Catalog.WithoutTrailing | src/lib/semesters.ts:54 | removing an element that only ends the list gives the rest |
| Catalog.WithoutMeaning | src/lib/semesters.ts:54 | removal keeps exactly the other elements and never lengthens the list |
| Catalog.FinalsEntriesPartitionKeys | src/lib/semesters.ts:34-68 | the finals entries are keyed by the finals subjects, list exactly the finals keys in order, and only finals keys |
| Catalog.FinalsEntriesDomain | src/lib/semesters.ts:34-57 | the keys of the finals entries are the finals subjects |
| Catalog.EntriesInCatalogOrder | src/lib/semesters.ts:34-68 | the entries of the finals subjects, concatenated in order, are the finals keys |
| Catalog.EntriesAreKeys | src/lib/semesters.ts:34-68 | every finals entry is a finals key |
| Catalog.OralWrittenHaveTwoEntries | src/lib/semesters.ts:34-60 | a finals subject has two entries exactly when it is split into oral and written |
| Catalog.IdpaOnlyInFinalSemester | src/lib/semesters.ts:16-51 | IDPA is in a semester's catalog exactly in semester 6, the semester the IDAF substitution names |
| Catalog.SemesterCatalogsUseSubjects | src/lib/semesters.ts:16-23 | every catalog subject is one of the subjects |
| Bzz.ModuleGrades | src/app/dashboard/DashboardContext.tsx:448-449 | the module grades are no more than the stored grades, and each is a BZZ grade of semester 1 for that module |
| Bzz.ModuleGradesMeaning | src/app/dashboard/DashboardContext.tsx:448-449 | a grade is a module grade exactly when it is a BZZ grade of semester 1 for that module |
| Bzz.SchoolsDoNotMix | src/app/dashboard/DashboardContext.tsx:197-200 | adding a KSH grade leaves every BZZ selection unchanged, and adding a BZZ grade every KSH selection |
| Bzz.MissingModuleAdjustmentIsZero | src/app/dashboard/DashboardContext.tsx:452-455 | without a matching BZZ adjustment the module adjustment is 0 |
| Bzz.ModuleAdjustment | src/app/dashboard/DashboardContext.tsx:452-455 | the value of the first stored BZZ adjustment of semester 1 for the module is returned; a non-zero result always comes from such an adjustment |
| Bzz.ModuleRawAverage | src/app/dashboard/DashboardContext.tsx:458-465 | null exactly when the module has no grade of positive weight, otherwise in [1, 6] |
| Bzz.ModuleAverage | src/app/dashboard/DashboardContext.tsx:468-472 | null exactly when the raw average is, otherwise a half-step in [1, 6] within 0.25 of it |
| Bzz.TierAverage | src/app/dashboard/DashboardContext.tsx:475-490 | a tier average is null exactly when no module of the tier has an average, otherwise a half-step in [1, 6] |
| Bzz.NormalAverage | src/app/dashboard/DashboardContext.tsx:475-481 | null exactly when no normal module has an average, otherwise a half-step in [1, 6] |
| Bzz.UkAverage | src/app/dashboard/DashboardContext.tsx:484-490 | null exactly when no ÜK module has an average, otherwise a half-step in [1, 6] |
| Bzz.CombineTiers | src/app/dashboard/DashboardContext.tsx:493-499 | null exactly when both tiers are; with both, their unrounded mean, between them; with one, that one |
| Bzz.FinalAverage | src/app/dashboard/DashboardContext.tsx:493-499 | null exactly when both tier averages are, otherwise in [1, 6] |
| Bzz.FinalAverageKeepsQuarterSteps | src/app/dashboard/DashboardContext.tsx:492-499 | tiers 4.5 and 5 give a final average of 4.75, which is not a half-step |
| Bzz.IpaAverage | src/app/dashboard/DashboardContext.tsx:502-509 | null exactly when no IPA grade has positive weight, otherwise in [1, 6] |
| Bzz.IpaNotRounded | src/app/dashboard/DashboardContext.tsx:501-509 | a single IPA grade of 4.25 is reported as 4.25, while its module average is rounded to 4.5 |
| Bzz.Verdict | src/app/dashboard/DashboardContext.tsx:512-521 | passed exactly when the final average exists and is at least 4 and the IPA is missing or at least 4; never passed without tier averages; ipaPass null exactly when the IPA is |
| Bzz.PassFailOf | src/app/dashboard/DashboardContext.tsx:512-521 | reports the final average and the IPA grade, and passes exactly when the final average is at least 4 and the IPA is missing or at least 4 |
| Bzz.WorkedBzzVerdict | src/app/dashboard/DashboardContext.tsx:512-521 | tiers 4.5 and 5 pass without an IPA and fail with an IPA of 3.5 |
| RateLimit.MaxZero | src/lib/rate-limit.ts:21 | `Math.max(0, x)` is x or 0, whichever is larger |
| RateLimit.Step | src/lib/rate-limit.ts:13-22 | a new or expired key restarts with count 1 and deadline now + window and is allowed with max - 1 remaining; otherwise the count grows by exactly 1, the deadline stays, allowed means count at most max, remaining is max(0, max - count); other keys are untouched |
| RateLimit.Run | src/lib/rate-limit.ts:8-23 | one decision per call, and the key has an entry after any call |
| RateLimit.WindowAdmitsAtMostMax | src/lib/rate-limit.ts:15-22 | within one window the k-th call is allowed exactly when it is the first or k + 1 is at most max, and the count is the number of calls |
| RateLimit.SameWindow | src/lib/rate-limit.ts:20-22 | calls up to the deadline raise the count one by one and are allowed while it stays at most max |
| RateLimit.DefaultWindowAllowsFive | src/lib/rate-limit.ts:10-22 | with the defaults, five calls at once pass (the first with 4 remaining) and the sixth is refused with 0 remaining |
| RateLimit.SameWindowLast | src/lib/rate-limit.ts:21 | within a window the remaining count is max(0, max - count) after each call |
| RateLimit.WindowClosedAtReset | src/lib/rate-limit.ts:15 | a call exactly at the deadline counts in the old window; one a millisecond later opens a new one |
| RateLimit.ZeroLimitStillAdmitsFirst | src/lib/rate-limit.ts:15-17 | with a limit of 0 the first call is still allowed, with remaining -1, and the second is refused |
| RateLimit.RateLimiter.constructor | src/lib/rate-limit.ts:1 | the table of hits starts empty |
| RateLimit.RateLimiter.Hit | src/lib/rate-limit.ts:8-23 | the new table and the decision are those of the step function; other keys keep their entries |
| RateLimit.RateLimiter.HitByIp | src/lib/rate-limit.ts:25-32 | a call by IP is a call with the client key derived from the header |
| ForwardedFor.FirstSegment | src/lib/rate-limit.ts:30 | the first comma-separated segment has no comma and is the whole header or the prefix before its first comma |
| ForwardedFor.TrimStart | src/lib/rate-limit.ts:30 | a suffix of the input that drops only white space and starts with none |
| ForwardedFor.TrimEnd | src/lib/rate-limit.ts:30 | a prefix of the input that drops only white space and ends with none |
| ForwardedFor.Trim | src/lib/rate-limit.ts:30 | a contiguous part of the input, with only white space dropped on both sides and none left at either end |
| ForwardedFor.TrimIdempotent | src/lib/rate-limit.ts:30 | trimming twice is trimming once |
| ForwardedFor.ClientKey | src/lib/rate-limit.ts:29-31 | "unknown" without the header, otherwise the trimmed first segment, which holds no comma |
| ForwardedFor.ClientKeyExamples | src/lib/rate-limit.ts:29-31 | "7, 8" gives "7"; a lone space gives the empty key |
| Bytes.BE32 | scripts/generate-icons.mjs:195 | four bytes that read back, most significant first, as the number |
| Bytes.ReadBE32 | scripts/generate-icons.mjs:195 | four big-endian bytes read as a number below 2^32 |
| Bytes.ReadBE32Injective | scripts/generate-icons.mjs:195 | different four-byte groups read as different numbers |
| Bytes.BE32OfRead | scripts/generate-icons.mjs:195 | writing back a number read from four bytes gives the same bytes |
| Bytes.LE16 | scripts/generate-icons.mjs:217-218 | two bytes that read back, least significant first, as the number |
| Bytes.ReadLE16 | scripts/generate-icons.mjs:217-218 | two little-endian bytes read as a number below 2^16 |
| Bytes.Ascii | scripts/generate-icons.mjs:196 | the ASCII bytes of a chunk type, one per character |
| Checksums.Crc32 | scripts/generate-icons.mjs:136-145 | the reflected CRC-32 (polynomial 0xEDB88320, initial and final value 0xFFFFFFFF) is below 2^32 |
| Checksums.ComputeCrc32 | scripts/generate-icons.mjs:136-145 | the byte loop computes the CRC-32 |
| Checksums.UpdateRegister | scripts/generate-icons.mjs:139-142 | the eight inner steps after the XOR of a byte give the byte's register update |
| Checksums.CrcUpdateAppend | scripts/generate-icons.mjs:138-143 | running over a concatenation is running over the first part, then the second |
| Checksums.CrcBitLinear | scripts/generate-icons.mjs:141 | one shift-and-XOR step is linear over XOR |
| Checksums.CrcByteIsEightBits | scripts/generate-icons.mjs:140-142 | a byte update is exactly eight steps on the register XORed with the byte |
| Checksums.CrcOfIend | scripts/generate-icons.mjs:189 | the CRC-32 of "IEND" is 0xAE426082, the value every PNG file ends with |
| Checksums.AdlerState | scripts/generate-icons.mjs:148-153 | both running sums stay in [0, 65521) |
| Checksums.Adler32 | scripts/generate-icons.mjs:154 | the checksum is below 2^32, with the second sum in the high half and the first in the low half |
| Checksums.ComputeAdler32 | scripts/generate-icons.mjs:147-155 | the loop computes the Adler-32 |
| Checksums.PackedHalves | scripts/generate-icons.mjs:154 | shifting the high half left by 16 and OR-ing in the low half equals b * 65536 + a for 16-bit halves |
| Checksums.AdlerMatchesDefinition | scripts/generate-icons.mjs:147-155 | the sums are 1 plus the byte sum, and the sum of the running first sums, modulo 65521 (section 8.2 of RFC 1950) |
| Zlib.StoredBlock | scripts/generate-icons.mjs:215-221 | a stored block is five header bytes followed by the data unchanged |
| Zlib.OnesComplement | scripts/generate-icons.mjs:218 | NLEN = LEN XOR 0xFFFF is the ones' complement of LEN |
| Zlib.Deflate | scripts/generate-icons.mjs:203-230 | the stream starts with the two header bytes and ends with the big-endian Adler-32 of the input |
| Zlib.DeflateRaw | scripts/generate-icons.mjs:203-230 | the block loop produces the specified stream |
| Zlib.StoredBlocksLength | scripts/generate-icons.mjs:210-222 | the blocks add five bytes per block of at most 65535 to the input length |
| Zlib.DeflateLength | scripts/generate-icons.mjs:203-230 | the stream is the input plus six bytes plus five per block |
| Zlib.ParseBlock | scripts/generate-icons.mjs:215-221 | reading a stored block consumes a non-empty prefix of the input |
| Zlib.InflateBlocksChecksAdler | scripts/generate-icons.mjs:224-227 | a block sequence is accepted only if its last four bytes are the Adler-32 of the data |
| Zlib.InflateChecksAdler | scripts/generate-icons.mjs:224-227 | an accepted stream ends with the big-endian Adler-32 of its data |
| Zlib.StreamHeaderValid | scripts/generate-icons.mjs:207-208 | 0x78 0x01 is a valid header: method 8, 32K window, FCHECK multiple of 31, no dictionary |
| Zlib.ReadStoredBlock | scripts/generate-icons.mjs:215-221 | a written block reads back as its final flag, data and the rest |
| Zlib.BlocksRoundTrip | scripts/generate-icons.mjs:210-222 | the blocks written from any position, read after the bytes before it, give back the whole input |
| Zlib.RoundTrip | scripts/generate-icons.mjs:203-230 | inflating the stream of a non-empty input gives the input back |
| Zlib.EmptyInputHasNoFinalBlock | scripts/generate-icons.mjs:210 | an empty input gives header and checksum with no block, which no reader accepts |
| Png.Chunk | scripts/generate-icons.mjs:193-201 | a chunk is 12 bytes longer than its data |
| Png.MakeChunk | scripts/generate-icons.mjs:193-201 | the method builds length, type, data and CRC as specified |
| Png.ReadChunk | scripts/generate-icons.mjs:193-201 | a chunk read back has a four-byte type and fewer than 2^32 data bytes |
| Png.ReadWrittenChunk | scripts/generate-icons.mjs:193-201 | a written chunk reads back as its type, data and the rest |
| Png.KindsAreAscii | scripts/generate-icons.mjs:183-196 | the IHDR, IDAT and IEND type bytes are the ASCII bytes of the names passed to makeChunk |
| Png.CorruptedChunkRejected | scripts/generate-icons.mjs:197-199 | a chunk whose data no longer matches its CRC is rejected |
| Png.Ihdr | scripts/generate-icons.mjs:175-182 | the header chunk data is 13 bytes |
| Png.Scanlines | scripts/generate-icons.mjs:157-164 | the raw image has height * (1 + 4 * width) bytes |
| Png.ScanlinesLayout | scripts/generate-icons.mjs:157-164 | each row starts with filter byte 0, followed by that row's pixel bytes in order |
| Png.RawRows | scripts/generate-icons.mjs:157-165 | the row loop produces the scanlines |
| Png.PushRow | scripts/generate-icons.mjs:159-163 | one row appends filter byte 0 and that row's bytes |
| Png.Unfilter | scripts/generate-icons.mjs:159 | removing the filter bytes leaves height * stride bytes |
| Png.UnfilterScanlines | scripts/generate-icons.mjs:157-164 | removing the filter bytes from the scanlines gives the pixels back |
| Png.EncodePng | scripts/generate-icons.mjs:135-191 | no file when the width or height does not fit 32 bits; a file always starts with the 8-byte PNG signature |
| Png.WritePng | scripts/generate-icons.mjs:135-191 | the encoder produces the specified file, or nothing when a size does not fit 32 bits |
| Png.ReadFileLayout | scripts/generate-icons.mjs:169-191 | a file of signature, header, data and end chunk decodes as its image data |
| Png.ReadSignature | scripts/generate-icons.mjs:172 | the 8-byte signature is accepted and skipped |
| Png.ReadHeaderChunk | scripts/generate-icons.mjs:175-183 | the header chunk gives back width and height (8-bit RGBA, no interlace) |
| Png.ReadDataChunk | scripts/generate-icons.mjs:186-189 | the data chunk followed by the end chunk gives back the compressed data |
| Png.EndChunkIsLast | scripts/generate-icons.mjs:189 | the end chunk is recognised as the last chunk |
| Png.ReadImageData | scripts/generate-icons.mjs:157-167 | inflating and unfiltering the data gives the pixels back |
| Png.DecodeEncode | scripts/generate-icons.mjs:135-191 | a file the encoder produces decodes to the same width, height and pixels |
| Canvas.OffsetInBuffer | scripts/generate-icons.mjs:27 | every pixel's four bytes lie inside the buffer |
| Canvas.Pixel | scripts/generate-icons.mjs:27 | a pixel is four bytes |
| Canvas.DistinctPixelsDisjoint | scripts/generate-icons.mjs:27 | different pixels never share a byte |
| Canvas.ByteOwner | scripts/generate-icons.mjs:18 | every byte of the buffer belongs to one pixel at one position |
| Canvas.PixelOfByte | scripts/generate-icons.mjs:27 | byte k of pixel (x, y) maps back to that pixel and position |
| Canvas.Render | scripts/generate-icons.mjs:18 | the buffer built from a pixel function has that function's pixel everywhere |
| Canvas.PixelsDetermineBuffer | scripts/generate-icons.mjs:18 | buffers agreeing on every pixel are equal |
| Canvas.PutPixel | scripts/generate-icons.mjs:38-41 | the pixel gets the four values and no other pixel changes |
| Canvas.PutAlpha | scripts/generate-icons.mjs:43 | only the pixel's alpha changes |
| Shape.Corners | scripts/generate-icons.mjs:55-60 | four corner centres, r inside each corner, in the script's order |
| Shape.IsInRoundedRectAsWritten | scripts/generate-icons.mjs:53-71 | the script's test with its loop and early returns; false outside the box |
| Shape.AsWrittenCutsCornerBands | scripts/generate-icons.mjs:61-69 | when the rectangle is wider than three radii, the script's test rejects every pixel of the corner bands |
| Shape.AsWrittenRejectsCornerPixel | scripts/generate-icons.mjs:61-69 | for the 192-pixel icon, pixel (46, 46) next to the top-left centre (47, 47) is rejected as written but accepted as intended |
| Shape.IsInRoundedRect | scripts/generate-icons.mjs:53-71 | the corrected test, checking only the circle of the pixel's own corner; false outside the box |
| Shape.RoundedRectIsNearCore | scripts/generate-icons.mjs:53-71 | the corrected test accepts exactly the pixels of the box within distance r of the inner rectangle: a rounded rectangle |
| Shape.BothVersionsWithinBox | scripts/generate-icons.mjs:53-54 | both the as-written and the corrected test accept only pixels of the box |
| Shape.VersionsAgreeOutsideCorners | scripts/generate-icons.mjs:62-64 | away from the corner bands both tests are the box test |
| Lettering.FontWellFormed | scripts/generate-icons.mjs:73-94 | every glyph of the font has 8 rows of equal, non-zero width |
| Lettering.GlyphsOf | scripts/generate-icons.mjs:97-98 | no glyphs exactly when some character is missing from the font, otherwise one glyph per character in order |
| Lettering.AdvanceAppend | scripts/generate-icons.mjs:131 | each glyph moves the offset by its width plus one |
| Lettering.TotalWidth | scripts/generate-icons.mjs:102 | the text width is positive |
| Lettering.LayoutOf | scripts/generate-icons.mjs:104-108 | the scale is the largest whole number with scale * width at most 55% of the size |
| Lettering.TextCentred | scripts/generate-icons.mjs:107-108 | the margins on either side of the text differ by at most one pixel |
| Lettering.TextFitsImage | scripts/generate-icons.mjs:104-107 | when the size is the image size, the scaled text width fits inside the image horizontally |
| Lettering.InkAtAppend | scripts/generate-icons.mjs:111-131 | an appended glyph owns the columns after the advance of everything before it |
| Lettering.InkWithinText | scripts/generate-icons.mjs:112-114 | ink lies within the text's columns and the 8 glyph rows |
| Lettering.TextWithinBlock | scripts/generate-icons.mjs:117-118 | every pixel the text covers lies in the scaled text block at the start corner |
| Lettering.TextCoversNext | scripts/generate-icons.mjs:111-131 | the ink of one more glyph is the earlier ink plus that glyph drawn at its offset |
| Lettering.TextDrawnNext | scripts/generate-icons.mjs:111-132 | drawing the next glyph over the earlier ones gives the text one glyph longer |
| Lettering.PaintSpan | scripts/generate-icons.mjs:116-125 | the `sx` loop paints the in-image pixels of one row span and nothing else |
| Lettering.PaintCell | scripts/generate-icons.mjs:115-127 | the `sy` loop paints the in-image pixels of one scaled cell and nothing else |
| Lettering.CoverCell | scripts/generate-icons.mjs:113-118 | a scaled cell holds exactly the pixels whose cell index is that cell |
| Lettering.CoverRowEnd | scripts/generate-icons.mjs:112-113 | finishing a glyph row is starting the next |
| Lettering.CoverAll | scripts/generate-icons.mjs:112-129 | after all rows the painted pixels are exactly the glyph's ink |
| Lettering.DrawGlyph | scripts/generate-icons.mjs:112-130 | the row and column loops paint exactly the in-image pixels of the glyph's ink cells |
| Lettering.DrawText | scripts/generate-icons.mjs:96-133 | nothing changes when a glyph is missing; otherwise exactly the covered pixels get the colour with alpha 255 and all others keep their value |
| Icons.Radius | scripts/generate-icons.mjs:22 | the radius is 18% of the size rounded to the nearest integer, halves up |
| Icons.Padding | scripts/generate-icons.mjs:23 | the padding is 6% of the size rounded likewise, and at most half the size |
| Icons.RoundingIsNearest | scripts/generate-icons.mjs:22-23 | both are within half a unit of the exact products |
| Icons.ShapeWithinSquare | scripts/generate-icons.mjs:28-36 | with either corner test the dark area lies on the padded square, and away from the corner squares it is the whole padded square |
| Icons.BackgroundPixel | scripts/generate-icons.mjs:37-44 | a fresh pixel gets alpha 255 where the chosen corner test accepts it and 0 elsewhere |
| Icons.IconPixel | scripts/generate-icons.mjs:25-48 | a finished pixel, for either corner test, is four bytes |
| Icons.Icon | scripts/generate-icons.mjs:16-50 | the icon buffer for a corner test holds size * size * 4 bytes with each finished pixel in place |
| Icons.GpGlyphs | scripts/generate-icons.mjs:73-102 | "GP" has both glyphs, 8 and 7 columns wide, 16 columns with the gap |
| Icons.Layout192 | scripts/generate-icons.mjs:104-108 | the 192-pixel icon draws at scale 6 from (48, 72) |
| Icons.Layout512 | scripts/generate-icons.mjs:104-108 | the 512-pixel icon draws at scale 17 from (120, 188) |
| Icons.TextInMiddleBand | scripts/generate-icons.mjs:104-108 | the lettering lies between the paddings horizontally and between the corner squares vertically |
| Icons.TextOnShape | scripts/generate-icons.mjs:25-48 | at every size, each pixel of the lettering lies on the padded square outside its corner squares, so both corner tests paint under it |
| Icons.IconAlpha | scripts/generate-icons.mjs:37-48 | for either corner test, the icon is opaque exactly where that test accepts, and outside it every byte is 0 |
| Icons.IconsAgreeOutsideCorners | scripts/generate-icons.mjs:61-64 | away from the corner squares the script's icon and the corrected icon have the same pixels |
| Icons.AsWrittenIconIsNotched | scripts/generate-icons.mjs:61-69 | from 8 pixels up, the script's icon is transparent on every pixel of the four corner squares |
| Icons.CornerPixel192 | scripts/generate-icons.mjs:61-69 | in the 192-pixel icon, pixel (46, 46) is transparent as written and dark when corrected |
| Icons.IconRoundTrip | scripts/generate-icons.mjs:16-50 | for either corner test, every icon up to 16384 pixels a side encodes, and decodes back to its pixels |
| Icons.Painted | scripts/generate-icons.mjs:37-44 | the background step gives alpha 255 where the test accepts and keeps the colour bytes with alpha 0 elsewhere |
| Icons.IsInShape | scripts/generate-icons.mjs:28-36 | the call computes the chosen corner test with the script's padding and radius |
| Icons.PaintPixel | scripts/generate-icons.mjs:27-44 | one step of the `x` loop paints its pixel as the chosen corner test says, and no other pixel |
| Icons.FillRow | scripts/generate-icons.mjs:26-45 | the `x` loop paints every pixel of its row as the chosen corner test says and leaves the other rows |
| Icons.FillBackground | scripts/generate-icons.mjs:25-46 | the `y` loop paints every pixel of the buffer as the chosen corner test says |
| Icons.DrawnIsIcon | scripts/generate-icons.mjs:18-48 | a zeroed buffer with the background of a corner test and then the text drawn holds the pixels of that test's icon |
| Icons.CreatePngBuffer | scripts/generate-icons.mjs:16-51 | the method returns the PNG encoding of the icon for the given corner test; `AsWritten` is the script's function |

## Left out

- The React provider's UI state, effects and fetch-based create, update and delete actions, and every view component. They are framework plumbing and I/O.
- The API routes, authentication, e-mail verification, the Prisma client, the seed script and the service worker. They are database, network, crypto and browser-cache code. The API's grade validation appears only as the `ValidSnapshot` precondition (values in [1, 6]).
- Floating point: grades, weights and averages are exact reals. Rounding error of IEEE-754 doubles is not modelled, so the re-clamp after rounding is proved to be a no-op.
- Icons.Radius: `Math.round(size * 0.18)` is modelled as exact integer rounding, ignoring that 0.18 and 0.06 are not exact doubles. (Icons.Padding likewise.)
- `Date.now()` is the `now` parameter of each call; the module-global table is a field of `RateLimiter`.
- `writeFileSync`, `console.log`, the loop over the sizes 192 and 512, and Node `Buffer` allocation. Buffers are byte sequences.
- Checksums.CrcBitLinear: linearity is proved for a single shift step, not for a whole byte or message.
- The nested CRC loop and the pixel loops are split into methods (`UpdateRegister`, `PushRow`, `PaintSpan`, `PaintCell`, `PaintPixel`, `FillRow`). The order of the writes is kept; only the loop bodies move.
- Checksums.Adler32: `(b << 16) | a` is written as `b * 65536 + a`, and the bit-level identity is proved separately (`PackedHalves`).
- The PNG and zlib readers (`DecodePng`, `Inflate`) exist only to state the round trips. They accept the files this encoder writes, not every valid PNG or zlib stream.
- Lettering.DrawText: requires a non-empty text, since the script reads the first glyph's height before drawing. It also requires a font of rectangular glyphs of 8 rows, the shape of the script's font.
- Icons.CreatePngBuffer: takes the corner test as a parameter. With `AsWritten` it is the script's function, with its notched corners (see Findings). With `Corrected` it draws the intended rounded corners. The same holds for Icons.BackgroundPixel, Icons.IconPixel, Icons.Icon, Icons.IconAlpha, Icons.Painted, Icons.PaintPixel, Icons.FillRow, Icons.FillBackground and Icons.DrawnIsIcon.
- Icons.IconRoundTrip: stated for sizes up to 16384, where the compressed data fits the 32-bit chunk length.

## Findings

| source | as written | input that shows it | evidently intended | confidence | as-written member | corrected member |
|---|---|---|---|---|---|---|
| scripts/generate-icons.mjs:61-69 | the corner-region test does not depend on the corner being examined, so a pixel in any corner band must lie within the radius of all four corner centres | the 192-pixel icon (rectangle at 12, 12 of side 168, radius 35), pixel (46, 46): within 2 of the top-left centre (47, 47) but 99 away from (145, 47); the pixel is rejected, and so is every corner-band pixel, so the corners come out as square notches | test only the centre of the corner whose band holds the pixel, giving a rounded rectangle | high; not executed | Shape.AsWrittenRejectsCornerPixel, Icons.CornerPixel192 | Shape.RoundedRectIsNearCore |
