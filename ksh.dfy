/**
 * The KSH grade engine: the computed getters of the dashboard provider for the
 * regular curriculum (src/app/dashboard/DashboardContext.tsx).
 *
 * Grades flow bottom-up: grades of one (semester, subject) -> raw average ->
 * half-grade subject average -> semester average / finals average -> final
 * 3-year grade per subject -> pass/fail under three rules.
 */
module Ksh {
  import opened Options
  import opened Records
  import opened Seqs
  import opened Averages
  import opened Catalog

  /** A subject with its (present) average or final grade. */
  datatype SubjectResult = SubjectResult(subject: string, grade: real)

  /** The outcome of the three promotion rules, shared by the semester and the overview status. */
  datatype RuleCheck = RuleCheck(
    passed: bool,
    subjectsBelow4: seq<string>,
    subjectsBelow4Count: int,
    negativePoints: real,
    rule1Pass: bool,
    rule2Pass: bool,
    rule3Pass: bool)

  datatype SemesterStatus = SemesterStatus(semAvg: Option<real>, rules: RuleCheck)

  datatype OverviewStatus = OverviewStatus(avg: real, subjectResults: seq<SubjectResult>, rules: RuleCheck)

  datatype FinalSubjectGrade = FinalSubjectGrade(
    semesterAvg: Option<real>,
    finalsGrade: Option<real>,
    finalGrade: Option<real>)

  /** The API only stores grades in [1, 6]. */
  predicate ValidSnapshot(db: Snapshot)
  {
    AllValid(db.grades)
  }

  // ---------------------------------------------------------------------
  // Filter and lookup
  // ---------------------------------------------------------------------

  /** `getGradesForSubject`: the KSH grades of one semester and subject, in stored order. */
  function GradesForSubject(db: Snapshot, semester: int, subject: string): (r: seq<Grade>)
    ensures |r| <= |db.grades|
    ensures forall i :: 0 <= i < |r| ==> r[i].semester == semester && r[i].subject == subject
  {
    Filter(KshGrades(db), GradeKey(semester, subject))
  }

  /** A grade is selected exactly when it is a KSH grade of that semester and subject. */
  lemma GradesForSubjectMeaning(db: Snapshot, semester: int, subject: string, g: Grade)
    ensures g in GradesForSubject(db, semester, subject) <==>
      g in db.grades && IsKshGrade(g) && g.semester == semester && g.subject == subject
  {
    FilterMembership(db.grades, IsKshGrade, g);
    FilterMembership(KshGrades(db), GradeKey(semester, subject), g);
  }

  /** Selected grades keep the validity of the stored ones. */
  lemma GradesForSubjectValid(db: Snapshot, semester: int, subject: string)
    requires ValidSnapshot(db)
    ensures AllValid(GradesForSubject(db, semester, subject))
  {
    FilterKeeps(db.grades, IsKshGrade, ValidValue);
    FilterKeeps(KshGrades(db), GradeKey(semester, subject), ValidValue);
  }

  /** `getAdjustment`: the value of the first KSH adjustment for (semester, subject), or 0. */
  function AdjustmentFor(db: Snapshot, semester: int, subject: string): (r: real)
    ensures r != 0.0 ==>
      exists j :: 0 <= j < |KshAdjustments(db)| && KshAdjustments(db)[j].value == r
        && KshAdjustments(db)[j].semester == semester && KshAdjustments(db)[j].subject == subject
    ensures forall j ::
              0 <= j < |KshAdjustments(db)| && AdjustmentKey(semester, subject)(KshAdjustments(db)[j])
              && (forall i :: 0 <= i < j ==> !AdjustmentKey(semester, subject)(KshAdjustments(db)[i]))
              ==> r == KshAdjustments(db)[j].value
  {
    match Find(KshAdjustments(db), AdjustmentKey(semester, subject))
    case None => 0.0
    case Some(a) => a.value
  }

  /** Without a KSH adjustment for the key the lookup yields 0, the identity of the addition it feeds. */
  lemma MissingAdjustmentIsZero(db: Snapshot, semester: int, subject: string)
    requires forall i :: 0 <= i < |db.adjustments| ==>
      !(IsKshAdjustment(db.adjustments[i]) && db.adjustments[i].semester == semester && db.adjustments[i].subject == subject)
    ensures AdjustmentFor(db, semester, subject) == 0.0
  {
    var p := AdjustmentKey(semester, subject);
    var kept := KshAdjustments(db);
    forall j | 0 <= j < |kept| ensures !p(kept[j]) {
      FilterMembership(db.adjustments, IsKshAdjustment, kept[j]);
    }
  }

  // ---------------------------------------------------------------------
  // Subject averages
  // ---------------------------------------------------------------------

  /** `getRawSubjectAverage`: weighted mean plus adjustment, clamped; `None` without counting grades. */
  function RawSubjectAverage(db: Snapshot, semester: int, subject: string): (r: Option<real>)
    ensures r.None? <==> forall i :: 0 <= i < |GradesForSubject(db, semester, subject)| ==>
      !Counts(GradesForSubject(db, semester, subject)[i])
    ensures r.Some? ==> 1.0 <= r.value <= 6.0
  {
    RawAverage(GradesForSubject(db, semester, subject), AdjustmentFor(db, semester, subject))
  }

  /**
   * `getSubjectAverage`: `None` exactly when the raw average is; otherwise a multiple of
   * 0.5 in [1, 6] within 0.25 of the raw average (halves round up).
   */
  function SubjectAverage(db: Snapshot, semester: int, subject: string): (r: Option<real>)
    ensures r.None? <==> RawSubjectAverage(db, semester, subject).None?
    ensures r.Some? ==> IsHalfStep(r.value) && 1.0 <= r.value <= 6.0
    ensures r.Some? ==> RawSubjectAverage(db, semester, subject).value - 0.25 < r.value
                        <= RawSubjectAverage(db, semester, subject).value + 0.25
  {
    RoundedAverage(RawSubjectAverage(db, semester, subject))
  }

  /** The re-clamp after rounding never changes the value: the subject average is the nearest half step. */
  lemma SubjectAverageIsNearestHalfStep(db: Snapshot, semester: int, subject: string)
    requires RawSubjectAverage(db, semester, subject).Some?
    ensures SubjectAverage(db, semester, subject) == Some(RoundHalf(RawSubjectAverage(db, semester, subject).value))
  {
    RoundHalfUnique(RawSubjectAverage(db, semester, subject).value, SubjectAverage(db, semester, subject).value);
  }

  /**
   * Storing an adjustment of 0 is the same as storing none: appending it changes no
   * adjustment lookup, and so no raw or rounded average, for any key.
   */
  lemma ZeroAdjustmentSameAsMissing(db: Snapshot, zero: Adjustment, semester: int, subject: string)
    requires zero.value == 0.0
    ensures var db' := Snapshot(db.grades, db.adjustments + [zero]);
      && AdjustmentFor(db', semester, subject) == AdjustmentFor(db, semester, subject)
      && RawSubjectAverage(db', semester, subject) == RawSubjectAverage(db, semester, subject)
      && SubjectAverage(db', semester, subject) == SubjectAverage(db, semester, subject)
  {
    var p := AdjustmentKey(semester, subject);
    FilterAppend(db.adjustments, [zero], IsKshAdjustment);
    var kept := KshAdjustments(db);
    if IsKshAdjustment(zero) {
      assert Filter([zero], IsKshAdjustment) == [zero];
      FindAppend(kept, zero, p);
    } else {
      assert Filter([zero], IsKshAdjustment) == [];
      assert kept + [] == kept;
    }
  }

  // ---------------------------------------------------------------------
  // Semester average
  // ---------------------------------------------------------------------

  /** The subject averages of a list of subjects in one semester. */
  function SubjectAverages(db: Snapshot, semester: int, subjects: seq<string>): (r: seq<Option<real>>)
    ensures |r| == |subjects|
    ensures forall i :: 0 <= i < |r| ==> r[i] == SubjectAverage(db, semester, subjects[i])
  {
    seq(|subjects|, i requires 0 <= i < |subjects| => SubjectAverage(db, semester, subjects[i]))
  }

  /**
   * `getSemesterAverage`: the unrounded mean of the subject averages present in the
   * semester's catalog; `None` exactly when no subject there has an average.
   */
  function SemesterAverage(db: Snapshot, semester: int): (r: Option<real>)
    ensures r.None? <==> forall s :: s in SemesterCatalog(semester) ==> SubjectAverage(db, semester, s).None?
    ensures r.Some? ==> 1.0 <= r.value <= 6.0
  {
    var avgs := SubjectAverages(db, semester, SemesterCatalog(semester));
    MeanOfPresentInRange(avgs);
    MeanOfPresent(avgs)
  }

  // ---------------------------------------------------------------------
  // Finals
  // ---------------------------------------------------------------------

  /** A finals entry's grade: the value of its first stored grade, whatever its weight. */
  function EntryGrade(db: Snapshot, entry: string): (r: Option<real>)
    ensures r.None? <==> GradesForSubject(db, FinalsSemester, entry) == []
  {
    var gs := GradesForSubject(db, FinalsSemester, entry);
    if |gs| > 0 then Some(gs[0].value) else None
  }

  /** An entry has a grade exactly when a KSH grade is stored under semester 7 and that key, and the grade is one of them. */
  lemma EntryGradeMeaning(db: Snapshot, entry: string)
    ensures EntryGrade(db, entry).Some? <==>
      exists g :: g in db.grades && IsKshGrade(g) && g.semester == FinalsSemester && g.subject == entry
    ensures EntryGrade(db, entry).Some? ==>
      exists g :: g in db.grades && IsKshGrade(g) && g.semester == FinalsSemester && g.subject == entry
        && g.value == EntryGrade(db, entry).value
  {
    var gs := GradesForSubject(db, FinalsSemester, entry);
    if |gs| > 0 {
      GradesForSubjectMeaning(db, FinalsSemester, entry, gs[0]);
    } else {
      forall g | g in db.grades && IsKshGrade(g) && g.semester == FinalsSemester && g.subject == entry
        ensures false
      {
        GradesForSubjectMeaning(db, FinalsSemester, entry, g);
      }
    }
  }

  /** A weight-0 finals grade still counts as the entry's grade, though it would not count in a semester average. */
  lemma FinalsIgnoreWeight(g: Grade)
    requires g.school == None && g.semester == FinalsSemester && g.weight == 0.0
    ensures EntryGrade(Snapshot([g], []), g.subject) == Some(g.value)
    ensures RawSubjectAverage(Snapshot([g], []), FinalsSemester, g.subject) == None
  {
    var db := Snapshot([g], []);
    assert [g][1..] == [];
    assert Filter([g], IsKshGrade) == [g];
    assert GradesForSubject(db, FinalsSemester, g.subject) == [g];
  }

  /** With several finals grades stored for an entry, the first one in stored order is its grade. */
  lemma EntryGradeIsFirst(db: Snapshot, entry: string, j: nat)
    requires j < |db.grades| && IsKshGrade(db.grades[j])
    requires db.grades[j].semester == FinalsSemester && db.grades[j].subject == entry
    requires forall i :: 0 <= i < j ==>
      !(IsKshGrade(db.grades[i]) && db.grades[i].semester == FinalsSemester && db.grades[i].subject == entry)
    ensures EntryGrade(db, entry) == Some(db.grades[j].value)
  {
    FilterFilterFirst(db.grades, IsKshGrade, GradeKey(FinalsSemester, entry), j);
  }

  lemma EntryGradeValid(db: Snapshot, entry: string)
    requires ValidSnapshot(db)
    ensures EntryGrade(db, entry).Some? ==> 1.0 <= EntryGrade(db, entry).value <= 6.0
  {
    GradesForSubjectValid(db, FinalsSemester, entry);
  }

  /** The entry grades of one finals subject group. */
  function EntryGrades(db: Snapshot, entries: seq<string>): (r: seq<Option<real>>)
    ensures |r| == |entries|
    ensures forall i :: 0 <= i < |r| ==> r[i] == EntryGrade(db, entries[i])
  {
    seq(|entries|, i requires 0 <= i < |entries| => EntryGrade(db, entries[i]))
  }

  /**
   * One subject's finals grade: the mean of its present entry grades rounded to 0.5;
   * `None` when none of its entries has a grade.
   */
  function FinalsGroupGrade(db: Snapshot, entries: seq<string>): (r: Option<real>)
    ensures r.None? <==> forall i :: 0 <= i < |entries| ==> EntryGrade(db, entries[i]).None?
    ensures r.Some? ==> IsHalfStep(r.value)
    ensures ValidSnapshot(db) && r.Some? ==> 1.0 <= r.value <= 6.0
  {
    var vals := EntryGrades(db, entries);
    if ValidSnapshot(db) then
      forall i | 0 <= i < |entries| ensures vals[i].Some? ==> 1.0 <= vals[i].value <= 6.0 {
        EntryGradeValid(db, entries[i]);
      }
      MeanOfPresentInRange(vals);
      RoundedMeanOfPresent(vals)
    else
      RoundedMeanOfPresent(vals)
  }

  /** `getFinalsExamGrade`: the subject's finals grade; `None` for a subject without finals entries. */
  function FinalsExamGrade(db: Snapshot, subject: string): (r: Option<real>)
    ensures subject !in FinalsEntries ==> r.None?
    ensures r.Some? ==> IsHalfStep(r.value)
    ensures ValidSnapshot(db) && r.Some? ==> 1.0 <= r.value <= 6.0
  {
    if subject in FinalsEntries then FinalsGroupGrade(db, FinalsEntries[subject]) else None
  }

  /** The entry groups `getFinalsAverage` lists inline. */
  const FinalsGroups: seq<seq<string>> := [
    ["German (Oral)", "German (Written)"],
    ["French (Oral)", "French (Written)"],
    ["English (Oral)", "English (Written)"],
    ["Math (Written)"],
    ["WR (Written)"],
    ["FrW (Written)"]
  ]

  /** The inline groups are the catalog's `FINALS_ENTRIES`, taken in `FINALS_SUBJECTS` order. */
  lemma FinalsGroupsFollowCatalog()
    ensures |FinalsGroups| == |FinalsSubjects|
    ensures forall i :: 0 <= i < |FinalsGroups| ==>
      FinalsSubjects[i] in FinalsEntries && FinalsGroups[i] == FinalsEntries[FinalsSubjects[i]]
  {
  }

  /** The finals grades of the six groups. */
  function GroupGrades(db: Snapshot): (r: seq<Option<real>>)
    ensures |r| == |FinalsGroups|
    ensures forall i :: 0 <= i < |r| ==> r[i] == FinalsGroupGrade(db, FinalsGroups[i])
  {
    seq(|FinalsGroups|, i requires 0 <= i < |FinalsGroups| => FinalsGroupGrade(db, FinalsGroups[i]))
  }

  /**
   * `getFinalsAverage`: the subjects' (already rounded) finals grades averaged and rounded
   * to 0.5 again; `None` when no subject has a finals grade.
   */
  function FinalsAverage(db: Snapshot): (r: Option<real>)
    ensures r.None? <==> forall i :: 0 <= i < |FinalsGroups| ==> FinalsGroupGrade(db, FinalsGroups[i]).None?
    ensures r.Some? ==> IsHalfStep(r.value)
    ensures ValidSnapshot(db) && r.Some? ==> 1.0 <= r.value <= 6.0
  {
    var groups := GroupGrades(db);
    if ValidSnapshot(db) then
      MeanOfPresentInRange(groups);
      RoundedMeanOfPresent(groups)
    else
      RoundedMeanOfPresent(groups)
  }

  /** The finals average is the twice-rounded mean of `getFinalsExamGrade` over the finals subjects. */
  lemma FinalsAverageUsesExamGrades(db: Snapshot)
    ensures FinalsAverage(db) ==
      RoundedMeanOfPresent(seq(|FinalsSubjects|, i requires 0 <= i < |FinalsSubjects| => FinalsExamGrade(db, FinalsSubjects[i])))
  {
    FinalsGroupsFollowCatalog();
    assert GroupGrades(db) ==
      seq(|FinalsSubjects|, i requires 0 <= i < |FinalsSubjects| => FinalsExamGrade(db, FinalsSubjects[i]));
  }

  // ---------------------------------------------------------------------
  // Overall average
  // ---------------------------------------------------------------------

  /** The averages of semesters 1 to 6. */
  function SemesterAverages(db: Snapshot): (r: seq<Option<real>>)
    ensures |r| == TotalSemesters
    ensures forall i :: 0 <= i < |r| ==> r[i] == SemesterAverage(db, i + 1)
  {
    seq(TotalSemesters, i => SemesterAverage(db, i + 1))
  }

  /** The mean of the present semester averages together with the finals average, if present. */
  function OverallOf(semAvgs: seq<Option<real>>, finalsAvg: Option<real>): (r: Option<real>)
    ensures r.None? <==> (forall i :: 0 <= i < |semAvgs| ==> semAvgs[i].None?) && finalsAvg.None?
    ensures (forall i :: 0 <= i < |semAvgs| && semAvgs[i].Some? ==> 1.0 <= semAvgs[i].value <= 6.0)
      && (finalsAvg.Some? ==> 1.0 <= finalsAvg.value <= 6.0)
      && r.Some?
      ==> 1.0 <= r.value <= 6.0
  {
    var all := Present(semAvgs) + (if finalsAvg.Some? then [finalsAvg.value] else []);
    if |all| == 0 then None
    else
      OverallMeanInRange(semAvgs, finalsAvg, all);
      Some(Mean(all))
  }

  /** The mean of the present averages and the finals average stays in [1, 6] when they do. */
  lemma OverallMeanInRange(semAvgs: seq<Option<real>>, finalsAvg: Option<real>, all: seq<real>)
    requires all == Present(semAvgs) + (if finalsAvg.Some? then [finalsAvg.value] else [])
    requires |all| > 0
    ensures (forall i :: 0 <= i < |semAvgs| && semAvgs[i].Some? ==> 1.0 <= semAvgs[i].value <= 6.0)
      && (finalsAvg.Some? ==> 1.0 <= finalsAvg.value <= 6.0)
      ==> 1.0 <= Mean(all) <= 6.0
  {
    if (forall i :: 0 <= i < |semAvgs| && semAvgs[i].Some? ==> 1.0 <= semAvgs[i].value <= 6.0)
      && (finalsAvg.Some? ==> 1.0 <= finalsAvg.value <= 6.0)
    {
      PresentBetween(semAvgs, 1.0, 6.0);
      MeanBounds(all, 1.0, 6.0);
    }
  }

  /**
   * `getOverallAverage`: the unrounded mean of the present semester 1-6 averages and the
   * finals average; `None` exactly when none of them is present.
   */
  function OverallAverage(db: Snapshot): (r: Option<real>)
    ensures ValidSnapshot(db) && r.Some? ==> 1.0 <= r.value <= 6.0
  {
    OverallOf(SemesterAverages(db), FinalsAverage(db))
  }

  /** The overall average weighs the finals average like one more semester. */
  lemma OverallTreatsFinalsAsSemester(semAvgs: seq<Option<real>>, finalsAvg: Option<real>)
    ensures OverallOf(semAvgs, finalsAvg) == MeanOfPresent(semAvgs + [finalsAvg])
  {
    PresentAppend(semAvgs, [finalsAvg]);
    assert [finalsAvg][1..] == [];
    assert Present([finalsAvg]) == (if finalsAvg.Some? then [finalsAvg.value] else []);
  }

  /** Overall `None` exactly when no semester 1-6 has an average and there is no finals average. */
  lemma OverallAverageMeaning(db: Snapshot)
    ensures OverallAverage(db).None? <==>
      (forall s :: 1 <= s <= TotalSemesters ==> SemesterAverage(db, s).None?) && FinalsAverage(db).None?
  {
    assert forall s :: 1 <= s <= TotalSemesters ==> SemesterAverages(db)[s - 1] == SemesterAverage(db, s);
  }

  // ---------------------------------------------------------------------
  // Pass/fail rules shared by the semester and the overview
  // ---------------------------------------------------------------------

  /** Pairs each subject with its grade, dropping the subjects without one. */
  function ResultsOf(subjects: seq<string>, grades: seq<Option<real>>): (r: seq<SubjectResult>)
    requires |subjects| == |grades|
    ensures |r| <= |subjects|
    ensures |r| == 0 <==> forall i :: 0 <= i < |grades| ==> grades[i].None?
  {
    if |subjects| == 0 then []
    else if grades[0].Some? then [SubjectResult(subjects[0], grades[0].value)] + ResultsOf(subjects[1..], grades[1..])
    else ResultsOf(subjects[1..], grades[1..])
  }

  /** The grades of a result list. */
  function GradesOf(results: seq<SubjectResult>): (r: seq<real>)
    ensures |r| == |results|
    ensures forall i :: 0 <= i < |r| ==> r[i] == results[i].grade
  {
    seq(|results|, i requires 0 <= i < |results| => results[i].grade)
  }

  /** The results keep exactly the present grades, in order. */
  lemma {:induction false} ResultsKeepPresentGrades(subjects: seq<string>, grades: seq<Option<real>>)
    requires |subjects| == |grades|
    ensures GradesOf(ResultsOf(subjects, grades)) == Present(grades)
  {
    if |subjects| > 0 {
      ResultsKeepPresentGrades(subjects[1..], grades[1..]);
    }
  }

  predicate IsBelow4(r: SubjectResult)
  {
    r.grade < 4.0
  }

  function Below4(results: seq<SubjectResult>): seq<SubjectResult>
  {
    Filter(results, IsBelow4)
  }

  function Names(results: seq<SubjectResult>): (r: seq<string>)
    ensures |r| == |results|
    ensures forall i :: 0 <= i < |r| ==> r[i] == results[i].subject
  {
    seq(|results|, i requires 0 <= i < |results| => results[i].subject)
  }

  /** Σ (4 - grade) over the results below 4: the unrounded negative points. */
  function NegativePoints(results: seq<SubjectResult>): (r: real)
    ensures r >= 0.0
    ensures r == 0.0 <==> forall i :: 0 <= i < |results| ==> results[i].grade >= 4.0
  {
    if |results| == 0 then 0.0
    else (if results[0].grade < 4.0 then 4.0 - results[0].grade else 0.0) + NegativePoints(results[1..])
  }

  /**
   * Negative points are never negative, are 0 exactly when no subject is below 4, and each
   * failing subject with a grade of at least 1 adds at most 3.
   */
  lemma {:induction false} NegativePointsBounds(results: seq<SubjectResult>)
    ensures NegativePoints(results) >= 0.0
    ensures NegativePoints(results) == 0.0 <==> Below4(results) == []
    ensures (forall i :: 0 <= i < |results| ==> results[i].grade >= 1.0) ==>
      NegativePoints(results) <= 3.0 * |Below4(results)| as real
  {
    if |results| > 0 {
      NegativePointsBounds(results[1..]);
    }
  }

  /** With half-step grades the negative points are a half step, so rounding them to 0.1 changes nothing. */
  lemma {:induction false} NegativePointsOfHalfSteps(results: seq<SubjectResult>)
    requires forall i :: 0 <= i < |results| ==> IsHalfStep(results[i].grade)
    ensures IsHalfStep(NegativePoints(results))
    ensures RoundTenth(NegativePoints(results)) == NegativePoints(results)
  {
    if |results| == 0 {
      assert (2.0 * 0.0).Floor == 0;
    } else {
      NegativePointsOfHalfSteps(results[1..]);
      var g := results[0].grade;
      var head := if g < 4.0 then 4.0 - g else 0.0;
      assert (2.0 * 4.0).Floor == 8 && (2.0 * 0.0).Floor == 0;
      HalfStepSum(4.0, g);
      HalfStepSum(head, NegativePoints(results[1..]));
    }
    RoundTenthOfHalfStep(NegativePoints(results));
  }

  // ---------------------------------------------------------------------
  // Semester status
  // ---------------------------------------------------------------------

  /** The semester's catalog subjects that have an average, with it. */
  function SemesterResults(db: Snapshot, semester: int): (r: seq<SubjectResult>)
    ensures GradesOf(r) == Present(SubjectAverages(db, semester, SemesterCatalog(semester)))
    ensures forall i :: 0 <= i < |r| ==> IsHalfStep(r[i].grade)
  {
    ResultsKeepPresentGrades(SemesterCatalog(semester), SubjectAverages(db, semester, SemesterCatalog(semester)));
    ResultsOfHalfSteps(SemesterCatalog(semester), SubjectAverages(db, semester, SemesterCatalog(semester)));
    ResultsOf(SemesterCatalog(semester), SubjectAverages(db, semester, SemesterCatalog(semester)))
  }

  /** Every grade in a semester's results is a half step. */
  lemma {:induction false} ResultsOfHalfSteps(subjects: seq<string>, grades: seq<Option<real>>)
    requires |subjects| == |grades|
    requires forall i :: 0 <= i < |grades| && grades[i].Some? ==> IsHalfStep(grades[i].value)
    ensures forall i :: 0 <= i < |ResultsOf(subjects, grades)| ==> IsHalfStep(ResultsOf(subjects, grades)[i].grade)
  {
    if |subjects| > 0 {
      ResultsOfHalfSteps(subjects[1..], grades[1..]);
    }
  }

  /**
   * The three rules over a list of (half-step) grades: rule 1 the group average is present
   * and at least 4, rule 2 at most two grades below 4, rule 3 at most 2 negative points.
   * The negative points are reported rounded to 0.1, which loses nothing on half steps.
   */
  function CheckRules(results: seq<SubjectResult>, avg: Option<real>): (r: RuleCheck)
    requires forall i :: 0 <= i < |results| ==> IsHalfStep(results[i].grade)
    ensures r.rule1Pass <==> avg.Some? && avg.value >= 4.0
    ensures r.rule2Pass <==> |Below4(results)| <= 2
    ensures r.rule3Pass <==> NegativePoints(results) <= 2.0
    ensures r.passed <==> r.rule1Pass && r.rule2Pass && r.rule3Pass
    ensures r.subjectsBelow4 == Names(Below4(results))
    ensures r.subjectsBelow4Count == |r.subjectsBelow4|
    ensures r.negativePoints == NegativePoints(results)
  {
    var below4 := Below4(results);
    var negPts := NegativePoints(results);
    var r1 := avg.Some? && avg.value >= 4.0;
    var r2 := |below4| <= 2;
    var r3 := negPts <= 2.0;
    NegativePointsOfHalfSteps(results);
    RuleCheck(r1 && r2 && r3, Names(below4), |below4|, RoundTenth(negPts), r1, r2, r3)
  }

  /**
   * `getSemesterStatus`: `None` when no subject of the semester has an average; otherwise
   * the three rules over the semester's subject averages, rule 1 on the unrounded semester average.
   */
  function SemesterStatusOf(db: Snapshot, semester: int): (r: Option<SemesterStatus>)
    ensures r.None? <==> SemesterAverage(db, semester).None?
    ensures r.Some? ==> r.value.semAvg == SemesterAverage(db, semester)
  {
    var catalog := SemesterCatalog(semester);
    var avgs := SubjectAverages(db, semester, catalog);
    var results := ResultsOf(catalog, avgs);
    if |results| == 0 then None
    else
      ResultsOfHalfSteps(catalog, avgs);
      var semAvg := SemesterAverage(db, semester);
      Some(SemesterStatus(semAvg, CheckRules(results, semAvg)))
  }

  /**
   * A semester passes exactly when the mean of its subject averages is at least 4, at most
   * two of them are below 4, and their deficits below 4 add up to at most 2.
   */
  lemma SemesterPassMeaning(db: Snapshot, semester: int)
    requires SemesterStatusOf(db, semester).Some?
    ensures var st := SemesterStatusOf(db, semester).value;
      var results := SemesterResults(db, semester);
      && st.semAvg == Some(Mean(GradesOf(results)))
      && (st.rules.passed <==> Mean(GradesOf(results)) >= 4.0 && |Below4(results)| <= 2 && NegativePoints(results) <= 2.0)
  {
    var catalog := SemesterCatalog(semester);
    ResultsKeepPresentGrades(catalog, SubjectAverages(db, semester, catalog));
  }

  /**
   * Worked example: averages 4.0, 3.0, 3.0, 5.0, 4.5 give a mean of 3.9, two subjects below 4
   * and 2 negative points: rules 2 and 3 pass at their limits, rule 1 fails.
   */
  lemma WorkedSemesterRules(a: string, b: string, c: string, d: string, e: string)
    ensures var results := [SubjectResult(a, 4.0), SubjectResult(b, 3.0), SubjectResult(c, 3.0),
                            SubjectResult(d, 5.0), SubjectResult(e, 4.5)];
      && Mean(GradesOf(results)) == 3.9
      && |Below4(results)| == 2
      && NegativePoints(results) == 2.0
  {
    var results := [SubjectResult(a, 4.0), SubjectResult(b, 3.0), SubjectResult(c, 3.0),
                    SubjectResult(d, 5.0), SubjectResult(e, 4.5)];
    assert GradesOf(results) == [4.0, 3.0, 3.0, 5.0, 4.5];
    assert Sum([4.0, 3.0, 3.0, 5.0, 4.5]) == 19.5;
    var t1, t2, t3, t4 := results[1..], results[2..], results[3..], results[4..];
    assert t4[1..] == [];
    assert Below4(t4) == [] && NegativePoints(t4) == 0.0;
    assert t3[1..] == t4;
    assert Below4(t3) == [] && NegativePoints(t3) == 0.0;
    assert t2[1..] == t3;
    assert Below4(t2) == [SubjectResult(c, 3.0)] && NegativePoints(t2) == 1.0;
    assert t1[1..] == t2;
    assert Below4(t1) == [SubjectResult(b, 3.0), SubjectResult(c, 3.0)] && NegativePoints(t1) == 2.0;
    assert results[1..] == t1;
  }

  // ---------------------------------------------------------------------
  // Final grade per subject over the three years
  // ---------------------------------------------------------------------

  /** `SEMESTER_SUBJECTS[semester] ?? []` for a given table. */
  function CatalogIn(table: map<int, seq<string>>, semester: int): seq<string>
  {
    if semester in table then table[semester] else []
  }

  /** The semesters 1 to `n`, in increasing order, whose catalog in `table` lists the subject. */
  function SemestersUpTo(table: map<int, seq<string>>, subject: string, n: nat): (r: seq<int>)
    ensures forall i :: 0 <= i < |r| ==> 1 <= r[i] <= n
    ensures forall i, j :: 0 <= i < j < |r| ==> r[i] < r[j]
    ensures forall s :: s in r <==> 1 <= s <= n && subject in CatalogIn(table, s)
  {
    if n == 0 then []
    else SemestersUpTo(table, subject, n - 1) + (if subject in CatalogIn(table, n) then [n] else [])
  }

  /** The semesters 1 to 6, in increasing order, whose catalog lists the subject. */
  function SemestersForSubject(subject: string): (r: seq<int>)
    ensures forall i, j :: 0 <= i < j < |r| ==> r[i] < r[j]
    ensures forall s :: s in r <==> 1 <= s <= TotalSemesters && subject in SemesterCatalog(s)
  {
    SemestersUpTo(SemesterSubjects, subject, TotalSemesters)
  }

  /** `getSemestersForSubject`: the for-loop that pushes each semester listing the subject. */
  method ListSemestersForSubject(subject: string) returns (result: seq<int>)
    ensures result == SemestersForSubject(subject)
    ensures forall i, j :: 0 <= i < j < |result| ==> result[i] < result[j]
    ensures forall s :: s in result <==> 1 <= s <= TotalSemesters && subject in SemesterCatalog(s)
  {
    result := [];
    var s := 1;
    while s <= TotalSemesters
      invariant 1 <= s <= TotalSemesters + 1
      invariant result == SemestersUpTo(SemesterSubjects, subject, s - 1)
    {
      if subject in SemesterCatalog(s) {
        result := result + [s];
      }
      s := s + 1;
    }
  }

  /**
   * `getIdpaGrade`: the semester-6 IDPA subject average, missing exactly when no KSH IDPA
   * grade of semester 6 has a positive weight.
   */
  function IdpaGrade(db: Snapshot): (r: Option<real>)
    ensures r.None? <==> forall i :: 0 <= i < |GradesForSubject(db, 6, "IDPA")| ==>
      !Counts(GradesForSubject(db, 6, "IDPA")[i])
    ensures r.Some? ==> IsHalfStep(r.value) && 1.0 <= r.value <= 6.0
  {
    SubjectAverage(db, IdpaFinalForIdaf.finalSemester, IdpaFinalForIdaf.finalSubject)
  }

  /** The subject's averages in the semesters that teach it. */
  function SubjectAveragesAcross(db: Snapshot, subject: string): (r: seq<Option<real>>)
    ensures |r| == |SemestersForSubject(subject)|
    ensures forall i :: 0 <= i < |r| && r[i].Some? ==> IsHalfStep(r[i].value) && 1.0 <= r[i].value <= 6.0
  {
    var sems := SemestersForSubject(subject);
    seq(|sems|, i requires 0 <= i < |sems| => SubjectAverage(db, sems[i], subject))
  }

  /** The semester part of a final grade: the subject's semester averages, averaged and rounded to 0.5. */
  function SemesterPart(db: Snapshot, subject: string): (r: Option<real>)
    ensures r.Some? ==> IsHalfStep(r.value) && 1.0 <= r.value <= 6.0
  {
    var across := SubjectAveragesAcross(db, subject);
    MeanOfPresentInRange(across);
    RoundedMeanOfPresent(across)
  }

  /** The finals part of a final grade: IDPA's semester-6 average for IDAF, the finals exam grade otherwise. */
  function FinalsPart(db: Snapshot, subject: string): (r: Option<real>)
    ensures r.Some? ==> IsHalfStep(r.value)
    ensures ValidSnapshot(db) && r.Some? ==> 1.0 <= r.value <= 6.0
  {
    if subject == IdpaFinalForIdaf.subject then IdpaGrade(db) else FinalsExamGrade(db, subject)
  }

  /** IDAF takes IDPA's semester-6 average as its finals part; every other subject its finals exam grade. */
  lemma FinalsPartOfIdaf(db: Snapshot, subject: string)
    ensures FinalsPart(db, "IDAF") == SubjectAverage(db, 6, "IDPA")
    ensures subject != "IDAF" ==> FinalsPart(db, subject) == FinalsExamGrade(db, subject)
  {
  }

  function Min(a: real, b: real): real { if a <= b then a else b }
  function Max(a: real, b: real): real { if a <= b then b else a }

  /**
   * How the two parts merge into the final grade: both present gives their mean rounded to
   * 0.5, which lies between them; one present gives that part unchanged; none gives none.
   */
  function Merge(semesterAvg: Option<real>, finalsGrade: Option<real>): (r: FinalSubjectGrade)
    requires semesterAvg.Some? ==> IsHalfStep(semesterAvg.value)
    requires finalsGrade.Some? ==> IsHalfStep(finalsGrade.value)
    ensures r.semesterAvg == semesterAvg && r.finalsGrade == finalsGrade
    ensures r.finalGrade.None? <==> semesterAvg.None? && finalsGrade.None?
    ensures semesterAvg.Some? && finalsGrade.Some? ==>
      && r.finalGrade.Some?
      && Min(semesterAvg.value, finalsGrade.value) <= r.finalGrade.value <= Max(semesterAvg.value, finalsGrade.value)
      && (semesterAvg.value + finalsGrade.value) / 2.0 - 0.25 < r.finalGrade.value
      && r.finalGrade.value <= (semesterAvg.value + finalsGrade.value) / 2.0 + 0.25
    ensures semesterAvg.Some? && finalsGrade.None? ==> r.finalGrade == semesterAvg
    ensures semesterAvg.None? && finalsGrade.Some? ==> r.finalGrade == finalsGrade
    ensures r.finalGrade.Some? ==> IsHalfStep(r.finalGrade.value)
  {
    if semesterAvg.None? && finalsGrade.None? then
      FinalSubjectGrade(None, None, None)
    else if semesterAvg.Some? && finalsGrade.Some? then
      var a, b := semesterAvg.value, finalsGrade.value;
      RoundHalfBetween((a + b) / 2.0, Min(a, b), Max(a, b));
      FinalSubjectGrade(semesterAvg, finalsGrade, Some(RoundHalf((a + b) / 2.0)))
    else
      FinalSubjectGrade(semesterAvg, finalsGrade, if semesterAvg.Some? then semesterAvg else finalsGrade)
  }

  /**
   * `getFinalSubjectGrade`: the semester part and the finals part merged; the final grade is
   * a multiple of 0.5, and in [1, 6] when the stored grades are.
   */
  function FinalSubjectGradeOf(db: Snapshot, subject: string): (r: FinalSubjectGrade)
    ensures r.finalGrade.None? <==> r.semesterAvg.None? && r.finalsGrade.None?
    ensures r.finalGrade.Some? ==> IsHalfStep(r.finalGrade.value)
    ensures ValidSnapshot(db) && r.finalGrade.Some? ==> 1.0 <= r.finalGrade.value <= 6.0
  {
    Merge(SemesterPart(db, subject), FinalsPart(db, subject))
  }

  /** Worked example: a semester part of 4.5 and a finals part of 5.0 average to 4.75 and round up to 5.0. */
  lemma WorkedMerge()
    ensures Merge(Some(4.5), Some(5.0)).finalGrade == Some(5.0)
    ensures Merge(Some(5.0), None).finalGrade == Some(5.0)
  {
    assert (2.0 * 4.75 + 0.5).Floor == 10;
  }

  // ---------------------------------------------------------------------
  // Overview status
  // ---------------------------------------------------------------------

  /** The final grades of a list of subjects. */
  function FinalGrades(db: Snapshot, subjects: seq<string>): (r: seq<Option<real>>)
    ensures |r| == |subjects|
    ensures forall i :: 0 <= i < |r| ==> r[i] == FinalSubjectGradeOf(db, subjects[i]).finalGrade
  {
    seq(|subjects|, i requires 0 <= i < |subjects| => FinalSubjectGradeOf(db, subjects[i]).finalGrade)
  }

  /** The overview average: the mean of the final grades rounded to 0.5; it reaches 4 exactly from a mean of 3.75. */
  function OverviewAverage(results: seq<SubjectResult>): (r: real)
    requires |results| > 0
    ensures IsHalfStep(r)
    ensures r >= 4.0 <==> Mean(GradesOf(results)) >= 3.75
  {
    var m := Mean(GradesOf(results));
    RoundedAtLeastFour(m);
    RoundHalf(m)
  }

  /**
   * `getOverviewStatus` over the subject list it reads: `None` when no subject has a final
   * grade; otherwise the three rules over the final grades, rule 1 on their mean rounded to
   * 0.5, which makes its threshold 3.75.
   */
  function OverviewStatusFor(db: Snapshot, subjects: seq<string>): (r: Option<OverviewStatus>)
    ensures r.None? <==> forall i :: 0 <= i < |subjects| ==> FinalSubjectGradeOf(db, subjects[i]).finalGrade.None?
    ensures r.Some? ==> |r.value.subjectResults| > 0 && IsHalfStep(r.value.avg)
    ensures r.Some? ==> (r.value.rules.rule1Pass <==> Mean(GradesOf(r.value.subjectResults)) >= 3.75)
  {
    var grades := FinalGrades(db, subjects);
    var results := ResultsOf(subjects, grades);
    if |results| == 0 then None
    else
      ResultsOfHalfSteps(subjects, grades);
      var avg := OverviewAverage(results);
      Some(OverviewStatus(avg, results, CheckRules(results, Some(avg))))
  }

  /** `getOverviewStatus`: the status over `OVERVIEW_SUBJECTS`. */
  function OverviewStatusOf(db: Snapshot): (r: Option<OverviewStatus>)
    ensures r.None? <==> forall i :: 0 <= i < |OverviewSubjects| ==>
      FinalSubjectGradeOf(db, OverviewSubjects[i]).finalGrade.None?
    ensures r.Some? ==> |r.value.subjectResults| > 0 && IsHalfStep(r.value.avg)
  {
    OverviewStatusFor(db, OverviewSubjects)
  }

  /** Rounding before comparing with 4 makes the threshold 3.75. */
  lemma RoundedAtLeastFour(m: real)
    ensures RoundHalf(m) >= 4.0 <==> m >= 3.75
  {
    if m >= 3.75 {
      assert (2.0 * m + 0.5).Floor >= 8;
    } else {
      assert (2.0 * m + 0.5).Floor <= 7;
    }
  }

  /** The overview passes exactly when all three rules hold over the final grades. */
  lemma OverviewPassMeaning(db: Snapshot, subjects: seq<string>)
    requires OverviewStatusFor(db, subjects).Some?
    ensures var st := OverviewStatusFor(db, subjects).value;
      var results := st.subjectResults;
      && |results| > 0
      && GradesOf(results) == Present(FinalGrades(db, subjects))
      && (st.rules.passed <==> RoundHalf(Mean(GradesOf(results))) >= 4.0 && |Below4(results)| <= 2 && NegativePoints(results) <= 2.0)
  {
    ResultsKeepPresentGrades(subjects, FinalGrades(db, subjects));
  }
}
