/**
 * The BZZ grade engine: the dashboard getters for the vocational programme
 * (src/app/dashboard/DashboardContext.tsx). Every BZZ grade lives in semester 1;
 * modules are grouped into a normal tier and an ÜK tier, plus the IPA.
 */
module Bzz {
  import opened Options
  import opened Records
  import opened Seqs
  import opened Averages
  import opened Catalog

  /**
   * The pass/fail summary. `ipaPass` is `None` when there is no IPA grade; the tri-state
   * average check of the source appears as `avgPass`.
   */
  datatype PassFail = PassFail(
    passed: bool,
    normalAvg: Option<real>,
    ukAvg: Option<real>,
    finalAvg: Option<real>,
    ipaGrade: Option<real>,
    ipaPass: Option<bool>)

  /** `getBzzModuleGrades`: the BZZ grades stored for the module in the BZZ semester. */
  function ModuleGrades(db: Snapshot, module_: string): (r: seq<Grade>)
    ensures |r| <= |db.grades|
    ensures forall i :: 0 <= i < |r| ==>
      r[i].school == Some(BZZ) && r[i].semester == BzzSemester && r[i].subject == module_
  {
    var r := Filter(BzzGrades(db), GradeKey(BzzSemester, module_));
    assert forall i :: 0 <= i < |r| ==> r[i] in BzzGrades(db) by {
      forall i | 0 <= i < |r| ensures r[i] in BzzGrades(db) {
        FilterMembership(BzzGrades(db), GradeKey(BzzSemester, module_), r[i]);
      }
    }
    r
  }

  /** A grade is a module grade exactly when it is a BZZ grade of semester 1 and that module. */
  lemma ModuleGradesMeaning(db: Snapshot, module_: string, g: Grade)
    ensures g in ModuleGrades(db, module_) <==>
      g in db.grades && g.school == Some(BZZ) && g.semester == 1 && g.subject == module_
  {
    FilterMembership(db.grades, IsBzzGrade, g);
    FilterMembership(BzzGrades(db), GradeKey(BzzSemester, module_), g);
  }

  /** Grades of the other programme are invisible to both engines' subject selections. */
  lemma SchoolsDoNotMix(db: Snapshot, g: Grade, semester: int, subject: string)
    ensures IsKshGrade(g) ==>
      Filter(BzzGrades(Snapshot(db.grades + [g], db.adjustments)), GradeKey(semester, subject))
        == Filter(BzzGrades(db), GradeKey(semester, subject))
    ensures IsBzzGrade(g) ==>
      Filter(KshGrades(Snapshot(db.grades + [g], db.adjustments)), GradeKey(semester, subject))
        == Filter(KshGrades(db), GradeKey(semester, subject))
  {
    FilterAppend(db.grades, [g], IsBzzGrade);
    FilterAppend(db.grades, [g], IsKshGrade);
    assert [g][1..] == [];
    if IsKshGrade(g) {
      assert Filter([g], IsBzzGrade) == [];
      assert BzzGrades(db) + [] == BzzGrades(db);
    } else {
      assert Filter([g], IsKshGrade) == [];
      assert KshGrades(db) + [] == KshGrades(db);
    }
  }

  /** `getBzzModuleAdjustment`: the first BZZ adjustment stored for the module, or 0. */
  function ModuleAdjustment(db: Snapshot, module_: string): (r: real)
    ensures r != 0.0 ==>
      exists j :: 0 <= j < |BzzAdjustments(db)| && BzzAdjustments(db)[j].value == r
        && BzzAdjustments(db)[j].semester == BzzSemester && BzzAdjustments(db)[j].subject == module_
    ensures forall j ::
              0 <= j < |BzzAdjustments(db)| && AdjustmentKey(BzzSemester, module_)(BzzAdjustments(db)[j])
              && (forall i :: 0 <= i < j ==> !AdjustmentKey(BzzSemester, module_)(BzzAdjustments(db)[i]))
              ==> r == BzzAdjustments(db)[j].value
  {
    match Find(BzzAdjustments(db), AdjustmentKey(BzzSemester, module_))
    case None => 0.0
    case Some(a) => a.value
  }

  /** Without a BZZ adjustment for the module the lookup yields 0. */
  lemma MissingModuleAdjustmentIsZero(db: Snapshot, module_: string)
    requires forall i :: 0 <= i < |db.adjustments| ==>
      !(IsBzzAdjustment(db.adjustments[i]) && db.adjustments[i].semester == BzzSemester
        && db.adjustments[i].subject == module_)
    ensures ModuleAdjustment(db, module_) == 0.0
  {
    var kept := BzzAdjustments(db);
    forall j | 0 <= j < |kept| ensures !AdjustmentKey(BzzSemester, module_)(kept[j]) {
      FilterMembership(db.adjustments, IsBzzAdjustment, kept[j]);
    }
  }

  /**
   * `getBzzModuleRawAverage`: the weighted mean of the module's counting grades plus its
   * adjustment, clamped to [1, 6]; `None` when no grade counts.
   */
  function ModuleRawAverage(db: Snapshot, module_: string): (r: Option<real>)
    ensures r.None? <==> forall i :: 0 <= i < |ModuleGrades(db, module_)| ==> !Counts(ModuleGrades(db, module_)[i])
    ensures r.Some? ==> 1.0 <= r.value <= 6.0
  {
    RawAverage(ModuleGrades(db, module_), ModuleAdjustment(db, module_))
  }

  /** `getBzzModuleAverage`: the raw module average rounded to the nearest 0.5. */
  function ModuleAverage(db: Snapshot, module_: string): (r: Option<real>)
    ensures r.None? <==> ModuleRawAverage(db, module_).None?
    ensures r.Some? ==> IsHalfStep(r.value) && 1.0 <= r.value <= 6.0
    ensures r.Some? ==> ModuleRawAverage(db, module_).value - 0.25 < r.value
                        <= ModuleRawAverage(db, module_).value + 0.25
  {
    RoundedAverage(ModuleRawAverage(db, module_))
  }

  /** The module averages of a tier, in list order. */
  function ModuleAverages(db: Snapshot, modules: seq<string>): (r: seq<Option<real>>)
    ensures |r| == |modules|
    ensures forall i :: 0 <= i < |r| ==> r[i] == ModuleAverage(db, modules[i])
  {
    seq(|modules|, i requires 0 <= i < |modules| => ModuleAverage(db, modules[i]))
  }

  /**
   * A tier average (`getBzzNormalAverage`, `getBzzUkAverage`): the mean of the tier's
   * present module averages rounded to 0.5; `None` when no module of the tier has one.
   */
  function TierAverage(db: Snapshot, modules: seq<string>): (r: Option<real>)
    ensures r.None? <==> forall i :: 0 <= i < |modules| ==> ModuleAverage(db, modules[i]).None?
    ensures r.Some? ==> IsHalfStep(r.value) && 1.0 <= r.value <= 6.0
  {
    var avgs := ModuleAverages(db, modules);
    MeanOfPresentInRange(avgs);
    RoundedMeanOfPresent(avgs)
  }

  /** `getBzzNormalAverage`. */
  function NormalAverage(db: Snapshot): (r: Option<real>)
    ensures r.None? <==> forall i :: 0 <= i < |BzzNormalModules| ==> ModuleAverage(db, BzzNormalModules[i]).None?
    ensures r.Some? ==> IsHalfStep(r.value) && 1.0 <= r.value <= 6.0
  {
    TierAverage(db, BzzNormalModules)
  }

  /** `getBzzUkAverage`. */
  function UkAverage(db: Snapshot): (r: Option<real>)
    ensures r.None? <==> forall i :: 0 <= i < |BzzUkModules| ==> ModuleAverage(db, BzzUkModules[i]).None?
    ensures r.Some? ==> IsHalfStep(r.value) && 1.0 <= r.value <= 6.0
  {
    TierAverage(db, BzzUkModules)
  }

  function Min(a: real, b: real): real { if a <= b then a else b }
  function Max(a: real, b: real): real { if a <= b then b else a }

  /**
   * `getBzzFinalAverage` from the two tier averages: their unrounded mean when both are
   * present, the one that is present otherwise, `None` when neither is.
   */
  function CombineTiers(normalAvg: Option<real>, ukAvg: Option<real>): (r: Option<real>)
    ensures r.None? <==> normalAvg.None? && ukAvg.None?
    ensures normalAvg.Some? && ukAvg.Some? ==>
      r.Some? && r.value + r.value == normalAvg.value + ukAvg.value
      && Min(normalAvg.value, ukAvg.value) <= r.value <= Max(normalAvg.value, ukAvg.value)
    ensures normalAvg.Some? && ukAvg.None? ==> r == normalAvg
    ensures normalAvg.None? && ukAvg.Some? ==> r == ukAvg
  {
    if normalAvg.None? && ukAvg.None? then None
    else if normalAvg.Some? && ukAvg.Some? then Some((normalAvg.value + ukAvg.value) / 2.0)
    else if normalAvg.Some? then normalAvg
    else ukAvg
  }

  /** `getBzzFinalAverage`. */
  function FinalAverage(db: Snapshot): (r: Option<real>)
    ensures r.None? <==> NormalAverage(db).None? && UkAverage(db).None?
    ensures r.Some? ==> 1.0 <= r.value <= 6.0
  {
    CombineTiers(NormalAverage(db), UkAverage(db))
  }

  /**
   * The final average is not rounded again: two half-step tier averages can give a
   * quarter step, as 4.5 and 5.0 give 4.75.
   */
  lemma FinalAverageKeepsQuarterSteps()
    ensures CombineTiers(Some(4.5), Some(5.0)) == Some(4.75)
    ensures !IsHalfStep(4.75)
  {
    assert (2.0 * 4.75).Floor == 9;
  }

  /** `getBzzIpaAverage`: the IPA's clamped raw average, not rounded. */
  function IpaAverage(db: Snapshot): (r: Option<real>)
    ensures r.None? <==> forall i :: 0 <= i < |ModuleGrades(db, BzzIpa)| ==> !Counts(ModuleGrades(db, BzzIpa)[i])
    ensures r.Some? ==> 1.0 <= r.value <= 6.0
  {
    ModuleRawAverage(db, BzzIpa)
  }

  /**
   * A single IPA grade of 4.25 is reported as 4.25 by `getBzzIpaAverage`, while the module
   * average of the same grades is rounded to 4.5.
   */
  lemma IpaNotRounded()
    ensures var db := Snapshot([Grade("g", 4.25, 1.0, "", "", BzzSemester, BzzIpa, Some(BZZ))], []);
      IpaAverage(db) == Some(4.25) && ModuleAverage(db, BzzIpa) == Some(4.5)
  {
    var g := Grade("g", 4.25, 1.0, "", "", BzzSemester, BzzIpa, Some(BZZ));
    var db := Snapshot([g], []);
    assert BzzGrades(db) == [g];
    assert ModuleGrades(db, BzzIpa) == [g];
    assert Filter([g], Counts) == [g];
    assert BzzAdjustments(db) == [];
    assert ModuleAdjustment(db, BzzIpa) == 0.0;
    assert WeightedSum([g]) == 4.25 && TotalWeight([g]) == 1.0;
    assert ModuleRawAverage(db, BzzIpa) == Some(4.25);
    assert RoundHalf(4.25) == 4.5 by {
      assert (2.0 * 4.25 + 0.5).Floor == 9;
    }
  }

  /**
   * `getBzzPassFail` from its four inputs. The average check is `None` without a final
   * average; the programme is passed exactly when the final average is at least 4 and the
   * IPA is either missing or at least 4.
   */
  function Verdict(normalAvg: Option<real>, ukAvg: Option<real>, ipaGrade: Option<real>): (r: PassFail)
    ensures r.finalAvg == CombineTiers(normalAvg, ukAvg)
    ensures r.normalAvg == normalAvg && r.ukAvg == ukAvg && r.ipaGrade == ipaGrade
    ensures r.ipaPass.None? <==> ipaGrade.None?
    ensures r.ipaPass.Some? ==> (r.ipaPass.value <==> ipaGrade.value >= 4.0)
    ensures r.passed <==> r.finalAvg.Some? && r.finalAvg.value >= 4.0 && (ipaGrade.None? || ipaGrade.value >= 4.0)
    ensures normalAvg.None? && ukAvg.None? ==> !r.passed
  {
    var finalAvg := CombineTiers(normalAvg, ukAvg);
    var ipaPass := if ipaGrade.Some? then Some(ipaGrade.value >= 4.0) else None;
    var avgPass := if finalAvg.Some? then Some(finalAvg.value >= 4.0) else None;
    var passed := avgPass == Some(true) && (ipaPass == Some(true) || ipaPass.None?);
    PassFail(passed, normalAvg, ukAvg, finalAvg, ipaGrade, ipaPass)
  }

  /** `getBzzPassFail`. */
  function PassFailOf(db: Snapshot): (r: PassFail)
    ensures r.finalAvg == FinalAverage(db) && r.ipaGrade == IpaAverage(db)
    ensures r.passed <==>
      FinalAverage(db).Some? && FinalAverage(db).value >= 4.0 && (IpaAverage(db).None? || IpaAverage(db).value >= 4.0)
  {
    Verdict(NormalAverage(db), UkAverage(db), IpaAverage(db))
  }

  /**
   * Worked example: tiers 4.5 and 5.0 pass with a final average of 4.75 without an IPA,
   * and fail once an IPA of 3.5 is recorded.
   */
  lemma WorkedBzzVerdict()
    ensures Verdict(Some(4.5), Some(5.0), None).passed
    ensures Verdict(Some(4.5), Some(5.0), None).finalAvg == Some(4.75)
    ensures !Verdict(Some(4.5), Some(5.0), Some(3.5)).passed
    ensures Verdict(Some(4.5), Some(5.0), Some(3.5)).ipaPass == Some(false)
  {
  }
}
