/**
 * The stored records the grade engine consumes (src/app/dashboard/types.ts):
 * one `Grade` per scored assessment, and at most one bonus/malus `Adjustment`
 * per (school, semester, subject).
 */
module Records {
  import opened Options
  import opened Seqs

  /** The two school programmes; a record whose school is unset belongs to KSH. */
  datatype School = KSH | BZZ

  datatype Grade = Grade(
    id: string,
    value: real,
    weight: real,
    description: string,
    date: string,
    semester: int,
    subject: string,
    school: Option<School>)

  datatype Adjustment = Adjustment(
    id: string,
    value: real,
    semester: int,
    subject: string,
    school: Option<School>)

  /** The grade range the API enforces before a grade is stored. */
  predicate ValidValue(g: Grade)
  {
    1.0 <= g.value <= 6.0
  }

  predicate AllValid(gs: seq<Grade>)
  {
    forall i :: 0 <= i < |gs| ==> ValidValue(gs[i])
  }

  /** `!g.school || g.school === "KSH"`. */
  predicate IsKshGrade(g: Grade)
  {
    g.school.None? || g.school.value == KSH
  }

  predicate IsKshAdjustment(a: Adjustment)
  {
    a.school.None? || a.school.value == KSH
  }

  /** `g.school === "BZZ"`. */
  predicate IsBzzGrade(g: Grade)
  {
    g.school == Some(BZZ)
  }

  predicate IsBzzAdjustment(a: Adjustment)
  {
    a.school == Some(BZZ)
  }

  /** Every grade belongs to exactly one of the two programmes. */
  lemma GradeInExactlyOneSchool(g: Grade)
    ensures IsKshGrade(g) != IsBzzGrade(g)
  {
  }

  /** The grade and adjustment lists the dashboard holds for the signed-in user. */
  datatype Snapshot = Snapshot(grades: seq<Grade>, adjustments: seq<Adjustment>)

  /** The grades of the KSH programme, in stored order. */
  function KshGrades(db: Snapshot): (r: seq<Grade>)
    ensures |r| <= |db.grades|
    ensures forall i :: 0 <= i < |r| ==> r[i].school != Some(BZZ)
  {
    Filter(db.grades, IsKshGrade)
  }

  function KshAdjustments(db: Snapshot): seq<Adjustment>
  {
    Filter(db.adjustments, IsKshAdjustment)
  }

  /** The grades of the BZZ programme, in stored order. */
  function BzzGrades(db: Snapshot): (r: seq<Grade>)
    ensures |r| <= |db.grades|
    ensures forall i :: 0 <= i < |r| ==> r[i].school == Some(BZZ)
  {
    Filter(db.grades, IsBzzGrade)
  }

  function BzzAdjustments(db: Snapshot): seq<Adjustment>
  {
    Filter(db.adjustments, IsBzzAdjustment)
  }

  /**
   * The two school filters split the stored grades: each grade lands in exactly one of them,
   * so together they hold as many grades as were stored.
   */
  lemma {:induction false} SchoolFiltersSplitGrades(gs: seq<Grade>)
    ensures |Filter(gs, IsKshGrade)| + |Filter(gs, IsBzzGrade)| == |gs|
    ensures forall g :: g in gs ==> (g in Filter(gs, IsKshGrade) <==> g !in Filter(gs, IsBzzGrade))
  {
    if |gs| > 0 {
      SchoolFiltersSplitGrades(gs[1..]);
    }
    forall g | g in gs
      ensures g in Filter(gs, IsKshGrade) <==> g !in Filter(gs, IsBzzGrade)
    {
      FilterMembership(gs, IsKshGrade, g);
      FilterMembership(gs, IsBzzGrade, g);
    }
  }

  /** Selects the records stored under one (semester, subject) key. */
  function GradeKey(semester: int, subject: string): Grade -> bool
  {
    (g: Grade) => g.semester == semester && g.subject == subject
  }

  function AdjustmentKey(semester: int, subject: string): Adjustment -> bool
  {
    (a: Adjustment) => a.semester == semester && a.subject == subject
  }
}
