/**
 * The fixed subject and module tables of the two school programmes and the
 * membership checks the API uses to accept a (semester, subject) pair
 * (src/lib/semesters.ts).
 *
 * KSH is the regular upper-secondary curriculum: semesters 1 to 6, the
 * finals stored under the pseudo-semester 7, and an overview tab 0.
 * BZZ is the vocational programme: one flat "semester" 1 holding modules.
 */
module Catalog {

  const Subjects: seq<string> :=
    ["German", "French", "English", "Math", "WR", "FrW", "History", "Science", "IDAF", "IDPA"]

  /** `SEMESTER_SUBJECTS`: which subjects are taught in semesters 1 to 6. */
  const SemesterSubjects: map<int, seq<string>> := map[
    1 := ["German", "French", "English", "Math", "WR", "FrW", "History"],
    2 := ["German", "French", "English", "Math", "WR", "FrW", "History"],
    3 := ["German", "French", "English", "Math", "WR", "FrW", "History", "Science", "IDAF"],
    4 := ["German", "French", "English", "Math", "WR", "FrW", "History", "Science", "IDAF"],
    5 := ["German", "French", "English", "Math", "WR", "FrW", "Science"],
    6 := ["German", "French", "English", "Math", "WR", "FrW", "Science", "IDPA"]
  ]

  const TotalSemesters: int := 6
  /** Finals grades are stored under this semester number. */
  const FinalsSemester: int := 7
  /** The overview tab's semester number; no grade is ever stored under it. */
  const OverviewTab: int := 0

  /** `FINALS_ENTRIES`: the exam parts (oral, written) of each subject that has finals. */
  const FinalsEntries: map<string, seq<string>> := map[
    "German" := ["German (Oral)", "German (Written)"],
    "French" := ["French (Oral)", "French (Written)"],
    "English" := ["English (Oral)", "English (Written)"],
    "Math" := ["Math (Written)"],
    "WR" := ["WR (Written)"],
    "FrW" := ["FrW (Written)"]
  ]

  const AllSubjects: seq<string> := Subjects

  /** One subject borrowing another subject's semester average as its "final". */
  datatype FinalSubstitute = FinalSubstitute(subject: string, finalSubject: string, finalSemester: int)

  /** IDPA (semester 6) acts as the final of IDAF. */
  const IdpaFinalForIdaf: FinalSubstitute := FinalSubstitute("IDAF", "IDPA", 6)

  /** `xs.filter((s) => s !== x)`. */
  function Without(xs: seq<string>, x: string): seq<string>
  {
    if |xs| == 0 then []
    else if xs[0] != x then [xs[0]] + Without(xs[1..], x)
    else Without(xs[1..], x)
  }

  /** `OVERVIEW_SUBJECTS`: the subjects of the 3-year overview (IDPA is consumed by IDAF). */
  const OverviewSubjects: seq<string> := Without(Subjects, "IDPA")

  const FinalsSubjects: seq<string> := ["German", "French", "English", "Math", "WR", "FrW"]

  /** Subjects whose final is split into an oral and a written part. */
  const FinalsOralWritten: seq<string> := ["German", "French", "English"]

  /** The subject keys under which finals grades are stored. */
  const FinalsSubjectKeys: seq<string> := [
    "German (Oral)", "German (Written)",
    "French (Oral)", "French (Written)",
    "English (Oral)", "English (Written)",
    "Math (Written)", "WR (Written)", "FrW (Written)"
  ]

  /** BZZ keeps all its grades under this single semester number. */
  const BzzSemester: int := 1

  const BzzNormalModules: seq<string> := [
    "431", "117", "319", "162", "114", "164", "293", "231",
    "320", "165", "322", "122", "254", "346", "426", "347",
    "323", "450", "306", "183", "324", "321", "241", "245"
  ]

  const BzzUkModules: seq<string> := ["187", "106", "294", "295", "210", "335", "223"]

  const BzzIpa: string := "IPA"

  const BzzAllModules: seq<string> := BzzNormalModules + BzzUkModules + [BzzIpa]

  predicate IsBzzModule(subject: string)
    ensures IsBzzModule(subject) <==> subject in BzzNormalModules || subject in BzzUkModules || subject == BzzIpa
  {
    subject in BzzAllModules
  }

  /** `SEMESTER_SUBJECTS[semester] ?? []`, the form the dashboard uses. */
  function SemesterCatalog(semester: int): (r: seq<string>)
    ensures semester !in SemesterSubjects ==> r == []
  {
    if semester in SemesterSubjects then SemesterSubjects[semester] else []
  }

  /** `getSubjectsForSemester`: the finals keys for semester 7, the semester's catalog otherwise. */
  function SubjectsForSemester(semester: int): (r: seq<string>)
    ensures semester == FinalsSemester ==> r == FinalsSubjectKeys
    ensures semester != FinalsSemester ==> r == SemesterCatalog(semester)
  {
    if semester == FinalsSemester then FinalsSubjectKeys
    else SemesterCatalog(semester)
  }

  predicate IsValidSubjectForSemester(semester: int, subject: string)
    ensures IsValidSubjectForSemester(semester, subject) ==> 1 <= semester <= FinalsSemester
  {
    subject in SubjectsForSemester(semester)
  }

  predicate IsValidBzzSubject(subject: string)
    ensures IsValidBzzSubject(subject) <==> IsBzzModule(subject)
  {
    subject in BzzAllModules
  }

  // ---------------------------------------------------------------------
  // Properties of the tables
  // ---------------------------------------------------------------------

  /** Semester 7 offers exactly the nine finals keys. */
  lemma FinalsSemesterOffersFinalsKeys()
    ensures SubjectsForSemester(7) == FinalsSubjectKeys
    ensures |SubjectsForSemester(7)| == 9
  {
  }

  /** A semester number outside 1..7 (the overview tab 0, or 8) accepts no subject at all. */
  lemma UnknownSemesterAcceptsNothing(semester: int, subject: string)
    requires semester < 1 || semester > 7
    ensures SubjectsForSemester(semester) == []
    ensures !IsValidSubjectForSemester(semester, subject)
  {
  }

  /** Which (semester, subject) pairs the API accepts. */
  lemma ValidSubjectForSemesterMeaning(semester: int, subject: string)
    ensures IsValidSubjectForSemester(semester, subject) <==>
      (1 <= semester <= TotalSemesters && subject in SemesterSubjects[semester])
      || (semester == FinalsSemester && subject in FinalsSubjectKeys)
  {
  }

  /** The two BZZ membership checks agree and mean "normal module, ÜK module or IPA". */
  lemma BzzChecksAgree(subject: string)
    ensures IsBzzModule(subject) == IsValidBzzSubject(subject)
    ensures IsBzzModule(subject) <==> subject in BzzNormalModules || subject in BzzUkModules || subject == "IPA"
  {
  }

  /**
   * `OVERVIEW_SUBJECTS` is `SUBJECTS` without IDPA, in the same order: IDPA is the last of
   * the ten subjects, so the overview lists the first nine.
   */
  lemma OverviewSubjectsAreSubjectsWithoutIdpa()
    ensures OverviewSubjects == Subjects[..9]
    ensures |OverviewSubjects| == 9
    ensures "IDPA" !in OverviewSubjects
  {
    assert Subjects == Subjects[..9] + ["IDPA"];
    WithoutTrailing(Subjects[..9], "IDPA");
  }

  /** Removing an element that occurs only at the end drops exactly that last element. */
  lemma {:induction false} WithoutTrailing(xs: seq<string>, x: string)
    requires x !in xs
    ensures Without(xs + [x], x) == xs
  {
    if |xs| > 0 {
      assert (xs + [x])[1..] == xs[1..] + [x];
      WithoutTrailing(xs[1..], x);
    } else {
      assert [x][1..] == [];
    }
  }

  /** Removing `x` keeps every other element, in order, and nothing else. */
  lemma {:induction false} WithoutMeaning(xs: seq<string>, x: string)
    ensures x !in Without(xs, x)
    ensures forall y :: y in Without(xs, x) <==> y in xs && y != x
    ensures |Without(xs, x)| <= |xs|
  {
    if |xs| > 0 {
      WithoutMeaning(xs[1..], x);
      assert xs == [xs[0]] + xs[1..];
    }
  }

  /** The concatenation of the entries of each finals subject, in catalog order. */
  function EntriesOf(subjects: seq<string>): (r: seq<string>)
    requires forall i :: 0 <= i < |subjects| ==> subjects[i] in FinalsEntries
  {
    if |subjects| == 0 then [] else FinalsEntries[subjects[0]] + EntriesOf(subjects[1..])
  }

  /**
   * The keys of `FINALS_ENTRIES` are exactly the finals subjects, and their entries,
   * taken in catalog order, are exactly the storage keys: each key belongs to one subject.
   */
  lemma FinalsEntriesPartitionKeys()
    ensures FinalsEntries.Keys == set s | s in FinalsSubjects
    ensures EntriesOf(FinalsSubjects) == FinalsSubjectKeys
    ensures forall s :: s in FinalsEntries ==> forall e :: e in FinalsEntries[s] ==> e in FinalsSubjectKeys
  {
    FinalsEntriesDomain();
    EntriesInCatalogOrder();
    EntriesAreKeys();
  }

  lemma FinalsEntriesDomain()
    ensures FinalsEntries.Keys == set s | s in FinalsSubjects
  {
  }

  lemma EntriesInCatalogOrder()
    ensures EntriesOf(FinalsSubjects) == FinalsSubjectKeys
  {
  }

  lemma EntriesAreKeys()
    ensures forall s :: s in FinalsEntries ==> forall e :: e in FinalsEntries[s] ==> e in FinalsSubjectKeys
  {
  }

  /** The oral/written subjects are exactly the finals subjects with two entries. */
  lemma OralWrittenHaveTwoEntries()
    ensures forall s :: s in FinalsEntries ==> (|FinalsEntries[s]| == 2 <==> s in FinalsOralWritten)
  {
  }

  /** IDPA is only taught in semester 6, the semester the substitution reads it from. */
  lemma IdpaOnlyInFinalSemester(semester: int)
    ensures IdpaFinalForIdaf.finalSubject in SemesterCatalog(semester) <==> semester == IdpaFinalForIdaf.finalSemester
  {
  }

  /** Every semester catalog draws from `SUBJECTS`. */
  lemma SemesterCatalogsUseSubjects(semester: int)
    ensures forall s :: s in SemesterCatalog(semester) ==> s in Subjects
  {
  }
}
