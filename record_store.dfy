/** The three keyed tables the scraper writes (`subject`, `course`, `classes`),
    their upserts as written in the SQL's `ON CONFLICT ... DO UPDATE SET` lists, and
    the write paths of `get_subject` and `get_course` over them. */
module RecordStore {
  import opened Wrappers
  import opened RowDecoder
  import opened CoursePage
  import Links
  import Text

  datatype Subject = Subject(subjectCode: string, campusCode: string)

  datatype Course = Course(
    courseCode: string, year: int, subjectCode: string,
    faculty: string, campus: string, school: string, career: string, numTerms: nat)

  /** A class row. The six copied columns hold whatever the decoder produced for
      them (SQLite columns are untyped): normally text, and counts for enrols and
      capacity. */
  datatype ClassOffering = ClassOffering(
    courseCode: string, year: int,
    activity: Field, period: Field, classCode: Field, status: Field,
    enrols: Field, capacity: Field, dateStartTime: Field)

  type CourseKey = (string, int)
  type ClassKey = (string, int, Field)

  function CourseKeyOf(c: Course): CourseKey
  {
    (c.courseCode, c.year)
  }

  function ClassKeyOf(o: ClassOffering): ClassKey
  {
    (o.courseCode, o.year, o.classCode)
  }

  /** Every stored row sits under its own natural key. */
  ghost predicate SubjectsKeyed(m: map<string, Subject>)
  {
    forall k :: k in m ==> m[k].subjectCode == k
  }

  ghost predicate CoursesKeyed(m: map<CourseKey, Course>)
  {
    forall k :: k in m ==> CourseKeyOf(m[k]) == k
  }

  ghost predicate ClassesKeyed(m: map<ClassKey, ClassOffering>)
  {
    forall k {:trigger m[k]} :: k in m ==> ClassKeyOf(m[k]) == k
  }

  /** Every class row belongs to a stored course row. */
  ghost predicate ClassesHaveCourses(classes: map<ClassKey, ClassOffering>, courses: map<CourseKey, Course>)
  {
    forall k :: k in classes ==> (k.0, k.1) in courses
  }

  // ---------------------------------------------------------------------------
  // The three upserts
  // ---------------------------------------------------------------------------

  /** The `subject` upsert: both columns are set, so the row becomes `s`. */
  function PutSubject(m: map<string, Subject>, s: Subject): (r: map<string, Subject>)
    ensures r.Keys == m.Keys + {s.subjectCode} && r[s.subjectCode] == s
    ensures forall k :: k in m && k != s.subjectCode ==> r[k] == m[k]
    ensures SubjectsKeyed(m) ==> SubjectsKeyed(r)
  {
    m[s.subjectCode := s]
  }

  /** The `course` upsert: a new key gets the whole row; an existing one has only
      faculty, school, career and num_terms refreshed. */
  function PutCourse(m: map<CourseKey, Course>, c: Course): (r: map<CourseKey, Course>)
    ensures r.Keys == m.Keys + {CourseKeyOf(c)}
    ensures forall k :: k in m && k != CourseKeyOf(c) ==> r[k] == m[k]
    ensures CoursesKeyed(m) ==> CoursesKeyed(r)
  {
    var k := CourseKeyOf(c);
    if k in m then
      m[k := m[k].(faculty := c.faculty, school := c.school, career := c.career, numTerms := c.numTerms)]
    else m[k := c]
  }

  /** The `classes` upsert: a new key gets the whole row; an existing one has the six
      non-key columns rewritten. */
  function PutClass(m: map<ClassKey, ClassOffering>, o: ClassOffering): (r: map<ClassKey, ClassOffering>)
    ensures r.Keys == m.Keys + {ClassKeyOf(o)}
    ensures forall k :: k in m && k != ClassKeyOf(o) ==> r[k] == m[k]
  {
    var k := ClassKeyOf(o);
    if k in m then
      m[k := m[k].(activity := o.activity, period := o.period, status := o.status,
                   enrols := o.enrols, capacity := o.capacity, dateStartTime := o.dateStartTime)]
    else m[k := o]
  }

  /** On a revisit the course row keeps the subject it was first found under and its
      first campus, and takes the new faculty, school, career and term count. */
  lemma CourseUpsertRefreshes(m: map<CourseKey, Course>, c: Course)
    requires CoursesKeyed(m)
    ensures var k, r := CourseKeyOf(c), PutCourse(m, c);
      && (k in m ==> r[k] == m[k].(faculty := c.faculty, school := c.school, career := c.career, numTerms := c.numTerms))
      && (k in m ==> r[k].subjectCode == m[k].subjectCode && r[k].campus == m[k].campus)
      && (k !in m ==> r[k] == c)
      && CourseKeyOf(r[k]) == k
  {
  }

  /** The `DO UPDATE` list of the class upsert names every non-key column, so on a
      table whose rows sit under their keys the upsert just stores the new row. */
  lemma ClassUpsertStoresRow(m: map<ClassKey, ClassOffering>, o: ClassOffering)
    requires ClassesKeyed(m)
    ensures PutClass(m, o) == m[ClassKeyOf(o) := o]
    ensures ClassesKeyed(PutClass(m, o))
  {
    var k := ClassKeyOf(o);
    if k in m {
      assert m[k].(activity := o.activity, period := o.period, status := o.status,
                   enrols := o.enrols, capacity := o.capacity, dateStartTime := o.dateStartTime) == o;
    }
  }

  /** Each upsert, repeated with the same input, changes nothing more. */
  lemma UpsertsIdempotent(
    subjects: map<string, Subject>, s: Subject,
    courses: map<CourseKey, Course>, c: Course,
    classes: map<ClassKey, ClassOffering>, o: ClassOffering)
    ensures PutSubject(PutSubject(subjects, s), s) == PutSubject(subjects, s)
    ensures PutCourse(PutCourse(courses, c), c) == PutCourse(courses, c)
    ensures PutClass(PutClass(classes, o), o) == PutClass(classes, o)
  {
  }

  // ---------------------------------------------------------------------------
  // From decoded rows to class rows
  // ---------------------------------------------------------------------------

  const DayStartTime := "Day/Start Time"

  /** A decoded row holding every key `get_course` reads: Activity, Period, Class,
      Status, Enrols and Capacity. */
  predicate Complete(term: Record)
  {
    "Activity" in term && "Period" in term && "Class" in term && "Status" in term
    && Enrols in term && Capacity in term
  }

  /** The class row `get_course` writes for one decoded row, or the `KeyError` for the
      first required key the row lacks. The start time defaults to the empty string. */
  function ToOffering(courseCode: string, year: int, term: Record): (r: Result<ClassOffering>)
    ensures r.Ok? <==> Complete(term)
    ensures r.Err? ==> r.error.KeyError? && r.error.key !in term
    ensures r.Ok? ==>
      && r.value.courseCode == courseCode && r.value.year == year
      && r.value.activity == term["Activity"] && r.value.period == term["Period"]
      && r.value.classCode == term["Class"] && r.value.status == term["Status"]
      && r.value.enrols == term[Enrols] && r.value.capacity == term[Capacity]
      && r.value.dateStartTime == (if DayStartTime in term then term[DayStartTime] else Str(""))
  {
    if "Activity" !in term then Err(KeyError("Activity"))
    else if "Period" !in term then Err(KeyError("Period"))
    else if "Class" !in term then Err(KeyError("Class"))
    else if "Status" !in term then Err(KeyError("Status"))
    else if Enrols !in term then Err(KeyError(Enrols))
    else if Capacity !in term then Err(KeyError(Capacity))
    else
      Ok(ClassOffering(courseCode, year, term["Activity"], term["Period"], term["Class"], term["Status"],
                       term[Enrols], term[Capacity], if DayStartTime in term then term[DayStartTime] else Str("")))
  }

  type ClassTable = map<ClassKey, ClassOffering>

  /** Writing the class rows of one term: row after row, stopping at the first row
      that lacks a required key. The flag says whether every row was written. */
  function WriteRows(m: ClassTable, courseCode: string, year: int, terms: seq<Record>): (r: (ClassTable, bool))
    ensures r.1 <==> forall i :: 0 <= i < |terms| ==> Complete(terms[i])
    decreases |terms|
  {
    if terms == [] then (m, true)
    else
      assert forall i :: 0 < i < |terms| ==> terms[1..][i - 1] == terms[i];
      match ToOffering(courseCode, year, terms[0])
      case Err(_) => (m, false)
      case Ok(o) => WriteRows(PutClass(m, o), courseCode, year, terms[1..])
  }

  /** What `parse_term` gives for a table: its decoded rows, or its exception. */
  type Decoded = Result<seq<Record>>

  /** `parse_term` on each located table. It is pure, so decoding every table up
      front and consuming the results in order is the same as decoding each one
      when the loop reaches it. */
  function ParsedTerms(located: seq<Table>): (parsed: seq<Decoded>)
    ensures |parsed| == |located|
  {
    if located == [] then [] else [ParseTermSpec(located[0])] + ParsedTerms(located[1..])
  }

  lemma {:induction false} ParsedTermsAll(located: seq<Table>)
    ensures forall i :: 0 <= i < |located| ==> ParsedTerms(located)[i] == ParseTermSpec(located[i])
  {
    if located != [] {
      ParsedTermsAll(located[1..]);
      assert forall i :: 0 < i < |located| ==> located[1..][i - 1] == located[i];
    }
  }

  /** One pass of the `range(num_terms)` loop: write the rows of a decoded table.
      The flag is false when decoding failed or a row lacks a key. */
  function WriteTerm(m: ClassTable, courseCode: string, year: int, decoded: Decoded): (r: (ClassTable, bool))
  {
    match decoded
    case Err(_) => (m, false)
    case Ok(terms) => WriteRows(m, courseCode, year, terms)
  }

  /** The `range(num_terms)` loop over the decoded summaries: running out of tables
      or a failing pass ends the loop, and what was written before stays. */
  function WriteTerms(m: ClassTable, courseCode: string, year: int, parsed: seq<Decoded>, numTerms: nat): (r: (ClassTable, bool))
    ensures r.1 ==> numTerms <= |parsed|
    decreases numTerms
  {
    if numTerms == 0 then (m, true)
    else if parsed == [] then (m, false)
    else
      var pass := WriteTerm(m, courseCode, year, parsed[0]);
      if !pass.1 then pass else WriteTerms(pass.0, courseCode, year, parsed[1..], numTerms - 1)
  }

  /** One more pass of the loop, counted from index `i`: a pass that completes leaves
      the rest of the loop to do, one that fails is where the loop ends. */
  lemma WriteTermsAdvance(m: ClassTable, m': ClassTable, ok: bool, courseCode: string, year: int,
                          parsed: seq<Decoded>, i: nat, numTerms: nat)
    requires i < |parsed| && i < numTerms
    requires (m', ok) == WriteTerm(m, courseCode, year, parsed[i])
    ensures ok ==>
      WriteTerms(m', courseCode, year, parsed[i + 1..], numTerms - i - 1) == WriteTerms(m, courseCode, year, parsed[i..], numTerms - i)
    ensures !ok ==> (m', false) == WriteTerms(m, courseCode, year, parsed[i..], numTerms - i)
  {
    assert parsed[i..][0] == parsed[i] && parsed[i..][1..] == parsed[i + 1..];
  }

  /** The guarded part of `get_course`: locate the term tables, then write. */
  function TermPhase(m: ClassTable, courseCode: string, year: int, tables: seq<Table>, numTerms: nat): (r: (ClassTable, bool))
    ensures Locate(tables).Err? ==> r == (m, false)
    ensures forall k :: k in r.0 ==> k in m || (k.0 == courseCode && k.1 == year)
  {
    match Locate(tables)
    case Err(_) => (m, false)
    case Ok(located) =>
      WriteTermsStaysInCourse(m, courseCode, year, ParsedTerms(located), numTerms);
      WriteTerms(m, courseCode, year, ParsedTerms(located), numTerms)
  }

  /** The course row `get_course` writes, or the exception that ends it first: one from
      the label loop, or a `KeyError` for the first of Faculty, Campus, School and
      Career the page does not give. */
  function CourseRow(link: string, subjectCode: string, year: int, page: Page): (r: Result<Course>)
    ensures r.Ok? <==> CourseInfo(page.courseInfo).Ok? && AllowedLabels <= CourseInfo(page.courseInfo).value.Keys
    ensures r.Err? && CourseInfo(page.courseInfo).Ok? ==>
      r.error.KeyError? && r.error.key in AllowedLabels && r.error.key !in CourseInfo(page.courseInfo).value
    ensures r.Ok? ==> var info := CourseInfo(page.courseInfo).value;
      && r.value.courseCode == Links.CourseCode(link) && r.value.year == year && r.value.subjectCode == subjectCode
      && r.value.faculty == info["Faculty"] && r.value.campus == info["Campus"]
      && r.value.school == info["School"] && r.value.career == info["Career"]
      && r.value.numTerms == CountNamed(Flatten(page.termsOffered))
  {
    var info :- CourseInfo(page.courseInfo);
    var numTerms := CountNamed(Flatten(page.termsOffered));
    if "Faculty" !in info then Err(KeyError("Faculty"))
    else if "Campus" !in info then Err(KeyError("Campus"))
    else if "School" !in info then Err(KeyError("School"))
    else if "Career" !in info then Err(KeyError("Career"))
    else Ok(Course(Links.CourseCode(link), year, subjectCode,
                   info["Faculty"], info["Campus"], info["School"], info["Career"], numTerms))
  }

  // ---------------------------------------------------------------------------
  // The store
  // ---------------------------------------------------------------------------

  /** The SQLite database: one map per table, keyed by the table's primary key. */
  class Store {
    var subjects: map<string, Subject>
    var courses: map<CourseKey, Course>
    var classes: ClassTable

    ghost predicate Valid()
      reads this
    {
      SubjectsKeyed(subjects) && CoursesKeyed(courses) && ClassesKeyed(classes)
    }

    constructor ()
      ensures Valid()
      ensures subjects == map[] && courses == map[] && classes == map[]
    {
      subjects, courses, classes := map[], map[], map[];
    }

    method UpsertSubject(s: Subject)
      requires Valid()
      modifies this
      ensures Valid()
      ensures subjects == PutSubject(old(subjects), s)
      ensures courses == old(courses) && classes == old(classes)
    {
      subjects := PutSubject(subjects, s);
    }

    method UpsertCourse(c: Course)
      requires Valid()
      modifies this
      ensures Valid()
      ensures courses == PutCourse(old(courses), c)
      ensures subjects == old(subjects) && classes == old(classes)
    {
      courses := PutCourse(courses, c);
    }

    method UpsertClass(o: ClassOffering)
      requires Valid()
      modifies this
      ensures Valid()
      ensures classes == PutClass(old(classes), o)
      ensures subjects == old(subjects) && courses == old(courses)
    {
      ClassUpsertStoresRow(classes, o);
      classes := PutClass(classes, o);
    }

    /** `get_subject`: the codes come from the link's file name, the course links
        from the page's anchors; the subject row is upserted. */
    method VisitSubject(link: string, prefix: string, anchors: seq<Links.Anchor>)
      returns (subjectCode: string, courseLinks: seq<string>)
      requires Valid()
      modifies this
      ensures Valid()
      ensures subjectCode == Links.SubjectCode(link)
      ensures courseLinks == Links.FollowedLinks(anchors, prefix)
      ensures subjects == PutSubject(old(subjects), Subject(subjectCode, Links.CampusCode(link)))
      ensures courses == old(courses) && classes == old(classes)
    {
      subjectCode := Links.SubjectCode(link);
      var campusCode := Links.CampusCode(link);
      courseLinks := Links.GetLinks(anchors, prefix);
      UpsertSubject(Subject(subjectCode, campusCode));
    }

    /** The inner loop of the term block: one class upsert per decoded row, until a
        row lacks a required key. */
    method WriteTermRows(courseCode: string, year: int, terms: seq<Record>) returns (ok: bool)
      requires Valid()
      modifies this
      ensures Valid()
      ensures (classes, ok) == WriteRows(old(classes), courseCode, year, terms)
      ensures subjects == old(subjects) && courses == old(courses)
    {
      for j := 0 to |terms|
        invariant Valid()
        invariant WriteRows(classes, courseCode, year, terms[j..]) == WriteRows(old(classes), courseCode, year, terms)
        invariant subjects == old(subjects) && courses == old(courses)
      {
        assert terms[j..][0] == terms[j] && terms[j..][1..] == terms[j + 1..];
        var o := ToOffering(courseCode, year, terms[j]);
        if o.Err? {
          return false;
        }
        UpsertClass(o.value);
      }
      assert terms[|terms|..] == [];
      return true;
    }

    /** The `try` block of `get_course`: locate the summaries, then decode and write
        the first `numTerms` of them. Any exception ends the block; the result says
        whether it ran to completion. */
    method WriteTermBlock(courseCode: string, year: int, tables: seq<Table>, numTerms: nat) returns (ok: bool)
      requires Valid()
      modifies this
      ensures Valid()
      ensures (classes, ok) == TermPhase(old(classes), courseCode, year, tables, numTerms)
      ensures subjects == old(subjects) && courses == old(courses)
    {
      var located := LocateSummaries(tables);
      if located.Err? {
        return false;
      }
      ParsedTermsAll(located.value);
      ok := WriteSummaries(courseCode, year, located.value, ParsedTerms(located.value), numTerms);
    }

    /** The `range(num_terms)` loop of the term block; `parsed` is what decoding each
        summary table gives. */
    method WriteSummaries(courseCode: string, year: int, summaries: seq<Table>, ghost parsed: seq<Decoded>, numTerms: nat)
      returns (ok: bool)
      requires Valid()
      requires |parsed| == |summaries|
      requires forall j {:trigger ParseTermSpec(summaries[j])} :: 0 <= j < |summaries| ==> parsed[j] == ParseTermSpec(summaries[j])
      modifies this
      ensures Valid()
      ensures (classes, ok) == WriteTerms(old(classes), courseCode, year, parsed, numTerms)
      ensures subjects == old(subjects) && courses == old(courses)
    {
      ghost var goal := WriteTerms(classes, courseCode, year, parsed, numTerms);
      for i := 0 to numTerms
        invariant Valid()
        invariant i <= |summaries|
        invariant WriteTerms(classes, courseCode, year, parsed[i..], numTerms - i) == goal
        invariant subjects == old(subjects) && courses == old(courses)
      {
        if i == |summaries| {
          assert parsed[i..] == [];
          return false;
        }
        ghost var before := classes;
        ok := WriteTermTable(courseCode, year, summaries, parsed, i);
        WriteTermsAdvance(before, classes, ok, courseCode, year, parsed, i, numTerms);
        if !ok {
          return false;
        }
      }
      return true;
    }

    /** One pass of the term loop: decode the `i`th summary table, then write its rows. */
    method WriteTermTable(courseCode: string, year: int, summaries: seq<Table>, ghost parsed: seq<Decoded>, i: nat)
      returns (ok: bool)
      requires Valid()
      requires i < |summaries| == |parsed|
      requires forall j {:trigger ParseTermSpec(summaries[j])} :: 0 <= j < |summaries| ==> parsed[j] == ParseTermSpec(summaries[j])
      modifies this
      ensures Valid()
      ensures (classes, ok) == WriteTerm(old(classes), courseCode, year, parsed[i])
      ensures subjects == old(subjects) && courses == old(courses)
    {
      var terms := ParseTerm(summaries[i]);
      if terms.Err? {
        return false;
      }
      ok := WriteTermRows(courseCode, year, terms.value);
    }

    /** `get_course`: count the terms, collect the course information, upsert the
        course row (an exception here propagates and nothing is written), then run
        the guarded term block. The result is `Err` for a propagated exception, and
        otherwise says whether the term block completed. */
    method VisitCourse(link: string, subjectCode: string, year: int, page: Page) returns (result: Result<bool>)
      requires Valid()
      modifies this
      ensures Valid()
      ensures subjects == old(subjects)
      ensures match CourseRow(link, subjectCode, year, page)
        case Err(e) => result == Err(e) && courses == old(courses) && classes == old(classes)
        case Ok(c) =>
          && courses == PutCourse(old(courses), c)
          && (classes, result.Ok? && result.value) == TermPhase(old(classes), c.courseCode, year, page.tables, c.numTerms)
          && result.Ok?
    ensures forall k :: k in classes ==> k in old(classes) || (k.0, k.1) in courses
    ensures ClassesHaveCourses(old(classes), old(courses)) ==> ClassesHaveCourses(classes, courses)
    {
      var courseCode := Links.CourseCode(link);
      var numTerms := CountTerms(page.termsOffered);
      var info := ExtractCourseInfo(page.courseInfo);
      if info.Err? {
        return Err(info.error);
      }
      var facultyInfo := info.value;
      if "Faculty" !in facultyInfo { return Err(KeyError("Faculty")); }
      if "Campus" !in facultyInfo { return Err(KeyError("Campus")); }
      if "School" !in facultyInfo { return Err(KeyError("School")); }
      if "Career" !in facultyInfo { return Err(KeyError("Career")); }
      UpsertCourse(Course(courseCode, year, subjectCode, facultyInfo["Faculty"], facultyInfo["Campus"],
                          facultyInfo["School"], facultyInfo["Career"], numTerms));
      var ok := WriteTermBlock(courseCode, year, page.tables, numTerms);
      return Ok(ok);
    }
  }

  // ---------------------------------------------------------------------------
  // Properties of the write paths
  // ---------------------------------------------------------------------------

  /** Overwriting one key, then overlaying, is overlaying the overwrite. */
  lemma UpdateThenOverlay(m: ClassTable, k: ClassKey, o: ClassOffering, d: ClassTable)
    ensures m[k := o] + d == m + (map[k := o] + d)
  {
    assert (m[k := o] + d).Keys == (m + (map[k := o] + d)).Keys;
  }

  lemma OverlayAssociative(a: ClassTable, b: ClassTable, c: ClassTable)
    ensures (a + b) + c == a + (b + c)
  {
    assert ((a + b) + c).Keys == (a + (b + c)).Keys;
  }

  /** Two overlays in a row, regrouped. */
  lemma OverlayChain(m: ClassTable, d1: ClassTable, m1: ClassTable, d: ClassTable, wm: ClassTable, wd: ClassTable)
    requires m1 == m + d1 && wm == m1 + d && wd == d1 + d
    ensures wm == m + wd
  {
    OverlayAssociative(m, d1, d);
  }

  /** The rows a term writes depend on the rows alone: the table afterwards is the
      table before overlaid with what writing into an empty table gives, and whether
      it completes does not depend on the table. */
  lemma {:induction false} WriteRowsOverlay(m: ClassTable, courseCode: string, year: int, terms: seq<Record>)
    requires ClassesKeyed(m)
    ensures WriteRows(m, courseCode, year, terms).0 == m + WriteRows(map[], courseCode, year, terms).0
    ensures WriteRows(m, courseCode, year, terms).1 == WriteRows(map[], courseCode, year, terms).1
    ensures ClassesKeyed(WriteRows(m, courseCode, year, terms).0)
    decreases |terms|
  {
    if terms == [] {
      assert m + map[] == m;
    } else {
      match ToOffering(courseCode, year, terms[0])
      case Err(_) =>
        assert m + map[] == m;
      case Ok(o) =>
        var k := ClassKeyOf(o);
        ClassUpsertStoresRow(m, o);
        ClassUpsertStoresRow(map[], o);
        WriteRowsOverlay(m[k := o], courseCode, year, terms[1..]);
        WriteRowsOverlay(map[k := o], courseCode, year, terms[1..]);
        UpdateThenOverlay(m, k, o, WriteRows(map[], courseCode, year, terms[1..]).0);
    }
  }

  /** The same for one pass of the term loop. */
  lemma WriteTermOverlay(m: ClassTable, courseCode: string, year: int, decoded: Decoded)
    requires ClassesKeyed(m)
    ensures WriteTerm(m, courseCode, year, decoded).0 == m + WriteTerm(map[], courseCode, year, decoded).0
    ensures WriteTerm(m, courseCode, year, decoded).1 == WriteTerm(map[], courseCode, year, decoded).1
    ensures ClassesKeyed(WriteTerm(m, courseCode, year, decoded).0)
  {
    match decoded
    case Err(_) =>
      assert m + map[] == m;
    case Ok(terms) =>
      WriteRowsOverlay(m, courseCode, year, terms);
  }

  /** Whether the whole term loop completes does not depend on the table. */
  lemma {:induction false} WriteTermsFlag(m: ClassTable, m': ClassTable, courseCode: string, year: int, parsed: seq<Decoded>, numTerms: nat)
    ensures WriteTerms(m, courseCode, year, parsed, numTerms).1 == WriteTerms(m', courseCode, year, parsed, numTerms).1
    decreases numTerms
  {
    if numTerms > 0 && parsed != [] {
      var m1 := WriteTerm(m, courseCode, year, parsed[0]).0;
      var m1' := WriteTerm(m', courseCode, year, parsed[0]).0;
      WriteTermsFlag(m1, m1', courseCode, year, parsed[1..], numTerms - 1);
    }
  }

  /** The whole term loop keeps every row under its own key. */
  lemma {:induction false} WriteTermsKeyed(m: ClassTable, courseCode: string, year: int, parsed: seq<Decoded>, numTerms: nat)
    requires ClassesKeyed(m)
    ensures ClassesKeyed(WriteTerms(m, courseCode, year, parsed, numTerms).0)
    decreases numTerms
  {
    if numTerms > 0 && parsed != [] {
      WriteTermOverlay(m, courseCode, year, parsed[0]);
      var (m1, ok) := WriteTerm(m, courseCode, year, parsed[0]);
      if ok {
        WriteTermsKeyed(m1, courseCode, year, parsed[1..], numTerms - 1);
      }
    }
  }

  /** The same for the whole term loop. */
  lemma {:induction false} WriteTermsOverlay(m: ClassTable, courseCode: string, year: int, parsed: seq<Decoded>, numTerms: nat)
    requires ClassesKeyed(m)
    ensures WriteTerms(m, courseCode, year, parsed, numTerms).0 == m + WriteTerms(map[], courseCode, year, parsed, numTerms).0
    ensures WriteTerms(m, courseCode, year, parsed, numTerms).1 == WriteTerms(map[], courseCode, year, parsed, numTerms).1
    ensures ClassesKeyed(WriteTerms(m, courseCode, year, parsed, numTerms).0)
    decreases numTerms, 1
  {
    WriteTermsFlag(m, map[], courseCode, year, parsed, numTerms);
    WriteTermsKeyed(m, courseCode, year, parsed, numTerms);
    if numTerms == 0 || parsed == [] {
      assert m + map[] == m;
    } else {
      WriteTermsOverlayStep(m, courseCode, year, parsed, numTerms);
    }
  }

  /** The step of `WriteTermsOverlay`: one pass, then the rest of the loop. */
  lemma WriteTermsOverlayStep(m: ClassTable, courseCode: string, year: int, parsed: seq<Decoded>, numTerms: nat)
    requires ClassesKeyed(m) && numTerms > 0 && parsed != []
    ensures WriteTerms(m, courseCode, year, parsed, numTerms).0 == m + WriteTerms(map[], courseCode, year, parsed, numTerms).0
    decreases numTerms, 0
  {
    var rest := parsed[1..];
    WriteTermOverlay(m, courseCode, year, parsed[0]);
    WriteTermOverlay(map[], courseCode, year, parsed[0]);
    var (m1, ok) := WriteTerm(m, courseCode, year, parsed[0]);
    var d1 := WriteTerm(map[], courseCode, year, parsed[0]).0;
    assert map[] + d1 == d1;
    if ok {
      WriteTermsOverlay(m1, courseCode, year, rest, numTerms - 1);
      WriteTermsOverlay(d1, courseCode, year, rest, numTerms - 1);
      var d := WriteTerms(map[], courseCode, year, rest, numTerms - 1).0;
      var wm, wd := WriteTerms(m1, courseCode, year, rest, numTerms - 1).0, WriteTerms(d1, courseCode, year, rest, numTerms - 1).0;
      OverlayChain(m, d1, m1, d, wm, wd);
    }
  }

  /** Re-crawl convergence for classes: running a course page's term block twice
      leaves the same class table as running it once. */
  lemma TermPhaseIdempotent(m: ClassTable, courseCode: string, year: int, tables: seq<Table>, numTerms: nat)
    requires ClassesKeyed(m)
    ensures var once := TermPhase(m, courseCode, year, tables, numTerms);
      TermPhase(once.0, courseCode, year, tables, numTerms) == once
  {
    match Locate(tables)
    case Err(_) =>
    case Ok(located) =>
      var parsed := ParsedTerms(located);
      WriteTermsOverlay(m, courseCode, year, parsed, numTerms);
      var once := WriteTerms(m, courseCode, year, parsed, numTerms).0;
      WriteTermsOverlay(once, courseCode, year, parsed, numTerms);
      var d := WriteTerms(map[], courseCode, year, parsed, numTerms).0;
      OverlayAssociative(m, d, d);
      assert d + d == d;
  }

  /** Every class row the term block adds or changes belongs to the course being
      visited. */
  lemma {:induction false} WriteRowsStaysInCourse(m: ClassTable, courseCode: string, year: int, terms: seq<Record>)
    ensures var r := WriteRows(m, courseCode, year, terms).0;
      forall k :: k in r ==> k in m || (k.0 == courseCode && k.1 == year)
    decreases |terms|
  {
    if terms != [] {
      match ToOffering(courseCode, year, terms[0])
      case Err(_) =>
      case Ok(o) => WriteRowsStaysInCourse(PutClass(m, o), courseCode, year, terms[1..]);
    }
  }

  lemma WriteTermStaysInCourse(m: ClassTable, courseCode: string, year: int, decoded: Decoded)
    ensures var r := WriteTerm(m, courseCode, year, decoded).0;
      forall k :: k in r ==> k in m || (k.0 == courseCode && k.1 == year)
  {
    match decoded
    case Err(_) =>
    case Ok(terms) => WriteRowsStaysInCourse(m, courseCode, year, terms);
  }

  lemma {:induction false} WriteTermsStaysInCourse(m: ClassTable, courseCode: string, year: int, parsed: seq<Decoded>, numTerms: nat)
    ensures var r := WriteTerms(m, courseCode, year, parsed, numTerms).0;
      forall k :: k in r ==> k in m || (k.0 == courseCode && k.1 == year)
    decreases numTerms
  {
    if numTerms > 0 && parsed != [] {
      WriteTermStaysInCourse(m, courseCode, year, parsed[0]);
      var m1 := WriteTerm(m, courseCode, year, parsed[0]).0;
      WriteTermsStaysInCourse(m1, courseCode, year, parsed[1..], numTerms - 1);
    }
  }

  /** Malformed-page isolation: when locating the summaries fails, or the first
      summary table fails to decode, no class row is written. */
  lemma MalformedPageWritesNoClasses(m: ClassTable, courseCode: string, year: int, tables: seq<Table>, numTerms: nat)
    requires Locate(tables).Err?
      || (numTerms > 0 && Locate(tables).Ok? && Locate(tables).value != []
          && ParseTermSpec(Locate(tables).value[0]).Err?)
    ensures TermPhase(m, courseCode, year, tables, numTerms) == (m, false)
  {
  }

  /** Too few summary tables: when every table there is decodes and writes, all of
      them are written and the loop then stops short. */
  lemma {:induction false} ShortfallKeepsEarlierTerms(m: ClassTable, courseCode: string, year: int, parsed: seq<Decoded>, numTerms: nat)
    requires |parsed| < numTerms
    requires WriteTerms(m, courseCode, year, parsed, |parsed|).1
    ensures WriteTerms(m, courseCode, year, parsed, numTerms)
      == (WriteTerms(m, courseCode, year, parsed, |parsed|).0, false)
    decreases |parsed|
  {
    if parsed != [] {
      var m1 := WriteTerm(m, courseCode, year, parsed[0]).0;
      ShortfallKeepsEarlierTerms(m1, courseCode, year, parsed[1..], numTerms - 1);
    }
  }

  /** Only the first `num_terms` decoded summaries are read: the loop over all of
      them is the loop over that prefix, so any further summary writes nothing. */
  lemma {:induction false} WriteTermsPrefix(m: ClassTable, courseCode: string, year: int, parsed: seq<Decoded>, numTerms: nat)
    requires numTerms <= |parsed|
    ensures WriteTerms(m, courseCode, year, parsed, numTerms)
      == WriteTerms(m, courseCode, year, parsed[..numTerms], numTerms)
    decreases numTerms
  {
    if numTerms > 0 {
      var pass := WriteTerm(m, courseCode, year, parsed[0]);
      assert parsed[..numTerms][0] == parsed[0];
      assert parsed[..numTerms][1..] == parsed[1..][..numTerms - 1];
      WriteTermsPrefix(pass.0, courseCode, year, parsed[1..], numTerms - 1);
    }
  }

  /** Re-crawl convergence for a whole course page: visiting it a second time with
      the same page leaves the course and class tables as the first visit left them. */
  lemma VisitCourseIdempotent(courses: map<CourseKey, Course>, classes: ClassTable, link: string,
                              subjectCode: string, year: int, page: Page)
    requires ClassesKeyed(classes)
    requires CourseRow(link, subjectCode, year, page).Ok?
    ensures var c := CourseRow(link, subjectCode, year, page).value;
      var classes1 := TermPhase(classes, c.courseCode, year, page.tables, c.numTerms).0;
      && PutCourse(PutCourse(courses, c), c) == PutCourse(courses, c)
      && TermPhase(classes1, c.courseCode, year, page.tables, c.numTerms).0 == classes1
  {
    var c := CourseRow(link, subjectCode, year, page).value;
    TermPhaseIdempotent(classes, c.courseCode, year, page.tables, c.numTerms);
  }

  /** The key a complete decoded row is stored under. */
  function RowKey(courseCode: string, year: int, term: Record): ClassKey
    requires Complete(term)
  {
    (courseCode, year, term["Class"])
  }

  /** The keys of some complete rows. */
  function RowKeys(courseCode: string, year: int, terms: seq<Record>): set<ClassKey>
    requires forall i :: 0 <= i < |terms| ==> Complete(terms[i])
  {
    set i | 0 <= i < |terms| :: RowKey(courseCode, year, terms[i])
  }

  function ClassOf(term: Record): Field
    requires Complete(term)
  {
    term["Class"]
  }

  /** No later row has the class code of row `i`. */
  predicate LastOfClass(terms: seq<Record>, i: nat)
    requires i < |terms| && forall j :: 0 <= j < |terms| ==> Complete(terms[j])
  {
    forall j :: i < j < |terms| ==> ClassOf(terms[j]) != ClassOf(terms[i])
  }

  /** Writing complete rows adds exactly the rows' keys. */
  lemma {:induction false} WriteRowsKeys(m: ClassTable, courseCode: string, year: int, terms: seq<Record>)
    requires ClassesKeyed(m)
    requires forall i :: 0 <= i < |terms| ==> Complete(terms[i])
    ensures WriteRows(m, courseCode, year, terms).0.Keys == m.Keys + RowKeys(courseCode, year, terms)
    decreases |terms|
  {
    if terms != [] {
      var o := ToOffering(courseCode, year, terms[0]).value;
      ClassUpsertStoresRow(m, o);
      var m' := m[ClassKeyOf(o) := o];
      WriteRowsKeys(m', courseCode, year, terms[1..]);
      RowKeysCons(courseCode, year, terms);
      assert WriteRows(m, courseCode, year, terms).0 == WriteRows(m', courseCode, year, terms[1..]).0;
    }
  }

  /** The keys of the rows: the first row's, and those of the rest. */
  lemma RowKeysCons(courseCode: string, year: int, terms: seq<Record>)
    requires terms != [] && forall i :: 0 <= i < |terms| ==> Complete(terms[i])
    ensures RowKeys(courseCode, year, terms) == {RowKey(courseCode, year, terms[0])} + RowKeys(courseCode, year, terms[1..])
  {
    var rest := terms[1..];
    forall k | k in RowKeys(courseCode, year, terms)
      ensures k in {RowKey(courseCode, year, terms[0])} + RowKeys(courseCode, year, rest)
    {
      var i :| 0 <= i < |terms| && RowKey(courseCode, year, terms[i]) == k;
      if i > 0 {
        assert rest[i - 1] == terms[i];
      }
    }
    forall k | k in RowKeys(courseCode, year, rest) ensures k in RowKeys(courseCode, year, terms) {
      var i :| 0 <= i < |rest| && RowKey(courseCode, year, rest[i]) == k;
      assert rest[i] == terms[i + 1];
    }
  }

  /** Writing complete rows leaves every key none of them has as it was. */
  lemma {:induction false} WriteRowsLeavesOthers(m: ClassTable, courseCode: string, year: int, terms: seq<Record>)
    requires ClassesKeyed(m)
    requires forall i :: 0 <= i < |terms| ==> Complete(terms[i])
    ensures m.Keys <= WriteRows(m, courseCode, year, terms).0.Keys
    ensures var r := WriteRows(m, courseCode, year, terms).0;
      forall k :: k in m && (forall i :: 0 <= i < |terms| ==> RowKey(courseCode, year, terms[i]) != k) ==> r[k] == m[k]
    decreases |terms|
  {
    if terms != [] {
      var o := ToOffering(courseCode, year, terms[0]).value;
      var rest := terms[1..];
      assert forall i :: 0 < i < |terms| ==> rest[i - 1] == terms[i];
      ClassUpsertStoresRow(m, o);
      var m' := m[ClassKeyOf(o) := o];
      WriteRowsKeys(m, courseCode, year, terms);
      WriteRowsLeavesOthers(m', courseCode, year, rest);
      assert RowKey(courseCode, year, terms[0]) == ClassKeyOf(o);
      assert WriteRows(m, courseCode, year, terms).0 == WriteRows(m', courseCode, year, rest).0;
    }
  }

  /** Writing complete rows stores each row's class row under its key, unless a later
      row has the same class code: the last row with a given class code wins. */
  lemma {:induction false} WriteRowsLastWins(m: ClassTable, courseCode: string, year: int, terms: seq<Record>)
    requires ClassesKeyed(m)
    requires forall i :: 0 <= i < |terms| ==> Complete(terms[i])
    ensures var r := WriteRows(m, courseCode, year, terms).0;
      forall i :: 0 <= i < |terms| && LastOfClass(terms, i) ==>
        RowKey(courseCode, year, terms[i]) in r && r[RowKey(courseCode, year, terms[i])] == ToOffering(courseCode, year, terms[i]).value
    decreases |terms|
  {
    if terms != [] {
      var o := ToOffering(courseCode, year, terms[0]).value;
      var k0 := ClassKeyOf(o);
      var rest := terms[1..];
      ClassUpsertStoresRow(m, o);
      var m' := m[k0 := o];
      WriteRowsLastWins(m', courseCode, year, rest);
      WriteRowsLeavesOthers(m', courseCode, year, rest);
      var r := WriteRows(m, courseCode, year, terms).0;
      assert r == WriteRows(m', courseCode, year, rest).0;
      forall i | 0 <= i < |terms| && LastOfClass(terms, i)
        ensures RowKey(courseCode, year, terms[i]) in r
        ensures r[RowKey(courseCode, year, terms[i])] == ToOffering(courseCode, year, terms[i]).value
      {
        if i == 0 {
          forall j | 0 <= j < |rest| ensures RowKey(courseCode, year, rest[j]) != k0 {
            assert rest[j] == terms[j + 1];
          }
        } else {
          assert rest[i - 1] == terms[i];
          assert LastOfClass(rest, i - 1) by {
            forall j | i - 1 < j < |rest| ensures ClassOf(rest[j]) != ClassOf(rest[i - 1]) {
              assert rest[j] == terms[j + 1];
            }
          }
        }
      }
    }
  }

  /** A row that lacks a required key raises `KeyError` and ends the term block:
      the rows before it stay written, and no later row is written. */
  lemma {:induction false} WriteRowsStopsAtIncomplete(m: ClassTable, courseCode: string, year: int, terms: seq<Record>, j: nat)
    requires j < |terms| && !Complete(terms[j])
    requires forall i :: 0 <= i < j ==> Complete(terms[i])
    ensures WriteRows(m, courseCode, year, terms) == (WriteRows(m, courseCode, year, terms[..j]).0, false)
    decreases j
  {
    if j > 0 {
      var o := ToOffering(courseCode, year, terms[0]).value;
      var rest := terms[1..];
      assert forall i :: 0 <= i < j - 1 ==> rest[i] == terms[i + 1];
      WriteRowsStopsAtIncomplete(PutClass(m, o), courseCode, year, rest, j - 1);
      assert terms[..j][0] == terms[0] && terms[..j][1..] == rest[..j - 1];
    }
  }

  /** Two complete rows written into a keyed table: each is stored under its key. */
  lemma WriteTwoRows(m: ClassTable, courseCode: string, year: int, a: Record, b: Record)
    requires ClassesKeyed(m) && Complete(a) && Complete(b)
    ensures var oa, ob := ToOffering(courseCode, year, a).value, ToOffering(courseCode, year, b).value;
      WriteRows(m, courseCode, year, [a, b]) == (m[RowKey(courseCode, year, a) := oa][RowKey(courseCode, year, b) := ob], true)
    ensures ClassesKeyed(WriteRows(m, courseCode, year, [a, b]).0)
  {
    var oa, ob := ToOffering(courseCode, year, a).value, ToOffering(courseCode, year, b).value;
    ClassUpsertStoresRow(m, oa);
    var m1 := m[ClassKeyOf(oa) := oa];
    ClassUpsertStoresRow(m1, ob);
    assert ClassKeyOf(oa) == RowKey(courseCode, year, a) && ClassKeyOf(ob) == RowKey(courseCode, year, b);
    assert [a, b][0] == a && [a, b][1..] == [b];
    assert WriteRows(m, courseCode, year, [a, b]) == WriteRows(m1, courseCode, year, [b]);
    assert [b][1..] == [];
    assert WriteRows(m1, courseCode, year, [b]) == WriteRows(m1[ClassKeyOf(ob) := ob], courseCode, year, []);
  }

  /** Two located summaries, each decoding to two complete rows with four distinct
      class codes between them: with a term count of two, the term block completes
      and stores exactly four class rows, one per decoded row. */
  lemma TwoTermsOfTwoRows(courseCode: string, year: int, tables: seq<Table>, t1: Table, t2: Table,
                          a: Record, b: Record, c: Record, d: Record)
    requires Locate(tables) == Ok([t1, t2])
    requires ParseTermSpec(t1) == Ok([a, b]) && ParseTermSpec(t2) == Ok([c, d])
    requires Complete(a) && Complete(b) && Complete(c) && Complete(d)
    requires a["Class"] != b["Class"] && a["Class"] != c["Class"] && a["Class"] != d["Class"]
    requires b["Class"] != c["Class"] && b["Class"] != d["Class"] && c["Class"] != d["Class"]
    ensures var r := TermPhase(map[], courseCode, year, tables, 2);
      && r.1
      && r.0.Keys == {RowKey(courseCode, year, a), RowKey(courseCode, year, b),
                      RowKey(courseCode, year, c), RowKey(courseCode, year, d)}
      && |r.0| == 4
      && r.0[RowKey(courseCode, year, a)] == ToOffering(courseCode, year, a).value
      && r.0[RowKey(courseCode, year, b)] == ToOffering(courseCode, year, b).value
      && r.0[RowKey(courseCode, year, c)] == ToOffering(courseCode, year, c).value
      && r.0[RowKey(courseCode, year, d)] == ToOffering(courseCode, year, d).value
  {
    assert ParsedTerms([t1, t2]) == [Ok([a, b]), Ok([c, d])] by {
      assert [t1, t2][1..] == [t2];
      assert ParsedTerms([t2]) == [Ok([c, d])];
    }
    TwoPassesOfTwoRows(courseCode, year, a, b, c, d);
    FourRows(TermPhase(map[], courseCode, year, tables, 2).0,
             RowKey(courseCode, year, a), RowKey(courseCode, year, b),
             RowKey(courseCode, year, c), RowKey(courseCode, year, d),
             ToOffering(courseCode, year, a).value, ToOffering(courseCode, year, b).value,
             ToOffering(courseCode, year, c).value, ToOffering(courseCode, year, d).value);
  }

  /** Three located summaries but a term count of two: the third summary is never
      decoded, so it writes nothing whatever it holds, and the result is that of the
      first two alone. */
  lemma ExtraSummaryWritesNothing(courseCode: string, year: int, tables: seq<Table>, t1: Table, t2: Table, t3: Table,
                                  a: Record, b: Record, c: Record, d: Record)
    requires Locate(tables) == Ok([t1, t2, t3])
    requires ParseTermSpec(t1) == Ok([a, b]) && ParseTermSpec(t2) == Ok([c, d])
    requires Complete(a) && Complete(b) && Complete(c) && Complete(d)
    ensures TermPhase(map[], courseCode, year, tables, 2)
      == WriteTerms(map[], courseCode, year, [Ok([a, b]), Ok([c, d])], 2)
    ensures var ka, kb := RowKey(courseCode, year, a), RowKey(courseCode, year, b);
      var kc, kd := RowKey(courseCode, year, c), RowKey(courseCode, year, d);
      var oa, ob := ToOffering(courseCode, year, a).value, ToOffering(courseCode, year, b).value;
      var oc, od := ToOffering(courseCode, year, c).value, ToOffering(courseCode, year, d).value;
      TermPhase(map[], courseCode, year, tables, 2) == (map[ka := oa][kb := ob][kc := oc][kd := od], true)
  {
    var parsed := ParsedTerms([t1, t2, t3]);
    ParsedTermsAll([t1, t2, t3]);
    assert parsed[..2] == [Ok([a, b]), Ok([c, d])];
    WriteTermsPrefix(map[], courseCode, year, parsed, 2);
    TwoPassesOfTwoRows(courseCode, year, a, b, c, d);
  }

  /** The term loop over two decoded summaries of two complete rows each. */
  lemma TwoPassesOfTwoRows(courseCode: string, year: int, a: Record, b: Record, c: Record, d: Record)
    requires Complete(a) && Complete(b) && Complete(c) && Complete(d)
    ensures var ka, kb := RowKey(courseCode, year, a), RowKey(courseCode, year, b);
      var kc, kd := RowKey(courseCode, year, c), RowKey(courseCode, year, d);
      var oa, ob := ToOffering(courseCode, year, a).value, ToOffering(courseCode, year, b).value;
      var oc, od := ToOffering(courseCode, year, c).value, ToOffering(courseCode, year, d).value;
      WriteTerms(map[], courseCode, year, [Ok([a, b]), Ok([c, d])], 2)
        == (map[ka := oa][kb := ob][kc := oc][kd := od], true)
  {
    var parsed: seq<Decoded> := [Ok([a, b]), Ok([c, d])];
    WriteTwoRows(map[], courseCode, year, a, b);
    var m2 := WriteRows(map[], courseCode, year, [a, b]).0;
    WriteTwoRows(m2, courseCode, year, c, d);
    assert parsed[1..] == [Ok([c, d])];
    assert WriteTerms(map[], courseCode, year, parsed, 2) == WriteTerms(m2, courseCode, year, [Ok([c, d])], 1);
  }

  /** Four rows under four distinct keys. */
  lemma FourRows(m: ClassTable, ka: ClassKey, kb: ClassKey, kc: ClassKey, kd: ClassKey,
                 oa: ClassOffering, ob: ClassOffering, oc: ClassOffering, od: ClassOffering)
    requires ka != kb && ka != kc && ka != kd && kb != kc && kb != kd && kc != kd
    requires m == map[ka := oa][kb := ob][kc := oc][kd := od]
    ensures m.Keys == {ka, kb, kc, kd} && |m| == 4
    ensures m[ka] == oa && m[kb] == ob && m[kc] == oc && m[kd] == od
  {
    assert |map[ka := oa]| == 1;
    assert |map[ka := oa][kb := ob]| == 2;
    assert |map[ka := oa][kb := ob][kc := oc]| == 3;
  }

  /** A course-information table holding the four pairs in turn gives the course
      row those four values, with the term count and the file-name course code. */
  lemma CourseRowOfFourPairs(link: string, subjectCode: string, year: int, page: Page)
    requires var c := Flatten(page.courseInfo);
      |c| == 8 && PairAt(c, 0, "Faculty") && PairAt(c, 2, "School")
      && PairAt(c, 4, "Campus") && PairAt(c, 6, "Career")
    ensures CourseRow(link, subjectCode, year, page).Ok?
    ensures var c, row := Flatten(page.courseInfo), CourseRow(link, subjectCode, year, page).value;
      && row == Course(Links.CourseCode(link), year, subjectCode, Text.Strip(c[1].text), Text.Strip(c[5].text),
                       Text.Strip(c[3].text), Text.Strip(c[7].text), CountNamed(Flatten(page.termsOffered)))
  {
    CourseInfoOfFourPairs(page.courseInfo);
  }
}
