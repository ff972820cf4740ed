/**
 * The content store: the `course_modules` and `course_lessons` tables and the
 * queries and statements the content model issues against them.  A module
 * belongs to a course, a lesson to a module; both carry an integer `order`
 * handed out as "largest order among the siblings, plus one".
 */
module ContentModel {
  import opened Wrappers
  import opened Query

  /** A row of `course_modules`. */
  datatype ModuleRow = ModuleRow(id: int, courseId: int, title: string, order: int)

  /**
   * A row of `course_lessons`.  `contentType` is stored as posted (it is not
   * checked against video/text/pdf); `contentPath` holds a video id or a PDF
   * path, `contentText` an inline body.
   */
  datatype LessonRow = LessonRow(
    id: int, moduleId: int, title: string, contentType: string,
    contentPath: Option<string>, contentText: Option<string>, order: int)

  /** The columns of an `INSERT INTO course_lessons`. */
  datatype NewLesson = NewLesson(
    moduleId: int, title: string, contentType: string,
    contentPath: Option<string>, contentText: Option<string>, order: int)

  /** The four columns an `UPDATE course_lessons` rewrites. */
  datatype LessonEdit = LessonEdit(
    title: string, contentType: string, contentPath: Option<string>, contentText: Option<string>)

  /** One entry of the nested read-model: a module with its lessons. */
  datatype ModuleView = ModuleView(row: ModuleRow, lessons: seq<LessonRow>)

  function ModuleId(m: ModuleRow): int { m.id }
  function ModuleCourse(m: ModuleRow): int { m.courseId }
  function ModuleOrder(m: ModuleRow): int { m.order }
  function LessonId(l: LessonRow): int { l.id }
  function LessonModule(l: LessonRow): int { l.moduleId }
  function LessonOrder(l: LessonRow): int { l.order }

  /** `WHERE course_id = c`. */
  function ModulesOfCourse(ms: seq<ModuleRow>, c: int): seq<ModuleRow> {
    Filter(ms, (m: ModuleRow) => m.courseId == c)
  }

  /** `WHERE module_id = m`. */
  function LessonsOfModule(ls: seq<LessonRow>, m: int): seq<LessonRow> {
    Filter(ls, (l: LessonRow) => l.moduleId == m)
  }

  /** `WHERE id <> id` on `course_modules`. */
  function ModulesExcept(ms: seq<ModuleRow>, id: int): (r: seq<ModuleRow>)
    ensures forall i :: 0 <= i < |r| ==> r[i] in ms && r[i].id != id
    ensures forall i :: 0 <= i < |ms| && ms[i].id != id ==> ms[i] in r
  {
    Filter(ms, (m: ModuleRow) => m.id != id)
  }

  /** What `ON DELETE CASCADE` leaves of `course_lessons` when module `m` goes. */
  function LessonsOutsideModule(ls: seq<LessonRow>, m: int): (r: seq<LessonRow>)
    ensures forall i :: 0 <= i < |r| ==> r[i] in ls && r[i].moduleId != m
    ensures forall i :: 0 <= i < |ls| && ls[i].moduleId != m ==> ls[i] in r
  {
    Filter(ls, (l: LessonRow) => l.moduleId != m)
  }

  /** `WHERE id <> id` on `course_lessons`. */
  function LessonsExcept(ls: seq<LessonRow>, id: int): (r: seq<LessonRow>)
    ensures forall i :: 0 <= i < |r| ==> r[i] in ls && r[i].id != id
    ensures forall i :: 0 <= i < |ls| && ls[i].id != id ==> ls[i] in r
  {
    Filter(ls, (l: LessonRow) => l.id != id)
  }

  /** A lesson row carries a path or a text, not both. */
  predicate SingleContent(l: LessonRow) {
    l.contentPath.None? || l.contentText.None?
  }

  /** Deleting modules keeps ids unique and in range, and sibling orders distinct. */
  lemma ModulesExceptKeeps(ms: seq<ModuleRow>, id: int, next: int)
    requires UniqueBy(ms, ModuleId)
    requires forall i :: 0 <= i < |ms| ==> 1 <= ms[i].id < next
    ensures UniqueBy(ModulesExcept(ms, id), ModuleId)
    ensures forall i :: 0 <= i < |ModulesExcept(ms, id)| ==> 1 <= ModulesExcept(ms, id)[i].id < next
    ensures DistinctWithinGroups(ms, ModuleCourse, ModuleOrder) ==>
              DistinctWithinGroups(ModulesExcept(ms, id), ModuleCourse, ModuleOrder)
  {
    FilterKeepsTableInvariants(ms, (m: ModuleRow) => m.id != id, ModuleId, ModuleCourse, ModuleOrder);
    var r := ModulesExcept(ms, id);
    forall i | 0 <= i < |r| ensures 1 <= r[i].id < next {
      var j :| 0 <= j < |ms| && ms[j] == r[i];
    }
  }

  /** Deleting lessons keeps ids unique and in range, sibling orders distinct, and single content. */
  lemma LessonsFilterKeeps(ls: seq<LessonRow>, p: LessonRow -> bool, next: int)
    requires UniqueBy(ls, LessonId)
    requires forall i :: 0 <= i < |ls| ==> 1 <= ls[i].id < next
    ensures UniqueBy(Filter(ls, p), LessonId)
    ensures forall i :: 0 <= i < |Filter(ls, p)| ==> 1 <= Filter(ls, p)[i].id < next
    ensures DistinctWithinGroups(ls, LessonModule, LessonOrder) ==>
              DistinctWithinGroups(Filter(ls, p), LessonModule, LessonOrder)
    ensures (forall i :: 0 <= i < |ls| ==> SingleContent(ls[i])) ==>
              forall i :: 0 <= i < |Filter(ls, p)| ==> SingleContent(Filter(ls, p)[i])
  {
    FilterKeepsTableInvariants(ls, p, LessonId, LessonModule, LessonOrder);
    var r := Filter(ls, p);
    forall i | 0 <= i < |r| ensures 1 <= r[i].id < next && ((forall k :: 0 <= k < |ls| ==> SingleContent(ls[k])) ==> SingleContent(r[i])) {
      var j :| 0 <= j < |ls| && ls[j] == r[i];
    }
  }

  /** The cascade keeps the lesson table's invariants. */
  lemma LessonsOutsideModuleKeeps(ls: seq<LessonRow>, m: int, next: int)
    requires UniqueBy(ls, LessonId)
    requires forall i :: 0 <= i < |ls| ==> 1 <= ls[i].id < next
    ensures UniqueBy(LessonsOutsideModule(ls, m), LessonId)
    ensures forall i :: 0 <= i < |LessonsOutsideModule(ls, m)| ==> 1 <= LessonsOutsideModule(ls, m)[i].id < next
    ensures DistinctWithinGroups(ls, LessonModule, LessonOrder) ==>
              DistinctWithinGroups(LessonsOutsideModule(ls, m), LessonModule, LessonOrder)
    ensures (forall i :: 0 <= i < |ls| ==> SingleContent(ls[i])) ==>
              forall i :: 0 <= i < |LessonsOutsideModule(ls, m)| ==> SingleContent(LessonsOutsideModule(ls, m)[i])
  {
    LessonsFilterKeeps(ls, (l: LessonRow) => l.moduleId != m, next);
  }

  /** Deleting one lesson keeps the lesson table's invariants. */
  lemma LessonsExceptKeeps(ls: seq<LessonRow>, id: int, next: int)
    requires UniqueBy(ls, LessonId)
    requires forall i :: 0 <= i < |ls| ==> 1 <= ls[i].id < next
    ensures UniqueBy(LessonsExcept(ls, id), LessonId)
    ensures forall i :: 0 <= i < |LessonsExcept(ls, id)| ==> 1 <= LessonsExcept(ls, id)[i].id < next
    ensures DistinctWithinGroups(ls, LessonModule, LessonOrder) ==>
              DistinctWithinGroups(LessonsExcept(ls, id), LessonModule, LessonOrder)
    ensures (forall i :: 0 <= i < |ls| ==> SingleContent(ls[i])) ==>
              forall i :: 0 <= i < |LessonsExcept(ls, id)| ==> SingleContent(LessonsExcept(ls, id)[i])
  {
    LessonsFilterKeeps(ls, (l: LessonRow) => l.id != id, next);
  }

  /** `(MAX(order) ?? 0) + 1` over the sibling orders `xs`. */
  function NextOrder(xs: seq<int>): (r: int)
    ensures xs == [] ==> r == 1
    ensures forall i :: 0 <= i < |xs| ==> xs[i] < r
    ensures xs != [] ==> r - 1 in xs
  {
    MaxOf(xs).GetOr(0) + 1
  }

  /** The next module order of course `c`, read from the table `ms`. */
  function NextModuleOrderIn(ms: seq<ModuleRow>, c: int): int {
    NextOrder(Column(ModulesOfCourse(ms, c), ModuleOrder))
  }

  /** The next lesson order of module `m`, read from the table `ls`. */
  function NextLessonOrderIn(ls: seq<LessonRow>, m: int): int {
    NextOrder(Column(LessonsOfModule(ls, m), LessonOrder))
  }

  /** Modules of other courses do not move a course's next order. */
  lemma NextModuleOrderIgnoresOtherCourses(ms: seq<ModuleRow>, other: ModuleRow, c: int)
    requires other.courseId != c
    ensures NextModuleOrderIn(ms + [other], c) == NextModuleOrderIn(ms, c)
    ensures NextModuleOrderIn([other] + ms, c) == NextModuleOrderIn(ms, c)
  {
    var p := (m: ModuleRow) => m.courseId == c;
    FilterAppend(ms, [other], p);
    FilterAppend([other], ms, p);
    assert Filter([other], p) == [] by {
      assert [other][1..] == [];
    }
    assert ModulesOfCourse(ms + [other], c) == ModulesOfCourse(ms, c);
    assert ModulesOfCourse([other] + ms, c) == ModulesOfCourse(ms, c);
  }

  /** Lessons of other modules do not move a module's next order. */
  lemma NextLessonOrderIgnoresOtherModules(ls: seq<LessonRow>, other: LessonRow, m: int)
    requires other.moduleId != m
    ensures NextLessonOrderIn(ls + [other], m) == NextLessonOrderIn(ls, m)
    ensures NextLessonOrderIn([other] + ls, m) == NextLessonOrderIn(ls, m)
  {
    var p := (l: LessonRow) => l.moduleId == m;
    FilterAppend(ls, [other], p);
    FilterAppend([other], ls, p);
    assert Filter([other], p) == [] by {
      assert [other][1..] == [];
    }
    assert LessonsOfModule(ls + [other], m) == LessonsOfModule(ls, m);
    assert LessonsOfModule([other] + ls, m) == LessonsOfModule(ls, m);
  }

  /** The ids present in the module table. */
  ghost function ModuleIds(ms: seq<ModuleRow>): set<int> {
    set m | m in ms :: m.id
  }

  /**
   * The cascade, applied to a module table and a lesson table whose lessons
   * all name a stored module, leaves lessons that all name a remaining module.
   */
  lemma CascadeKeepsOwners(ms: seq<ModuleRow>, ls: seq<LessonRow>, id: int)
    requires forall i :: 0 <= i < |ls| ==> ls[i].moduleId in ModuleIds(ms)
    ensures forall i :: 0 <= i < |LessonsOutsideModule(ls, id)| ==>
              LessonsOutsideModule(ls, id)[i].moduleId in ModuleIds(ModulesExcept(ms, id))
  {
    var r := LessonsOutsideModule(ls, id);
    var rest := ModulesExcept(ms, id);
    forall i | 0 <= i < |r| ensures r[i].moduleId in ModuleIds(rest) {
      var a :| 0 <= a < |ls| && ls[a] == r[i];
      var m :| m in ms && m.id == ls[a].moduleId;
      var b :| 0 <= b < |ms| && ms[b] == m;
      assert m in rest;
    }
  }

  /** The lesson `l` after an `UPDATE` with `e`: only the four content columns change. */
  function ApplyEdit(l: LessonRow, e: LessonEdit): (r: LessonRow)
    ensures r.id == l.id && r.moduleId == l.moduleId && r.order == l.order
    ensures r.title == e.title && r.contentType == e.contentType
    ensures r.contentPath == e.contentPath && r.contentText == e.contentText
  {
    l.(title := e.title, contentType := e.contentType,
       contentPath := e.contentPath, contentText := e.contentText)
  }

  /** The lessons table after `UPDATE ... WHERE id = lessonId`: that row edited, every other row and the order kept. */
  function EditLessons(ls: seq<LessonRow>, lessonId: int, e: LessonEdit): (r: seq<LessonRow>)
    ensures |r| == |ls|
    ensures forall i :: 0 <= i < |ls| ==> r[i] == if ls[i].id == lessonId then ApplyEdit(ls[i], e) else ls[i]
  {
    seq(|ls|, i requires 0 <= i < |ls| => if ls[i].id == lessonId then ApplyEdit(ls[i], e) else ls[i])
  }

  /** The two tables, with the auto-increment counters that hand out ids. */
  class ContentStore {
    var modules: seq<ModuleRow>
    var lessons: seq<LessonRow>
    var nextModuleId: int
    var nextLessonId: int

    /** Ids are positive, unique, and below the auto-increment counter. */
    ghost predicate Valid()
      reads this
    {
      && 1 <= nextModuleId && 1 <= nextLessonId
      && (forall i :: 0 <= i < |modules| ==> 1 <= modules[i].id < nextModuleId)
      && (forall i :: 0 <= i < |lessons| ==> 1 <= lessons[i].id < nextLessonId)
      && UniqueBy(modules, ModuleId)
      && UniqueBy(lessons, LessonId)
    }

    /** No two modules of one course, and no two lessons of one module, share an order. */
    ghost predicate SiblingOrdersDistinct()
      reads this
    {
      && DistinctWithinGroups(modules, ModuleCourse, ModuleOrder)
      && DistinctWithinGroups(lessons, LessonModule, LessonOrder)
    }

    /** No lesson carries both a path (video id or PDF) and an inline text. */
    ghost predicate NoDualContent()
      reads this
    {
      forall i :: 0 <= i < |lessons| ==> SingleContent(lessons[i])
    }

    /** Every lesson names a stored module: the foreign key `module_id`. */
    ghost predicate LessonsHaveModules()
      reads this
    {
      forall i :: 0 <= i < |lessons| ==> lessons[i].moduleId in ModuleIds(modules)
    }

    constructor ()
      ensures Valid() && SiblingOrdersDistinct() && NoDualContent() && LessonsHaveModules()
      ensures modules == [] && lessons == []
    {
      modules, lessons := [], [];
      nextModuleId, nextLessonId := 1, 1;
    }

    /** `getNextModuleOrder`: one more than the largest order among the course's modules, 1 if none. */
    function NextModuleOrder(courseId: int): (r: int)
      reads this
      ensures (forall i :: 0 <= i < |modules| ==> modules[i].courseId != courseId) ==> r == 1
      ensures forall i :: 0 <= i < |modules| && modules[i].courseId == courseId ==> modules[i].order < r
      ensures (exists i :: 0 <= i < |modules| && modules[i].courseId == courseId)
                ==> exists i :: 0 <= i < |modules| && modules[i].courseId == courseId && modules[i].order == r - 1
    {
      var sib := ModulesOfCourse(modules, courseId);
      assert forall i :: 0 <= i < |modules| && modules[i].courseId == courseId ==> modules[i] in sib;
      assert (exists i :: 0 <= i < |modules| && modules[i].courseId == courseId) ==> sib != [];
      assert sib != [] ==> sib[0] in modules;
      NextModuleOrderIn(modules, courseId)
    }

    /** `getNextLessonOrder`: one more than the largest order among the module's lessons, 1 if none. */
    function NextLessonOrder(moduleId: int): (r: int)
      reads this
      ensures (forall i :: 0 <= i < |lessons| ==> lessons[i].moduleId != moduleId) ==> r == 1
      ensures forall i :: 0 <= i < |lessons| && lessons[i].moduleId == moduleId ==> lessons[i].order < r
      ensures (exists i :: 0 <= i < |lessons| && lessons[i].moduleId == moduleId)
                ==> exists i :: 0 <= i < |lessons| && lessons[i].moduleId == moduleId && lessons[i].order == r - 1
    {
      var sib := LessonsOfModule(lessons, moduleId);
      assert forall i :: 0 <= i < |lessons| && lessons[i].moduleId == moduleId ==> lessons[i] in sib;
      assert (exists i :: 0 <= i < |lessons| && lessons[i].moduleId == moduleId) ==> sib != [];
      assert sib != [] ==> sib[0] in lessons;
      NextLessonOrderIn(lessons, moduleId)
    }

    /** `findModuleById`: the row with that id, or null. */
    function FindModuleById(moduleId: int): (r: Option<ModuleRow>)
      reads this
      ensures r.Some? ==> r.value in modules && r.value.id == moduleId
      ensures r.None? <==> forall i :: 0 <= i < |modules| ==> modules[i].id != moduleId
    {
      var hits := Filter(modules, (m: ModuleRow) => m.id == moduleId);
      if hits == [] then None else Some(hits[0])
    }

    /** `findLessonById`: the row with that id, or null. */
    function FindLessonById(lessonId: int): (r: Option<LessonRow>)
      reads this
      ensures r.Some? ==> r.value in lessons && r.value.id == lessonId
      ensures r.None? <==> forall i :: 0 <= i < |lessons| ==> lessons[i].id != lessonId
    {
      var hits := Filter(lessons, (l: LessonRow) => l.id == lessonId);
      if hits == [] then None else Some(hits[0])
    }

    /** The course's modules, `ORDER BY order ASC`. */
    function CourseModules(courseId: int): (r: seq<ModuleRow>)
      reads this
    {
      SortByKey(ModulesOfCourse(modules, courseId), ModuleOrder)
    }

    /** The module's lessons, `ORDER BY order ASC`. */
    function ModuleLessons(moduleId: int): (r: seq<LessonRow>)
      reads this
    {
      SortByKey(LessonsOfModule(lessons, moduleId), LessonOrder)
    }

    /** The module query returns exactly the course's modules, by ascending order. */
    lemma CourseModulesSpec(courseId: int)
      ensures forall i :: 0 <= i < |CourseModules(courseId)| ==>
                CourseModules(courseId)[i] in modules && CourseModules(courseId)[i].courseId == courseId
      ensures forall i :: 0 <= i < |modules| && modules[i].courseId == courseId ==> modules[i] in CourseModules(courseId)
      ensures SortedBy(CourseModules(courseId), ModuleOrder)
    {
      var sib := ModulesOfCourse(modules, courseId);
      var r := SortByKey(sib, ModuleOrder);
      forall x ensures x in r <==> x in sib { SortByKeyMembers(sib, ModuleOrder, x); }
      forall i | 0 <= i < |r| ensures r[i] in sib { SortByKeyElement(sib, ModuleOrder, i); }
    }

    /** The lesson query returns exactly the module's lessons, by ascending order. */
    lemma ModuleLessonsSpec(moduleId: int)
      ensures forall i :: 0 <= i < |ModuleLessons(moduleId)| ==>
                ModuleLessons(moduleId)[i] in lessons && ModuleLessons(moduleId)[i].moduleId == moduleId
      ensures forall i :: 0 <= i < |lessons| && lessons[i].moduleId == moduleId ==> lessons[i] in ModuleLessons(moduleId)
      ensures SortedBy(ModuleLessons(moduleId), LessonOrder)
    {
      var sib := LessonsOfModule(lessons, moduleId);
      var r := SortByKey(sib, LessonOrder);
      forall x ensures x in r <==> x in sib { SortByKeyMembers(sib, LessonOrder, x); }
      forall i | 0 <= i < |r| ensures r[i] in sib { SortByKeyElement(sib, LessonOrder, i); }
    }

    /**
     * The nested read-model of a course: its modules in ascending order,
     * each paired with its own lessons in ascending order.
     */
    function Listing(courseId: int): (r: seq<ModuleView>)
      reads this
      ensures |r| == |CourseModules(courseId)|
      ensures forall i :: 0 <= i < |r| ==>
                r[i].row == CourseModules(courseId)[i] && r[i].lessons == ModuleLessons(r[i].row.id)
    {
      WithLessons(CourseModules(courseId))
    }

    /** The listing holds exactly the course's modules, by ascending order, each with its own lessons; no content gives an empty listing. */
    lemma ListingSpec(courseId: int)
      ensures forall i :: 0 <= i < |Listing(courseId)| ==>
                Listing(courseId)[i].row in modules && Listing(courseId)[i].row.courseId == courseId
      ensures forall i :: 0 <= i < |modules| && modules[i].courseId == courseId ==>
                exists k :: 0 <= k < |Listing(courseId)| && Listing(courseId)[k].row == modules[i]
      ensures forall i, j :: 0 <= i < j < |Listing(courseId)| ==> Listing(courseId)[i].row.order <= Listing(courseId)[j].row.order
      ensures (forall i :: 0 <= i < |modules| ==> modules[i].courseId != courseId) ==> Listing(courseId) == []
    {
      var ms := CourseModules(courseId);
      var r := Listing(courseId);
      CourseModulesSpec(courseId);
      forall i | 0 <= i < |modules| && modules[i].courseId == courseId
        ensures exists k :: 0 <= k < |r| && r[k].row == modules[i]
      {
        var k :| 0 <= k < |ms| && ms[k] == modules[i];
        assert r[k].row == modules[i];
      }
      forall i, j | 0 <= i < j < |r| ensures r[i].row.order <= r[j].row.order {
        assert ModuleOrder(ms[i]) <= ModuleOrder(ms[j]);
      }
      if ms != [] {
        assert ms[0] in modules;
      }
    }

    /** Each module of the listing carries exactly its own lessons, by ascending order. */
    lemma ListingLessonsSpec(courseId: int, i: int)
      requires 0 <= i < |Listing(courseId)|
      ensures forall k :: 0 <= k < |Listing(courseId)[i].lessons| ==>
                Listing(courseId)[i].lessons[k] in lessons
                && Listing(courseId)[i].lessons[k].moduleId == Listing(courseId)[i].row.id
      ensures forall k :: 0 <= k < |lessons| && lessons[k].moduleId == Listing(courseId)[i].row.id ==>
                lessons[k] in Listing(courseId)[i].lessons
      ensures SortedBy(Listing(courseId)[i].lessons, LessonOrder)
    {
      var r := Listing(courseId);
      assert r[i].lessons == ModuleLessons(r[i].row.id);
      ModuleLessonsSpec(r[i].row.id);
    }

    /** Pairs each module of `ms` with its lessons, keeping the order of `ms`. */
    function WithLessons(ms: seq<ModuleRow>): (r: seq<ModuleView>)
      reads this
      ensures |r| == |ms|
      ensures forall i :: 0 <= i < |ms| ==> r[i] == ModuleView(ms[i], ModuleLessons(ms[i].id))
    {
      if ms == [] then []
      else
        var rest := WithLessons(ms[1..]);
        assert forall i :: 1 <= i < |ms| ==> rest[i - 1] == ModuleView(ms[i], ModuleLessons(ms[i].id));
        [ModuleView(ms[0], ModuleLessons(ms[0].id))] + rest
    }

    /** `findModulesWithLessons`: selects the modules, then attaches to each its lessons. */
    method FindModulesWithLessons(courseId: int) returns (listing: seq<ModuleView>)
      ensures listing == Listing(courseId)
    {
      listing := AttachLessons(CourseModules(courseId));
    }

    /** The loop of `findModulesWithLessons`: fetches the lessons of each module in turn. */
    method AttachLessons(ms: seq<ModuleRow>) returns (listing: seq<ModuleView>)
      ensures listing == WithLessons(ms)
    {
      listing := seq(|ms|, i requires 0 <= i < |ms| => ModuleView(ms[i], []));
      for k := 0 to |ms|
        invariant |listing| == |ms|
        invariant forall i :: 0 <= i < k ==> listing[i] == ModuleView(ms[i], ModuleLessons(ms[i].id))
        invariant forall i :: k <= i < |ms| ==> listing[i].row == ms[i]
      {
        listing := listing[k := listing[k].(lessons := ModuleLessons(ms[k].id))];
      }
    }

    /**
     * With orders distinct among siblings, the listing's modules are strictly
     * ascending, and so are the lessons within each module.
     */
    lemma ListingStrictlyAscending(courseId: int)
      requires Valid() && SiblingOrdersDistinct()
      ensures forall i, j :: 0 <= i < j < |Listing(courseId)| ==>
                Listing(courseId)[i].row.order < Listing(courseId)[j].row.order
      ensures forall i :: 0 <= i < |Listing(courseId)| ==>
                StrictlyAscending(Listing(courseId)[i].lessons, LessonOrder)
    {
      CourseModulesAscending(courseId);
      var r := Listing(courseId);
      forall i | 0 <= i < |r| ensures StrictlyAscending(r[i].lessons, LessonOrder) {
        ModuleLessonsAscending(r[i].row.id);
      }
    }

    /** With orders distinct among siblings, the course listing is strictly ascending. */
    lemma CourseModulesAscending(courseId: int)
      requires Valid() && SiblingOrdersDistinct()
      ensures StrictlyAscending(CourseModules(courseId), ModuleOrder)
    {
      var sib := ModulesOfCourse(modules, courseId);
      FilterKeepsTableInvariants(modules, (m: ModuleRow) => m.courseId == courseId, ModuleId, ModuleCourse, ModuleOrder);
      GroupKeysDistinct(modules, sib, ModuleId, ModuleCourse, ModuleOrder, courseId);
      SortStrictlyAscending(sib, ModuleOrder);
    }

    /** With orders distinct among siblings, each module's lesson listing is strictly ascending. */
    lemma ModuleLessonsAscending(moduleId: int)
      requires Valid() && SiblingOrdersDistinct()
      ensures StrictlyAscending(ModuleLessons(moduleId), LessonOrder)
    {
      var sib := LessonsOfModule(lessons, moduleId);
      FilterKeepsTableInvariants(lessons, (l: LessonRow) => l.moduleId == moduleId, LessonId, LessonModule, LessonOrder);
      GroupKeysDistinct(lessons, sib, LessonId, LessonModule, LessonOrder, moduleId);
      SortStrictlyAscending(sib, LessonOrder);
    }

    /** `createModule`: inserts one module row with a fresh id. */
    method CreateModule(courseId: int, title: string, order: int)
      requires Valid()
      modifies this
      ensures Valid()
      ensures modules == old(modules) + [ModuleRow(old(nextModuleId), courseId, title, order)]
      ensures lessons == old(lessons)
      ensures nextModuleId == old(nextModuleId) + 1 && nextLessonId == old(nextLessonId)
      ensures (old(SiblingOrdersDistinct())
                 && forall i :: 0 <= i < |old(modules)| && old(modules)[i].courseId == courseId ==> old(modules)[i].order != order)
              ==> SiblingOrdersDistinct()
      ensures old(NoDualContent()) ==> NoDualContent()
      ensures old(LessonsHaveModules()) ==> LessonsHaveModules()
    {
      assert forall m :: m in modules ==> m in modules + [ModuleRow(nextModuleId, courseId, title, order)];
      modules := modules + [ModuleRow(nextModuleId, courseId, title, order)];
      nextModuleId := nextModuleId + 1;
    }

    /** `deleteModule`: removes the module and, by the cascade on `module_id`, its lessons. */
    method DeleteModule(moduleId: int)
      requires Valid()
      modifies this
      ensures Valid()
      ensures modules == ModulesExcept(old(modules), moduleId)
      ensures lessons == LessonsOutsideModule(old(lessons), moduleId)
      ensures nextModuleId == old(nextModuleId) && nextLessonId == old(nextLessonId)
      ensures old(SiblingOrdersDistinct()) ==> SiblingOrdersDistinct()
      ensures old(NoDualContent()) ==> NoDualContent()
      ensures old(LessonsHaveModules()) ==> LessonsHaveModules()
    {
      if LessonsHaveModules() {
        CascadeKeepsOwners(modules, lessons, moduleId);
      }
      RemoveModuleRow(moduleId);
      CascadeToLessons(moduleId);
    }

    /** Deleting a module that is not stored changes neither table: no lesson can name it. */
    lemma DeleteAbsentModule(moduleId: int)
      requires LessonsHaveModules() && FindModuleById(moduleId).None?
      ensures ModulesExcept(modules, moduleId) == modules
      ensures LessonsOutsideModule(lessons, moduleId) == lessons
    {
      FilterAll(modules, (m: ModuleRow) => m.id != moduleId);
      assert moduleId !in ModuleIds(modules);
      FilterAll(lessons, (l: LessonRow) => l.moduleId != moduleId);
    }

    /** The `DELETE` on `course_modules` itself. */
    method RemoveModuleRow(moduleId: int)
      requires Valid()
      modifies this
      ensures Valid()
      ensures modules == ModulesExcept(old(modules), moduleId)
      ensures lessons == old(lessons)
      ensures nextModuleId == old(nextModuleId) && nextLessonId == old(nextLessonId)
      ensures old(SiblingOrdersDistinct()) ==> SiblingOrdersDistinct()
      ensures old(NoDualContent()) ==> NoDualContent()
    {
      ModulesExceptKeeps(modules, moduleId, nextModuleId);
      modules := ModulesExcept(modules, moduleId);
    }

    /** What `ON DELETE CASCADE` does to `course_lessons` when module `moduleId` goes. */
    method CascadeToLessons(moduleId: int)
      requires Valid()
      modifies this
      ensures Valid()
      ensures lessons == LessonsOutsideModule(old(lessons), moduleId)
      ensures modules == old(modules)
      ensures nextModuleId == old(nextModuleId) && nextLessonId == old(nextLessonId)
      ensures old(SiblingOrdersDistinct()) ==> SiblingOrdersDistinct()
      ensures old(NoDualContent()) ==> NoDualContent()
    {
      LessonsOutsideModuleKeeps(lessons, moduleId, nextLessonId);
      lessons := LessonsOutsideModule(lessons, moduleId);
    }

    /** `createLesson`: inserts one lesson row with a fresh id. */
    method CreateLesson(data: NewLesson)
      requires Valid()
      modifies this
      ensures Valid()
      ensures lessons == old(lessons) + [LessonRow(old(nextLessonId), data.moduleId, data.title, data.contentType,
                                                   data.contentPath, data.contentText, data.order)]
      ensures modules == old(modules)
      ensures nextLessonId == old(nextLessonId) + 1 && nextModuleId == old(nextModuleId)
      ensures (old(SiblingOrdersDistinct())
                 && forall i :: 0 <= i < |old(lessons)| && old(lessons)[i].moduleId == data.moduleId ==> old(lessons)[i].order != data.order)
              ==> SiblingOrdersDistinct()
      ensures old(NoDualContent()) && (data.contentPath.None? || data.contentText.None?) ==> NoDualContent()
      ensures old(LessonsHaveModules()) && data.moduleId in ModuleIds(old(modules)) ==> LessonsHaveModules()
    {
      lessons := lessons + [LessonRow(nextLessonId, data.moduleId, data.title, data.contentType,
                                      data.contentPath, data.contentText, data.order)];
      nextLessonId := nextLessonId + 1;
    }

    /** `updateLesson`: rewrites title, content type, path and text of the lesson with that id. */
    method UpdateLesson(lessonId: int, edit: LessonEdit)
      requires Valid()
      modifies this
      ensures Valid()
      ensures lessons == EditLessons(old(lessons), lessonId, edit)
      ensures modules == old(modules)
      ensures nextModuleId == old(nextModuleId) && nextLessonId == old(nextLessonId)
      ensures old(SiblingOrdersDistinct()) ==> SiblingOrdersDistinct()
      ensures old(NoDualContent()) && (edit.contentPath.None? || edit.contentText.None?) ==> NoDualContent()
      ensures old(LessonsHaveModules()) ==> LessonsHaveModules()
    {
      lessons := EditLessons(lessons, lessonId, edit);
    }

    /** `deleteLesson`: removes exactly the lesson with that id. */
    method DeleteLesson(lessonId: int)
      requires Valid()
      modifies this
      ensures Valid()
      ensures lessons == LessonsExcept(old(lessons), lessonId)
      ensures modules == old(modules)
      ensures nextModuleId == old(nextModuleId) && nextLessonId == old(nextLessonId)
      ensures old(SiblingOrdersDistinct()) ==> SiblingOrdersDistinct()
      ensures old(NoDualContent()) ==> NoDualContent()
      ensures old(LessonsHaveModules()) ==> LessonsHaveModules()
    {
      LessonsExceptKeeps(lessons, lessonId, nextLessonId);
      lessons := LessonsExcept(lessons, lessonId);
    }
  }
}
