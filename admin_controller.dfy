/**
 * The administrator's handlers: course form validation and submission,
 * module and lesson creation, lesson editing and deletion.  The request
 * arrives as explicit parameters (`isPost`, the `$_POST` map, the uploaded
 * file with what the file system answers about it); the redirect and flash
 * message each handler ends with becomes a returned outcome.
 */
module AdminController {
  import opened Wrappers
  import opened PhpStrings
  import opened ContentModel
  import opened Uploads

  /** `$_POST[$key] ?? null`. */
  function Lookup(post: map<string, string>, key: string): (r: Option<string>)
    ensures r.Some? <==> key in post
    ensures r.Some? ==> r.value == post[key]
  {
    if key in post then Some(post[key]) else None
  }

  // ---------------------------------------------------------------------
  // Course form
  // ---------------------------------------------------------------------

  /** The required course fields and the labels the error message uses, in the order they are checked. */
  const RequiredFields: seq<(string, string)> := [
    ("title", "Título"),
    ("description", "Descrição"),
    ("instructor", "Instrutor"),
    ("workload", "Carga Horária"),
    ("target_audience", "Público-alvo"),
    ("format", "Formato"),
    ("level", "Nível"),
    ("modality", "Modalidade"),
    ("category", "Categoria"),
    ("status", "Status")
  ]

  /** `isset($post[$field]) && !empty(trim($post[$field]))`. */
  predicate Filled(post: map<string, string>, field: string) {
    field in post && !IsEmpty(Trim(post[field]))
  }

  function RequiredMessage(fieldName: string): string {
    "O campo '" + fieldName + "' é obrigatório."
  }

  /** The message for the first field of `fields` that is not filled, if any. */
  function FirstMissing(post: map<string, string>, fields: seq<(string, string)>): (r: Option<string>)
    ensures r.None? <==> forall i :: 0 <= i < |fields| ==> Filled(post, fields[i].0)
    ensures r.Some? ==>
              exists k :: 0 <= k < |fields| && !Filled(post, fields[k].0) && r.value == RequiredMessage(fields[k].1)
                          && forall j :: 0 <= j < k ==> Filled(post, fields[j].0)
  {
    if fields == [] then None
    else if !Filled(post, fields[0].0) then Some(RequiredMessage(fields[0].1))
    else
      var rest := FirstMissing(post, fields[1..]);
      FirstMissingTail(post, fields, rest);
      rest
  }

  /** When the first field is filled, the answer for the rest is the answer for all. */
  lemma FirstMissingTail(post: map<string, string>, fields: seq<(string, string)>, rest: Option<string>)
    requires fields != [] && Filled(post, fields[0].0)
    requires rest.None? <==> forall i :: 0 <= i < |fields[1..]| ==> Filled(post, fields[1..][i].0)
    requires rest.Some? ==>
               exists k :: 0 <= k < |fields[1..]| && !Filled(post, fields[1..][k].0) && rest.value == RequiredMessage(fields[1..][k].1)
                           && forall j :: 0 <= j < k ==> Filled(post, fields[1..][j].0)
    ensures rest.None? <==> forall i :: 0 <= i < |fields| ==> Filled(post, fields[i].0)
    ensures rest.Some? ==>
              exists k :: 0 <= k < |fields| && !Filled(post, fields[k].0) && rest.value == RequiredMessage(fields[k].1)
                          && forall j :: 0 <= j < k ==> Filled(post, fields[j].0)
  {
    assert forall i :: 1 <= i < |fields| ==> fields[i] == fields[1..][i - 1];
    if rest.Some? {
      var k :| 0 <= k < |fields[1..]| && !Filled(post, fields[1..][k].0) && rest.value == RequiredMessage(fields[1..][k].1)
               && forall j :: 0 <= j < k ==> Filled(post, fields[1..][j].0);
      assert forall j :: 0 <= j < k + 1 ==> Filled(post, fields[j].0) by {
        forall j | 0 <= j < k + 1 ensures Filled(post, fields[j].0) {
          if j > 0 { assert fields[j] == fields[1..][j - 1]; }
        }
      }
      assert fields[k + 1] == fields[1..][k];
    }
  }

  /** All ten required fields are filled. */
  predicate AllRequiredFilled(post: map<string, string>) {
    forall i :: 0 <= i < |RequiredFields| ==> Filled(post, RequiredFields[i].0)
  }

  /** `validateCourseData`: the fields are checked in order and the first empty one is reported. */
  method ValidateCourseData(post: map<string, string>) returns (error: Option<string>)
    ensures error == FirstMissing(post, RequiredFields)
    ensures error.None? <==> AllRequiredFilled(post)
  {
    error := CheckFields(post, RequiredFields);
  }

  /** The loop of `validateCourseData`: walks `fields` in order and stops at the first one not filled. */
  method CheckFields(post: map<string, string>, fields: seq<(string, string)>) returns (error: Option<string>)
    ensures error == FirstMissing(post, fields)
  {
    var i := 0;
    while i < |fields|
      invariant 0 <= i <= |fields|
      invariant FirstMissing(post, fields[i..]) == FirstMissing(post, fields)
    {
      FirstMissingAt(post, fields, i);
      if !Filled(post, fields[i].0) {
        return Some(RequiredMessage(fields[i].1));
      }
      i := i + 1;
    }
    assert fields[i..] == [];
    return None;
  }

  /** Checking the fields from position `i` on: the field at `i` either is the answer or is skipped. */
  lemma FirstMissingAt(post: map<string, string>, fields: seq<(string, string)>, i: int)
    requires 0 <= i < |fields|
    ensures !Filled(post, fields[i].0) ==> FirstMissing(post, fields[i..]) == Some(RequiredMessage(fields[i].1))
    ensures Filled(post, fields[i].0) ==> FirstMissing(post, fields[i..]) == FirstMissing(post, fields[i + 1..])
  {
    assert fields[i..][1..] == fields[i + 1..];
  }

  /** `"0"` counts as missing: a course titled `0` is refused with the title message. */
  lemma ZeroTitleRefused(post: map<string, string>)
    requires "title" in post && post["title"] == "0"
    ensures FirstMissing(post, RequiredFields) == Some(RequiredMessage("Título"))
  {
    TrimOfClean("0");
  }

  /** A value that trims to nothing counts as missing too: a blank title is refused with the title message. */
  lemma BlankTitleRefused(post: map<string, string>)
    requires "title" in post && Trim(post["title"]) == ""
    ensures FirstMissing(post, RequiredFields) == Some(RequiredMessage("Título"))
  {
  }

  /** For instance a title of a space and a tab. */
  lemma SpaceTabTrimsAway()
    ensures Trim(" \t") == ""
  {
    assert LeadingTrimmed(" \t") == 2;
  }

  /** `empty($_POST['price']) ? 0.00 : $_POST['price']`: the price stays an opaque posted text. */
  datatype Price = ZeroPrice | PostedPrice(text: string)

  /** The `$data` array handed to the course model. */
  datatype CourseData = CourseData(
    title: string, description: string, instructor: string, price: Price, imageUrl: Option<string>,
    status: string, workload: string, targetAudience: string, format: string, level: string,
    modality: string, category: string)

  /** How a create or update request for a course ends. */
  datatype CourseFormOutcome =
    | FormEmpty                          // `$_POST` empty: the body exceeded `post_max_size`
    | FormInvalid(message: string)
    | ImageRejected(error: UploadError)
    | CourseSubmitted(data: CourseData)

  function PriceOf(post: map<string, string>): (p: Price)
    ensures p == ZeroPrice <==> "price" !in post || IsEmpty(post["price"])
  {
    if "price" !in post || IsEmpty(post["price"]) then ZeroPrice else PostedPrice(post["price"])
  }

  function UploadedPath(u: UploadResult): Option<string> {
    if u.Stored? then Some(u.path) else None
  }

  /** The ten required columns of a course, in the order they are validated. */
  function RequiredColumns(d: CourseData): seq<string> {
    [d.title, d.description, d.instructor, d.workload, d.targetAudience,
     d.format, d.level, d.modality, d.category, d.status]
  }

  /** Every required field is present in the form, filled or not. */
  predicate AllRequiredPresent(post: map<string, string>) {
    forall i :: 0 <= i < |RequiredFields| ==> RequiredFields[i].0 in post
  }

  /** The posted value of the `i`-th required field. */
  function Field(post: map<string, string>, i: int): string
    requires 0 <= i < |RequiredFields| && AllRequiredPresent(post)
  {
    post[RequiredFields[i].0]
  }

  /** The course columns taken from a validated form, each from its own field. */
  function FormData(post: map<string, string>, imageUrl: Option<string>): (d: CourseData)
    requires AllRequiredPresent(post)
    ensures forall i :: 0 <= i < |RequiredFields| ==> RequiredColumns(d)[i] == Field(post, i)
    ensures d.price == PriceOf(post) && d.imageUrl == imageUrl
  {
    var d := CourseData(
      Field(post, 0), Field(post, 1), Field(post, 2), PriceOf(post), imageUrl,
      Field(post, 9), Field(post, 3), Field(post, 4), Field(post, 5), Field(post, 6),
      Field(post, 7), Field(post, 8));
    assert RequiredColumns(d) == seq(10, i requires 0 <= i < 10 => Field(post, i));
    d
  }

  /** The steps `createCourse` and `updateCourse` share: empty body, validation, image upload. */
  function CourseForm(post: map<string, string>, image: Option<UploadedFile>, env: UploadEnv, fallback: Option<string>): (r: CourseFormOutcome)
    ensures r == FormEmpty <==> post == map[]
    ensures r.FormInvalid? <==> post != map[] && !AllRequiredFilled(post)
    ensures r.FormInvalid? ==> Some(r.message) == FirstMissing(post, RequiredFields)
    ensures r.ImageRejected? <==> post != map[] && AllRequiredFilled(post) && HandleImageUpload(image, env).Rejected?
    ensures r.ImageRejected? ==> r.error == HandleImageUpload(image, env).error
    ensures r.CourseSubmitted? ==>
              && (forall i :: 0 <= i < |RequiredFields| ==> !IsEmpty(Trim(RequiredColumns(r.data)[i])))
              && r.data.price == PriceOf(post)
              && r.data.imageUrl == if HandleImageUpload(image, env).Stored? then Some(HandleImageUpload(image, env).path) else fallback
    ensures r.CourseSubmitted? ==> AllRequiredPresent(post) && r.data == FormData(post, r.data.imageUrl)
  {
    if post == map[] then FormEmpty
    else match FirstMissing(post, RequiredFields)
      case Some(message) => FormInvalid(message)
      case None =>
        var upload := HandleImageUpload(image, env);
        if upload.Rejected? then ImageRejected(upload.error)
        else
          var d := ValidatedData(post, if upload.Stored? then Some(upload.path) else fallback);
          CourseSubmitted(d)
  }

  /** A form whose required fields are all filled yields columns that are all filled. */
  function ValidatedData(post: map<string, string>, imageUrl: Option<string>): (d: CourseData)
    requires AllRequiredFilled(post)
    ensures AllRequiredPresent(post) && d == FormData(post, imageUrl)
    ensures forall i :: 0 <= i < |RequiredFields| ==> !IsEmpty(Trim(RequiredColumns(d)[i]))
  {
    assert AllRequiredPresent(post) by {
      forall i | 0 <= i < |RequiredFields| ensures RequiredFields[i].0 in post {
        assert Filled(post, RequiredFields[i].0);
      }
    }
    var d := FormData(post, imageUrl);
    assert forall i :: 0 <= i < |RequiredFields| ==> Filled(post, RequiredFields[i].0);
    d
  }

  /** `createCourse`: a new course takes the uploaded image's path, or none. */
  function CreateCourse(post: map<string, string>, image: Option<UploadedFile>, env: UploadEnv): (r: CourseFormOutcome)
    ensures r.CourseSubmitted? ==> r.data.imageUrl == UploadedPath(HandleImageUpload(image, env))
    ensures !r.CourseSubmitted? ==> r == CourseForm(post, image, env, None)
  {
    CourseForm(post, image, env, None)
  }

  /** `updateCourse`: without a new upload the course keeps the posted `current_image_url`. */
  function UpdateCourse(post: map<string, string>, image: Option<UploadedFile>, env: UploadEnv): (r: CourseFormOutcome)
    ensures r.CourseSubmitted? && HandleImageUpload(image, env) == NoUpload ==> r.data.imageUrl == Lookup(post, "current_image_url")
    ensures r.CourseSubmitted? && HandleImageUpload(image, env).Stored? ==> r.data.imageUrl == Some(HandleImageUpload(image, env).path)
  {
    CourseForm(post, image, env, Lookup(post, "current_image_url"))
  }

  // ---------------------------------------------------------------------
  // Ownership
  // ---------------------------------------------------------------------

  /** `$module && $module['course_id'] == $courseId`. */
  predicate ModuleInCourse(moduleRow: Option<ModuleRow>, courseId: int) {
    moduleRow.Some? && moduleRow.value.courseId == courseId
  }

  /**
   * In a store with unique ids the module check, applied to what the lookup
   * returns, holds exactly when a stored module with that id belongs to the course.
   */
  lemma ModuleInCourseMeaning(store: ContentStore, courseId: int, moduleId: int)
    requires store.Valid()
    ensures ModuleInCourse(store.FindModuleById(moduleId), courseId)
            <==> exists j :: 0 <= j < |store.modules| && store.modules[j].id == moduleId && store.modules[j].courseId == courseId
  {
    var m := store.FindModuleById(moduleId);
    if exists j :: 0 <= j < |store.modules| && store.modules[j].id == moduleId && store.modules[j].courseId == courseId {
      var j :| 0 <= j < |store.modules| && store.modules[j].id == moduleId && store.modules[j].courseId == courseId;
      var a :| 0 <= a < |store.modules| && store.modules[a] == m.value;
      assert ModuleId(store.modules[a]) == ModuleId(store.modules[j]);
    }
  }

  /** `$lesson && $module && $lesson['module_id'] == $moduleId && $module['course_id'] == $courseId`. */
  predicate LessonInCourse(lesson: Option<LessonRow>, moduleRow: Option<ModuleRow>, courseId: int, moduleId: int) {
    lesson.Some? && moduleRow.Some? && lesson.value.moduleId == moduleId && moduleRow.value.courseId == courseId
  }

  /**
   * In a store with unique ids the lesson check, applied to what the two
   * lookups return, holds exactly when the lesson hangs under the module and
   * the module under the course.
   */
  lemma LessonInCourseMeaning(store: ContentStore, courseId: int, moduleId: int, lessonId: int)
    requires store.Valid()
    ensures LessonInCourse(store.FindLessonById(lessonId), store.FindModuleById(moduleId), courseId, moduleId)
            <==> exists i, j :: 0 <= i < |store.lessons| && 0 <= j < |store.modules|
                                && store.lessons[i].id == lessonId && store.lessons[i].moduleId == moduleId
                                && store.modules[j].id == moduleId && store.modules[j].courseId == courseId
  {
    LessonUnderModule(store, lessonId, moduleId);
    ModuleInCourseMeaning(store, courseId, moduleId);
    if LessonInCourse(store.FindLessonById(lessonId), store.FindModuleById(moduleId), courseId, moduleId) {
      var i :| 0 <= i < |store.lessons| && store.lessons[i].id == lessonId && store.lessons[i].moduleId == moduleId;
      var j :| 0 <= j < |store.modules| && store.modules[j].id == moduleId && store.modules[j].courseId == courseId;
      assert 0 <= i < |store.lessons| && 0 <= j < |store.modules|
             && store.lessons[i].id == lessonId && store.lessons[i].moduleId == moduleId
             && store.modules[j].id == moduleId && store.modules[j].courseId == courseId;
    }
  }

  /** The lesson lookup finds a lesson of module `moduleId` exactly when one with that id is stored under it. */
  lemma LessonUnderModule(store: ContentStore, lessonId: int, moduleId: int)
    requires store.Valid()
    ensures (store.FindLessonById(lessonId).Some? && store.FindLessonById(lessonId).value.moduleId == moduleId)
            <==> exists i :: 0 <= i < |store.lessons| && store.lessons[i].id == lessonId && store.lessons[i].moduleId == moduleId
  {
    var l := store.FindLessonById(lessonId);
    if exists i :: 0 <= i < |store.lessons| && store.lessons[i].id == lessonId && store.lessons[i].moduleId == moduleId {
      var i :| 0 <= i < |store.lessons| && store.lessons[i].id == lessonId && store.lessons[i].moduleId == moduleId;
      var a :| 0 <= a < |store.lessons| && store.lessons[a] == l.value;
      assert LessonId(store.lessons[a]) == LessonId(store.lessons[i]);
    } else if l.Some? {
      var a :| 0 <= a < |store.lessons| && store.lessons[a] == l.value;
    }
  }

  // ---------------------------------------------------------------------
  // Lesson content fields
  // ---------------------------------------------------------------------

  /** The outcome of an admin content action. */
  datatype AdminOutcome =
    | NotPost
    | ModuleTitleRequired
    | InvalidModule
    | InvalidLesson
    | LessonTitleRequired
    | UploadRejected(error: UploadError)
    | Done

  /** The two content columns a lesson write sets. */
  datatype Content = Content(path: Option<string>, text: Option<string>)

  /** What a lesson action decides: stop with an outcome, or write these content columns. */
  datatype LessonDecision = Halt(outcome: AdminOutcome) | Commit(content: Content)

  /** `$_POST[key] ?? default`: the posted value, or the default when the key is not posted. */
  function PostedOr(post: map<string, string>, key: string, default: string): (r: string)
    ensures key in post ==> r == post[key]
    ensures key !in post ==> r == default
  {
    Lookup(post, key).GetOr(default)
  }

  /** `$_POST['title'] ?? ''`. */
  function PostedTitle(post: map<string, string>): string {
    PostedOr(post, "title", "")
  }

  /** `$_POST['content_type'] ?? 'video'`. */
  function PostedType(post: map<string, string>): string {
    PostedOr(post, "content_type", "video")
  }

  /**
   * The content fields of `createLesson`: a video takes the posted id, a
   * text the posted body, a PDF the uploaded path (none without a file), and
   * any other type neither; a refused PDF upload stops the request.
   */
  function NewContent(post: map<string, string>, pdf: Option<UploadedFile>, env: UploadEnv): (r: LessonDecision)
    ensures r.Halt? <==> PostedType(post) == "pdf" && HandlePdfUpload(pdf, env).Rejected?
    ensures r.Halt? ==> r.outcome == UploadRejected(HandlePdfUpload(pdf, env).error)
    ensures r.Commit? ==> r.content.path.None? || r.content.text.None?
    ensures PostedType(post) == "video" ==> r == Commit(Content(Lookup(post, "content_path_video"), None))
    ensures PostedType(post) == "text" ==> r == Commit(Content(None, Lookup(post, "content_text")))
    ensures r.Commit? && PostedType(post) == "pdf" ==> r.content == Content(UploadedPath(HandlePdfUpload(pdf, env)), None)
    ensures PostedType(post) !in {"video", "text", "pdf"} ==> r == Commit(Content(None, None))
  {
    var contentType := PostedType(post);
    if contentType == "video" then Commit(Content(Lookup(post, "content_path_video"), None))
    else if contentType == "text" then Commit(Content(None, Lookup(post, "content_text")))
    else if contentType == "pdf" then
      var upload := HandlePdfUpload(pdf, env);
      if upload.Rejected? then Halt(UploadRejected(upload.error))
      else Commit(Content(UploadedPath(upload), None))
    else Commit(Content(None, None))
  }

  /** The `if`/`elseif` chain of `createLesson`, assigning `$contentPath` and `$contentText` step by step. */
  method ResolveNewContent(post: map<string, string>, pdf: Option<UploadedFile>, env: UploadEnv) returns (r: LessonDecision)
    ensures r == NewContent(post, pdf, env)
  {
    var contentType := PostedType(post);
    var contentPath: Option<string> := None;
    var contentText: Option<string> := None;
    if contentType == "video" {
      contentPath := Lookup(post, "content_path_video");
    } else if contentType == "text" {
      contentText := Lookup(post, "content_text");
    } else if contentType == "pdf" {
      var upload := HandlePdfUpload(pdf, env);
      if upload.Rejected? {
        return Halt(UploadRejected(upload.error));
      }
      contentPath := UploadedPath(upload);
    }
    r := Commit(Content(contentPath, contentText));
  }

  /** The guards of `createLesson`: the module must belong to the course and the title must not be empty. */
  function CreateLessonDecision(isPost: bool, moduleRow: Option<ModuleRow>, courseId: int, post: map<string, string>,
                                pdf: Option<UploadedFile>, env: UploadEnv): (r: LessonDecision)
    ensures r == Halt(NotPost) <==> !isPost
    ensures r == Halt(InvalidModule) <==> isPost && !ModuleInCourse(moduleRow, courseId)
    ensures r == Halt(LessonTitleRequired) <==> isPost && ModuleInCourse(moduleRow, courseId) && IsEmpty(PostedTitle(post))
    ensures isPost && ModuleInCourse(moduleRow, courseId) && !IsEmpty(PostedTitle(post)) ==> r == NewContent(post, pdf, env)
  {
    if !isPost then Halt(NotPost)
    else if !ModuleInCourse(moduleRow, courseId) then Halt(InvalidModule)
    else if IsEmpty(PostedTitle(post)) then Halt(LessonTitleRequired)
    else NewContent(post, pdf, env)
  }

  /**
   * The content fields of `updateLesson`: both columns start from the
   * lesson's current values; a video takes the posted id and clears the
   * text, a text takes the posted body and clears the path, a PDF clears the
   * text and takes a new upload's path if there is one, and any other type
   * changes neither.
   */
  function EditedContent(current: LessonRow, post: map<string, string>, pdf: Option<UploadedFile>, env: UploadEnv): (r: LessonDecision)
    ensures r.Halt? <==> PostedType(post) == "pdf" && HandlePdfUpload(pdf, env).Rejected?
    ensures r.Halt? ==> r.outcome == UploadRejected(HandlePdfUpload(pdf, env).error)
    ensures r.Commit? && SingleContent(current) ==> r.content.path.None? || r.content.text.None?
    ensures PostedType(post) == "video" ==> r == Commit(Content(Lookup(post, "content_path_video"), None))
    ensures PostedType(post) == "text" ==> r == Commit(Content(None, Lookup(post, "content_text")))
    ensures r.Commit? && PostedType(post) == "pdf" ==>
              r.content == Content(if HandlePdfUpload(pdf, env).Stored? then Some(HandlePdfUpload(pdf, env).path)
                                   else current.contentPath, None)
    ensures PostedType(post) !in {"video", "text", "pdf"} ==> r == Commit(Content(current.contentPath, current.contentText))
  {
    var contentType := PostedType(post);
    if contentType == "video" then Commit(Content(Lookup(post, "content_path_video"), None))
    else if contentType == "text" then Commit(Content(None, Lookup(post, "content_text")))
    else if contentType == "pdf" then
      var upload := HandlePdfUpload(pdf, env);
      StoredPdfPathNotEmpty(pdf, env);
      if upload.Rejected? then Halt(UploadRejected(upload.error))
      else if upload.Stored? && !IsEmpty(upload.path) then Commit(Content(Some(upload.path), None))
      else Commit(Content(current.contentPath, None))
    else Commit(Content(current.contentPath, current.contentText))
  }

  /** A stored PDF's public path starts with `/`, so the `!empty($upload['path'])` test passes. */
  lemma StoredPdfPathNotEmpty(pdf: Option<UploadedFile>, env: UploadEnv)
    ensures HandlePdfUpload(pdf, env).Stored? ==> !IsEmpty(HandlePdfUpload(pdf, env).path)
  {
  }

  /** The `if`/`elseif` chain of `updateLesson`, starting from the stored values and reassigning them step by step. */
  method ResolveEditedContent(current: LessonRow, post: map<string, string>, pdf: Option<UploadedFile>, env: UploadEnv)
      returns (r: LessonDecision)
    ensures r == EditedContent(current, post, pdf, env)
  {
    var contentType := PostedType(post);
    var contentPath := current.contentPath;
    var contentText := current.contentText;
    if contentType == "video" {
      contentPath := Lookup(post, "content_path_video");
      contentText := None;
    } else if contentType == "text" {
      contentText := Lookup(post, "content_text");
      contentPath := None;
    } else if contentType == "pdf" {
      var upload := HandlePdfUpload(pdf, env);
      if upload.Rejected? {
        return Halt(UploadRejected(upload.error));
      }
      if upload.Stored? && !IsEmpty(upload.path) {
        contentPath := Some(upload.path);
      }
      contentText := None;
    }
    r := Commit(Content(contentPath, contentText));
  }

  /**
   * The guards of `updateLesson`: the lesson must hang under the module,
   * the module under the course, and the title must not be empty.
   */
  function UpdateLessonDecision(isPost: bool, lesson: Option<LessonRow>, moduleRow: Option<ModuleRow>, courseId: int,
                                moduleId: int, post: map<string, string>, pdf: Option<UploadedFile>, env: UploadEnv): (r: LessonDecision)
    ensures r == Halt(NotPost) <==> !isPost
    ensures r == Halt(InvalidLesson) <==> isPost && !LessonInCourse(lesson, moduleRow, courseId, moduleId)
    ensures r == Halt(LessonTitleRequired) <==>
              isPost && LessonInCourse(lesson, moduleRow, courseId, moduleId) && IsEmpty(PostedTitle(post))
    ensures isPost && LessonInCourse(lesson, moduleRow, courseId, moduleId) && !IsEmpty(PostedTitle(post)) ==>
              r == EditedContent(lesson.value, post, pdf, env)
  {
    if !isPost then Halt(NotPost)
    else if !LessonInCourse(lesson, moduleRow, courseId, moduleId) then Halt(InvalidLesson)
    else if IsEmpty(PostedTitle(post)) then Halt(LessonTitleRequired)
    else EditedContent(lesson.value, post, pdf, env)
  }

  /**
   * Switching a video lesson to `pdf` without sending a file keeps the
   * video id in the path column: the lesson becomes a PDF lesson whose
   * path is not a PDF.
   */
  lemma PdfWithoutUploadKeepsVideoId(lesson: LessonRow, moduleRow: ModuleRow, post: map<string, string>, env: UploadEnv)
    requires lesson.contentType == "video" && lesson.contentPath.Some? && lesson.contentText.None?
    requires lesson.moduleId == moduleRow.id
    requires post == map["title" := "Aula", "content_type" := "pdf"]
    ensures UpdateLessonDecision(true, Some(lesson), Some(moduleRow), moduleRow.courseId, moduleRow.id, post, None, env)
            == Commit(Content(lesson.contentPath, None))
  {
    assert PostedType(post) == "pdf";
    assert PostedTitle(post) == "Aula";
  }

  // ---------------------------------------------------------------------
  // Actions on the content store
  // ---------------------------------------------------------------------

  /**
   * `createModule`: without a POST or with an empty title nothing is
   * written; otherwise the module is appended with the next order of its
   * course, which keeps sibling orders distinct.
   */
  method CreateModuleAction(store: ContentStore, isPost: bool, courseId: int, post: map<string, string>)
      returns (outcome: AdminOutcome)
    requires store.Valid()
    modifies store
    ensures store.Valid()
    ensures outcome == ModuleTitleRequired <==> !isPost || IsEmpty(PostedTitle(post))
    ensures outcome != ModuleTitleRequired ==> outcome == Done
    ensures outcome == ModuleTitleRequired ==>
              store.modules == old(store.modules) && store.nextModuleId == old(store.nextModuleId)
    ensures outcome == Done ==>
              store.modules == old(store.modules)
                               + [ModuleRow(old(store.nextModuleId), courseId, post["title"], old(store.NextModuleOrder(courseId)))]
              && store.nextModuleId == old(store.nextModuleId) + 1
    ensures store.lessons == old(store.lessons) && store.nextLessonId == old(store.nextLessonId)
    ensures old(store.SiblingOrdersDistinct()) ==> store.SiblingOrdersDistinct()
    ensures old(store.NoDualContent()) ==> store.NoDualContent()
    ensures old(store.LessonsHaveModules()) ==> store.LessonsHaveModules()
  {
    if !isPost || IsEmpty(PostedTitle(post)) {
      return ModuleTitleRequired;
    }
    var title := post["title"];
    var order := store.NextModuleOrder(courseId);
    store.CreateModule(courseId, title, order);
    outcome := Done;
  }

  /** `deleteModule`: no ownership check; the module and its lessons go, whatever course the route names. */
  method DeleteModuleAction(store: ContentStore, courseId: int, moduleId: int) returns (outcome: AdminOutcome)
    requires store.Valid()
    modifies store
    ensures store.Valid() && outcome == Done
    ensures store.modules == ModulesExcept(old(store.modules), moduleId)
    ensures store.lessons == LessonsOutsideModule(old(store.lessons), moduleId)
    ensures store.nextModuleId == old(store.nextModuleId) && store.nextLessonId == old(store.nextLessonId)
    ensures old(store.LessonsHaveModules()) && old(store.FindModuleById(moduleId)).None? ==>
              store.modules == old(store.modules) && store.lessons == old(store.lessons)
    ensures old(store.SiblingOrdersDistinct()) ==> store.SiblingOrdersDistinct()
    ensures old(store.NoDualContent()) ==> store.NoDualContent()
    ensures old(store.LessonsHaveModules()) ==> store.LessonsHaveModules()
  {
    if store.LessonsHaveModules() && store.FindModuleById(moduleId).None? {
      store.DeleteAbsentModule(moduleId);
    }
    store.DeleteModule(moduleId);
    outcome := Done;
  }

  /**
   * `createLesson`: the guards of `CreateLessonDecision` in turn, then the
   * content fields; a committed lesson is appended with the next order of
   * its module.
   */
  method CreateLessonAction(store: ContentStore, isPost: bool, courseId: int, moduleId: int,
                            post: map<string, string>, pdf: Option<UploadedFile>, env: UploadEnv)
      returns (outcome: AdminOutcome)
    requires store.Valid()
    modifies store
    ensures store.Valid()
    ensures store.modules == old(store.modules) && store.nextModuleId == old(store.nextModuleId)
    ensures CreateLessonDecision(isPost, old(store.FindModuleById(moduleId)), courseId, post, pdf, env).Halt? ==>
              && outcome == CreateLessonDecision(isPost, old(store.FindModuleById(moduleId)), courseId, post, pdf, env).outcome
              && store.lessons == old(store.lessons) && store.nextLessonId == old(store.nextLessonId)
    ensures CreateLessonDecision(isPost, old(store.FindModuleById(moduleId)), courseId, post, pdf, env).Commit? ==>
              && outcome == Done
              && store.nextLessonId == old(store.nextLessonId) + 1
              && var c := CreateLessonDecision(isPost, old(store.FindModuleById(moduleId)), courseId, post, pdf, env).content;
                 store.lessons == old(store.lessons)
                                  + [LessonRow(old(store.nextLessonId), moduleId, PostedTitle(post), PostedType(post),
                                               c.path, c.text, old(store.NextLessonOrder(moduleId)))]
    ensures old(store.SiblingOrdersDistinct()) ==> store.SiblingOrdersDistinct()
    ensures old(store.NoDualContent()) ==> store.NoDualContent()
    ensures old(store.LessonsHaveModules()) ==> store.LessonsHaveModules()
  {
    if !isPost {
      return NotPost;
    }
    var moduleRow := store.FindModuleById(moduleId);
    if !ModuleInCourse(moduleRow, courseId) {
      return InvalidModule;
    }
    var title := PostedTitle(post);
    if IsEmpty(title) {
      return LessonTitleRequired;
    }
    var content := ResolveNewContent(post, pdf, env);
    if content.Halt? {
      return content.outcome;
    }
    var order := store.NextLessonOrder(moduleId);
    assert moduleId in ModuleIds(store.modules) by {
      assert moduleRow.value in store.modules;
    }
    store.CreateLesson(NewLesson(moduleId, title, PostedType(post), content.content.path, content.content.text, order));
    outcome := Done;
  }


  /**
   * `updateLesson`: the guards of `UpdateLessonDecision` in turn, then the
   * content fields; a committed edit rewrites the lesson's title, type,
   * path and text and nothing else.
   */
  method UpdateLessonAction(store: ContentStore, isPost: bool, courseId: int, moduleId: int, lessonId: int,
                            post: map<string, string>, pdf: Option<UploadedFile>, env: UploadEnv)
      returns (outcome: AdminOutcome)
    requires store.Valid()
    modifies store
    ensures store.Valid()
    ensures store.modules == old(store.modules)
    ensures store.nextModuleId == old(store.nextModuleId) && store.nextLessonId == old(store.nextLessonId)
    ensures var d := UpdateLessonDecision(isPost, old(store.FindLessonById(lessonId)), old(store.FindModuleById(moduleId)),
                                          courseId, moduleId, post, pdf, env);
            && (d.Halt? ==> outcome == d.outcome && store.lessons == old(store.lessons))
            && (d.Commit? ==>
                  && outcome == Done
                  && store.lessons == EditLessons(old(store.lessons), lessonId,
                                                  LessonEdit(PostedTitle(post), PostedType(post), d.content.path, d.content.text)))
    ensures old(store.SiblingOrdersDistinct()) ==> store.SiblingOrdersDistinct()
    ensures old(store.NoDualContent()) ==> store.NoDualContent()
    ensures old(store.LessonsHaveModules()) ==> store.LessonsHaveModules()
  {
    if !isPost {
      return NotPost;
    }
    var lesson := store.FindLessonById(lessonId);
    var moduleRow := store.FindModuleById(moduleId);
    if !LessonInCourse(lesson, moduleRow, courseId, moduleId) {
      return InvalidLesson;
    }
    var title := PostedTitle(post);
    if IsEmpty(title) {
      return LessonTitleRequired;
    }
    var content := ResolveEditedContent(lesson.value, post, pdf, env);
    if content.Halt? {
      return content.outcome;
    }
    assert old(store.NoDualContent()) ==> SingleContent(lesson.value) by {
      if old(store.NoDualContent()) {
        var a :| 0 <= a < |store.lessons| && store.lessons[a] == lesson.value;
      }
    }
    store.UpdateLesson(lessonId, LessonEdit(title, PostedType(post), content.content.path, content.content.text));
    outcome := Done;
  }


  /** `deleteLesson`: only a lesson that hangs under the named module and course is removed. */
  method DeleteLessonAction(store: ContentStore, courseId: int, moduleId: int, lessonId: int) returns (outcome: AdminOutcome)
    requires store.Valid()
    modifies store
    ensures store.Valid()
    ensures outcome == InvalidLesson <==>
              !LessonInCourse(old(store.FindLessonById(lessonId)), old(store.FindModuleById(moduleId)), courseId, moduleId)
    ensures outcome != InvalidLesson ==> outcome == Done
    ensures outcome == InvalidLesson ==> store.lessons == old(store.lessons)
    ensures outcome == Done ==> store.lessons == LessonsExcept(old(store.lessons), lessonId)
    ensures store.modules == old(store.modules)
    ensures store.nextModuleId == old(store.nextModuleId) && store.nextLessonId == old(store.nextLessonId)
    ensures old(store.SiblingOrdersDistinct()) ==> store.SiblingOrdersDistinct()
    ensures old(store.NoDualContent()) ==> store.NoDualContent()
    ensures old(store.LessonsHaveModules()) ==> store.LessonsHaveModules()
  {
    var lesson := store.FindLessonById(lessonId);
    var moduleRow := store.FindModuleById(moduleId);
    if !LessonInCourse(lesson, moduleRow, courseId, moduleId) {
      return InvalidLesson;
    }
    store.DeleteLesson(lessonId);
    outcome := Done;
  }
}
