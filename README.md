# Course platform content and entitlement model

A Dafny model of the sequential logic inside a PHP course platform. Administrators
author courses made of ordered modules and lessons; viewers reach a course either by
purchasing it or through a subscription plan that covers its category.

The model has three parts:

- **The content store** (`ContentModel`). The `course_modules` and
  `course_lessons` tables become a class, `ContentStore`, with two sequence fields
  and the two auto-increment counters.
  - Its queries are functions over that state: next order, find by id, and the
    nested listing `findModulesWithLessons`.
  - Its statements are methods that reassign the tables: create, delete with the
    lesson cascade, and update.
  - Order allocation is "largest sibling order plus one, or 1". It keeps sibling
    orders pairwise distinct across any sequence of inserts and deletes, so the
    listing is strictly ascending.
- **The entitlement rule** (`CourseController`).
  - `checkUserAccess` is a pure function of the session, the course table and the
    set of (user, course) purchases.
  - `purchase` is a gate function, plus a method that adds the pair to the purchase
    set.
  - `show` and `watch` become the outcomes they render or redirect to.
- **The administrator's input handling** (`AdminController`, `Uploads`,
  `PhpStrings`):
  - required-field validation of the course form, as a loop;
  - the course form's outcome;
  - the ownership checks between lesson, module and course;
  - the step-by-step resolution of a lesson's `content_path` / `content_text` on
    create and on update;
  - the module and lesson actions against the content store;
  - the string side of the two upload handlers: error-code classification, the
    image type rule, file-name sanitising, and the public path.

Supporting modules:

- `Wrappers` gives `Option` for PHP's null.
- `Query` gives the SQL building blocks: `WHERE` as `Filter`, `ORDER BY` as an
  insertion sort, `MAX` as `MaxOf`.
- `PhpStrings` gives the PHP string built-ins the controllers call.

Redirects and `$_SESSION` flash messages become returned outcome values. The request
arrives as explicit parameters:

- whether it is a POST;
- the `$_POST` map;
- the `$_FILES` entry;
- an `UploadEnv` with the file system's answers.

In these places the code does something other than what one might expect, and the model
follows the code:

- A module title is checked with PHP `empty`, not trimmed first, so `"0"` is refused
  and `" "` is accepted.
- `deleteModule` has no ownership check. When the module does not exist it succeeds
  and, as long as every lesson names a stored module (`ContentStore.LessonsHaveModules`,
  kept by every action), changes nothing (`DeleteModuleAction`).
- `watch` itself never checks the publication status: a draft course the user may
  access plays whenever `findCourseWithContent` returns it (`WatchPlaysDraftCourse`).
- Lesson `content_type` is stored as posted. It is never checked against
  video/text/pdf.
- Updating a lesson to `pdf` without sending a file keeps the previous path, even a
  video id (`PdfWithoutUploadKeepsVideoId`). So "exactly one content field consistent
  with the type" is not an invariant of the code.
- The invariant the code does keep is that no lesson carries both a path and a text:
  `ContentStore.NoDualContent`, preserved by every action.

## Model

| member | source | states |
|---|---|---|
| Query.Filter | app/Models/ContentModel.php:25 | `WHERE`: the result keeps exactly the rows satisfying the condition, no more rows than the table |
| Query.FilterAppend | app/Models/ContentModel.php:25 | filtering a concatenation is concatenating the filtered parts |
| Query.FilterNoDup | app/Models/ContentModel.php:25 | a filtered table without duplicates has none either |
| Query.FilterIsSubsequence | app/Models/ContentModel.php:25 | `WHERE` keeps the table order: the result is the rows at strictly increasing positions of the table, and every matching row's position is among them |
| Query.FilterKeepsTableInvariants | app/Models/ContentModel.php:53-58 | removing rows keeps ids unique and sibling keys distinct |
| Query.GroupKeysDistinct | app/Models/ContentModel.php:25 | the rows of one parent, taken from a table with distinct sibling orders, have pairwise distinct orders |
| Query.MaxOf | app/Models/ContentModel.php:62 | `MAX`: null on no rows, otherwise an element of the column at least every element |
| Query.Column | app/Models/ContentModel.php:62 | the column has one entry per row, each the row's key |
| Query.InsertByKey | app/Models/ContentModel.php:25 | inserting into a sorted sequence keeps it sorted, and its multiset gains exactly the new element |
| Query.SortByKey | app/Models/ContentModel.php:25 | `ORDER BY`: a permutation of the rows (same multiset), sorted by the key |
| Query.SortByKeyMembers | app/Models/ContentModel.php:25 | sorting keeps exactly the same elements |
| Query.SortByKeyElement | app/Models/ContentModel.php:25 | each element of the sorted sequence comes from the input |
| Query.SortNoDup | app/Models/ContentModel.php:25 | sorting a duplicate-free sequence leaves it duplicate-free |
| Query.SortStrictlyAscending | app/Models/ContentModel.php:25 | with distinct rows and pairwise distinct keys, the sorted result is strictly ascending |
| PhpStrings.LeadingTrimmed | app/Controllers/AdminController.php:43 | counts exactly the leading whitespace `trim` strips |
| PhpStrings.TrailingTrimmed | app/Controllers/AdminController.php:43 | counts exactly the trailing whitespace `trim` strips |
| PhpStrings.Trim | app/Controllers/AdminController.php:43 | `trim` is the middle slice of the input, with no whitespace at either end and only whitespace cut off |
| PhpStrings.TrimOfClean | app/Controllers/AdminController.php:43 | a value without surrounding whitespace is its own trim |
| PhpStrings.StripTrailing | app/Controllers/AdminController.php:102 | a prefix of the input, with only the two stripped characters removed and neither left at its end |
| PhpStrings.AfterLast | app/Controllers/AdminController.php:102 | a suffix holding neither separator, preceded by one of them whenever shorter than the input |
| PhpStrings.NothingToSplit | app/Controllers/AdminController.php:102 | a string holding neither character is left unchanged by both the stripping and the split |
| PhpStrings.Basename | app/Controllers/AdminController.php:102 | `basename` splits on `/` and on the platform separator: the result holds neither, is the last component of the path once trailing separators are dropped, and is the whole path when it has no separator |
| PhpStrings.LastComponent | app/Controllers/AdminController.php:102 | the last component of the stripped path holds no separator, ends the stripped path after a separator, and is the path itself when it has none |
| PhpStrings.Extension | app/Controllers/AdminController.php:79 | `pathinfo` extension: "" when the basename has no dot, otherwise exactly what follows the basename's last dot; it holds no dot, `/` or platform separator |
| PhpStrings.ExtensionOf | app/Controllers/AdminController.php:79 | for a name without separators: "" when it has no dot, otherwise exactly what follows its last dot |
| PhpStrings.AfterLastDot | app/Controllers/AdminController.php:79 | in a separator-free name with a dot, the part after the last dot follows that dot, holds no dot and no separator |
| PhpStrings.ToLowerChar | app/Controllers/AdminController.php:79 | an upper-case ASCII letter becomes the matching lower-case letter (code plus 32), every other character is unchanged |
| PhpStrings.ToLower | app/Controllers/AdminController.php:79 | `strtolower` folds each character and keeps the length |
| PhpStrings.ReplaceChar | app/Controllers/AdminController.php:106 | `str_replace` of one character replaces every occurrence and keeps everything else in place |
| PhpStrings.ReplaceAppend | app/Controllers/AdminController.php:106 | `str_replace` of one character works piece by piece over a concatenation |
| PhpStrings.ReplaceAbsent | app/Controllers/AdminController.php:386 | replacing a character that does not occur changes nothing |
| ContentModel.ModulesExcept | app/Models/ContentModel.php:53-58 | the module rows other than the deleted id, and all of them |
| ContentModel.LessonsOutsideModule | app/Models/ContentModel.php:55 | the cascade keeps exactly the lessons of other modules |
| ContentModel.LessonsExcept | app/Models/ContentModel.php:94-98 | the lesson rows other than the deleted id, and all of them |
| ContentModel.ModulesExceptKeeps | app/Models/ContentModel.php:53-58 | deleting a module keeps ids unique and below the counter, and sibling orders distinct |
| ContentModel.LessonsFilterKeeps | app/Models/ContentModel.php:94-98 | removing lessons keeps ids unique and below the counter, sibling orders distinct, and no lesson with both content columns |
| ContentModel.LessonsOutsideModuleKeeps | app/Models/ContentModel.php:55 | the cascade keeps the lesson table's invariants |
| ContentModel.LessonsExceptKeeps | app/Models/ContentModel.php:94-98 | deleting a lesson keeps the lesson table's invariants |
| ContentModel.CascadeKeepsOwners | app/Models/ContentModel.php:55 | when every lesson names a stored module, after the cascade every remaining lesson names a remaining module |
| ContentModel.NextOrder | app/Models/ContentModel.php:62-64 | `(MAX(order) ?? 0) + 1`: 1 with no siblings, above every sibling order, one more than some sibling's order otherwise |
| ContentModel.NextModuleOrderIgnoresOtherCourses | app/Models/ContentModel.php:60-65 | a module of another course, added at either end, leaves a course's next order unchanged |
| ContentModel.NextLessonOrderIgnoresOtherModules | app/Models/ContentModel.php:100-105 | a lesson of another module, added at either end, leaves a module's next order unchanged |
| ContentModel.ApplyEdit | app/Models/ContentModel.php:82-92 | an update sets title, type, path and text and keeps id, module and order |
| ContentModel.EditLessons | app/Models/ContentModel.php:82-92 | the `WHERE id` update edits the matching row and leaves every other row in place |
| ContentModel.ContentStore.constructor | app/Models/ContentModel.php:11-14 | an empty store satisfies all four invariants, including that every lesson names a stored module |
| ContentModel.ContentStore.NextModuleOrder | app/Models/ContentModel.php:60-65 | 1 when the course has no modules, otherwise exactly one more than the largest order among its modules |
| ContentModel.ContentStore.NextLessonOrder | app/Models/ContentModel.php:100-105 | 1 when the module has no lessons, otherwise exactly one more than the largest order among its lessons |
| ContentModel.ContentStore.FindModuleById | app/Models/ContentModel.php:37-41 | the stored row with that id, or null exactly when there is none |
| ContentModel.ContentStore.FindLessonById | app/Models/ContentModel.php:69-73 | the stored row with that id, or null exactly when there is none |
| ContentModel.ContentStore.CourseModulesSpec | app/Models/ContentModel.php:25-26 | the module query returns exactly the course's modules, sorted by order |
| ContentModel.ContentStore.ModuleLessonsSpec | app/Models/ContentModel.php:30-31 | the lesson query returns exactly the module's lessons, sorted by order |
| ContentModel.ContentStore.Listing | app/Models/ContentModel.php:22-35 | one entry per row of the module query, in its order, each carrying that module's lesson query |
| ContentModel.ContentStore.ListingSpec | app/Models/ContentModel.php:22-35 | the listing holds exactly the course's modules in ascending order, and an empty listing when the course has none |
| ContentModel.ContentStore.ListingLessonsSpec | app/Models/ContentModel.php:29-33 | each module in the listing carries exactly its own lessons, in ascending order |
| ContentModel.ContentStore.WithLessons | app/Models/ContentModel.php:29-33 | each module is paired with its lessons and the module order is kept |
| ContentModel.ContentStore.FindModulesWithLessons | app/Models/ContentModel.php:22-35 | the method returns exactly the listing |
| ContentModel.ContentStore.AttachLessons | app/Models/ContentModel.php:29-33 | the `foreach` that attaches each module's lessons, position by position, produces `WithLessons` of the modules |
| ContentModel.ContentStore.ListingStrictlyAscending | app/Models/ContentModel.php:22-35 | with distinct sibling orders, the modules and each module's lessons are strictly ascending |
| ContentModel.ContentStore.CourseModulesAscending | app/Models/ContentModel.php:25-26 | with distinct sibling orders, the course's modules are strictly ascending |
| ContentModel.ContentStore.ModuleLessonsAscending | app/Models/ContentModel.php:30-31 | with distinct sibling orders, the module's lessons are strictly ascending |
| ContentModel.ContentStore.CreateModule | app/Models/ContentModel.php:43-51 | appends one row with a fresh id; lessons untouched; sibling orders stay distinct when the order is new among the course's modules; every lesson still names a stored module |
| ContentModel.ContentStore.DeleteModule | app/Models/ContentModel.php:53-58 | removes that module and, by the cascade, exactly its lessons; counters unchanged; all invariants kept, including that every lesson names a stored module |
| ContentModel.ContentStore.DeleteAbsentModule | app/Models/ContentModel.php:53-58 | when every lesson names a stored module, deleting an id that is not stored changes neither table |
| ContentModel.ContentStore.RemoveModuleRow | app/Models/ContentModel.php:56-57 | removes exactly the module rows with that id |
| ContentModel.ContentStore.CascadeToLessons | app/Models/ContentModel.php:55 | removes exactly the lessons of that module |
| ContentModel.ContentStore.CreateLesson | app/Models/ContentModel.php:75-80 | appends one row with a fresh id; modules untouched; sibling orders stay distinct when the order is new within the module; lessons keep naming stored modules when the new one does |
| ContentModel.ContentStore.UpdateLesson | app/Models/ContentModel.php:82-92 | rewrites the four content columns of that lesson only; ids, modules, orders and other lessons unchanged; all invariants kept |
| ContentModel.ContentStore.DeleteLesson | app/Models/ContentModel.php:94-98 | removes exactly the lesson with that id; modules, counters and all invariants kept |
| CourseController.PlanCovers | app/Controllers/CourseController.php:136-141 | the plan covers the category exactly when the pair is in the coverage table |
| CourseController.HasUserId | app/Controllers/CourseController.php:117-118 | `!$userId` is false exactly for a logged-in session whose id is not 0 |
| CourseController.CheckUserAccess | app/Controllers/CourseController.php:115-144 | no user or an unknown course denies; a purchase allows; otherwise the coverage table decides |
| CourseController.PremiumCoverage | app/Controllers/CourseController.php:137 | `premium` covers exactly essential, premium and platinum |
| CourseController.EssentialCoverage | app/Controllers/CourseController.php:138 | `essential` covers exactly essential |
| CourseController.NoOtherCoverage | app/Controllers/CourseController.php:135-143 | any other plan covers nothing, and no plan covers `free` |
| CourseController.PremiumDominatesEssential | app/Controllers/CourseController.php:136-139 | whatever `essential` opens, `premium` opens too |
| CourseController.AccessMonotoneInPurchases | app/Controllers/CourseController.php:129-132 | more purchases never take access away |
| CourseController.PurchaseDecision | app/Controllers/CourseController.php:81-105 | login, then existence, then the `none`-plan rule on premium/platinum; each outcome iff its condition |
| CourseController.CourseStore.GrantCourseAccess | app/Controllers/CourseController.php:105 | adds exactly the (user, course) pair |
| CourseController.Purchase | app/Controllers/CourseController.php:81-110 | grants the pair exactly when the gate lets it through; courses unchanged |
| CourseController.PurchaseGrantsAccess | app/Controllers/CourseController.php:105 | after a granted purchase the buyer has access whatever plan and category |
| CourseController.Show | app/Controllers/CourseController.php:28-45 | not found iff the course is missing or not published; otherwise the page carries the access decision |
| CourseController.Watch | app/Controllers/CourseController.php:50-75 | login, then access, then the content query; the player only after access is granted |
| CourseController.WatchPlaysDraftCourse | app/Controllers/CourseController.php:50-75 | any unpublished course the user may access is not found on its page, yet plays in the player whenever `findCourseWithContent` returns it |
| CourseController.PurchasedDraftCourse | app/Controllers/CourseController.php:129-132 | a user who bought a draft course has access to it |
| Uploads.CheckUploadError | app/Controllers/AdminController.php:53-64 | no file or `NO_FILE` is nothing sent; `INI_SIZE`/`FORM_SIZE` is too large; any other non-OK code is an error carrying the code |
| Uploads.Sanitize | app/Controllers/AdminController.php:102 | the sanitised name is no longer than the input and contains only `[a-zA-Z0-9.-_]` |
| Uploads.SanitizeCounts | app/Controllers/AdminController.php:381 | each safe character keeps its number of occurrences, every other character disappears |
| Uploads.SanitizeIsSubsequence | app/Controllers/AdminController.php:102 | the sanitised name is the safe characters of the input at strictly increasing positions, and every safe character's position is among them |
| Uploads.SanitizeAppend | app/Controllers/AdminController.php:102 | sanitising distributes over concatenation |
| Uploads.SanitizeKeepsSafe | app/Controllers/AdminController.php:102 | a name of allowed characters comes out unchanged |
| Uploads.SanitizeIdempotent | app/Controllers/AdminController.php:381 | sanitising twice is sanitising once |
| Uploads.StoredName | app/Controllers/AdminController.php:381 | the stored name is the unique prefix, a dash, and the sanitised basename |
| Uploads.StoredNameHasNoSeparator | app/Controllers/AdminController.php:102-103 | the stored name contains no slash or backslash, so it stays in its directory |
| Uploads.PublicPath | app/Controllers/AdminController.php:106 | the public path starts with `/`, has the length of `/assets/`, the directory, `/` and the name together, and holds no backslash on a `\` platform |
| Uploads.PublicPathNormalised | app/Controllers/AdminController.php:106 | on `/` or `\` as separator the public path is `/assets/<dir>/<name>` |
| Uploads.ImageAccepted | app/Controllers/AdminController.php:73-84 | an image passes iff its MIME type is JPEG or PNG and its lower-cased extension is `jpg`, `jpeg` or `png` |
| Uploads.ImageMime | app/Controllers/AdminController.php:73-76 | `in_array` on the MIME list: true iff the type is `image/jpeg` or `image/png` |
| Uploads.ImageExtension | app/Controllers/AdminController.php:80-82 | `in_array` on the extension list: true iff the extension is `jpg`, `jpeg` or `png` |
| Uploads.HandleImageUpload | app/Controllers/AdminController.php:51-110 | each outcome iff its condition: nothing sent, too large, any other failed code carried as is, invalid type unless JPEG/PNG MIME and extension, directory failure, move failure, stored; the stored path is built from the stored name |
| Uploads.HandlePdfUpload | app/Controllers/AdminController.php:350-390 | the same steps and outcomes with MIME `application/pdf` only; stored path under `pdfs` |
| Uploads.StoredPathShape | app/Controllers/AdminController.php:386 | a stored upload's path is `/assets/<dir>/<uniqid>-<sanitised basename>` on either platform |
| Uploads.DirsHaveNoBackslash | app/Controllers/AdminController.php:87 | the two upload sub-directories contain no backslash |
| Uploads.ImagePathShape | app/Controllers/AdminController.php:106 | a stored image lands at `/assets/img-courses/<stored name>` |
| Uploads.PdfPathShape | app/Controllers/AdminController.php:386 | a stored PDF lands at `/assets/pdfs/<stored name>` |
| Uploads.ExtensionOfName | app/Controllers/AdminController.php:79 | the extension of `stem.ext` is `ext` |
| Uploads.AfterLastOfSuffix | app/Controllers/AdminController.php:79 | the part after the last separator is what follows it |
| Uploads.LowerCaseExamples | app/Controllers/AdminController.php:79-80 | `PNG` folds to an allowed extension, `php` stays a refused one |
| Uploads.UpperCaseExtensionAccepted | app/Controllers/AdminController.php:79-82 | an upper-case `.PNG` name passes with an image MIME type |
| Uploads.TrailingPhpRefused | app/Controllers/AdminController.php:79-82 | a name ending in `.php` is refused whatever MIME type |
| Uploads.GifRefused | app/Controllers/AdminController.php:73-82 | a GIF MIME type is refused whatever the name |
| AdminController.Lookup | app/Controllers/AdminController.php:408-409 | `?? null`: present iff the key is posted, with the posted value |
| AdminController.FirstMissing | app/Controllers/AdminController.php:41-47 | null iff every field is filled; otherwise the message of the first unfilled field in declaration order |
| AdminController.ValidateCourseData | app/Controllers/AdminController.php:26-48 | the loop returns the first missing field's message, and null iff all ten fields are filled after `trim` |
| AdminController.CheckFields | app/Controllers/AdminController.php:41-47 | the `foreach` over the fields returns the message of the first unfilled one, or null |
| AdminController.ZeroTitleRefused | app/Controllers/AdminController.php:43 | a title of `"0"` is refused as missing |
| AdminController.BlankTitleRefused | app/Controllers/AdminController.php:43 | any title that trims to nothing is refused as missing, with the title message |
| AdminController.PriceOf | app/Controllers/AdminController.php:143 | the price is zero iff it is absent or PHP-empty |
| AdminController.FormData | app/Controllers/AdminController.php:139-152 | each required column comes from its own field; the price and the image path as given |
| AdminController.ValidatedData | app/Controllers/AdminController.php:139-152 | with every required field filled, the row is the posted fields and every required column is non-blank |
| AdminController.CourseForm | app/Controllers/AdminController.php:114-152 | empty body, then validation, then upload, each outcome iff its condition; a submitted course is exactly the posted fields, all required ones non-blank |
| AdminController.CreateCourse | app/Controllers/AdminController.php:114-164 | a new course takes the uploaded image path, or none |
| AdminController.UpdateCourse | app/Controllers/AdminController.php:166-215 | a new upload's path wins; without one the posted `current_image_url` is kept |
| AdminController.ModuleInCourseMeaning | app/Controllers/AdminController.php:400-402 | in a store with unique ids the module check on the lookup holds iff a stored module with that id belongs to the course |
| AdminController.LessonUnderModule | app/Controllers/AdminController.php:489-493 | in a store with unique ids the lookup finds a lesson of the module iff one with that id is stored under it |
| AdminController.LessonInCourseMeaning | app/Controllers/AdminController.php:489-493 | the lesson check on the two lookups holds iff the lesson hangs under the module and the module under the course |
| AdminController.PostedOr | app/Controllers/AdminController.php:408-409 | `$_POST[key] ?? default`: the posted value when the key is posted, the default otherwise (`''` for the title, `'video'` for the type) |
| AdminController.NewContent | app/Controllers/AdminController.php:423-436 | video sets only the path, text only the text, pdf only the upload path or stops on a refused upload, other types set neither |
| AdminController.ResolveNewContent | app/Controllers/AdminController.php:408-436 | the step-by-step assignments produce `NewContent` |
| AdminController.CreateLessonDecision | app/Controllers/AdminController.php:395-421 | not POST, module not in the course, empty title: each stops the request iff its condition |
| AdminController.EditedContent | app/Controllers/AdminController.php:514-536 | video clears the text, text clears the path, pdf clears the text and keeps the old path unless a file was stored, other types keep both |
| AdminController.StoredPdfPathNotEmpty | app/Controllers/AdminController.php:527 | a stored PDF's path is never PHP-empty, so the `if` on it takes the new path |
| AdminController.ResolveEditedContent | app/Controllers/AdminController.php:499-536 | the step-by-step reassignments produce `EditedContent` |
| AdminController.UpdateLessonDecision | app/Controllers/AdminController.php:484-512 | not POST, lesson not under the module and course, empty title: each stops the request iff its condition |
| AdminController.PdfWithoutUploadKeepsVideoId | app/Controllers/AdminController.php:520-535 | switching a video lesson to pdf without a file keeps the video id as its path |
| AdminController.CreateModuleAction | app/Controllers/AdminController.php:290-308 | refused iff not POST or the title is PHP-empty; otherwise one module appended with the course's next order, keeping sibling orders distinct and every lesson naming a stored module |
| AdminController.DeleteModuleAction | app/Controllers/AdminController.php:310-320 | always deletes the module and its lessons, with no ownership check, counters unchanged; a module that is not stored leaves both tables unchanged while every lesson names a stored module |
| AdminController.CreateLessonAction | app/Controllers/AdminController.php:393-456 | inserts nothing unless `CreateLessonDecision` commits; then appends the lesson under its checked module with the module's next order and a fresh id, keeping sibling orders distinct, no lesson with both content columns, and every lesson naming a stored module |
| AdminController.UpdateLessonAction | app/Controllers/AdminController.php:482-562 | updates nothing unless `UpdateLessonDecision` commits; then rewrites only that lesson's four columns, keeping all the invariants |
| AdminController.DeleteLessonAction | app/Controllers/AdminController.php:565-589 | deletes iff the lesson hangs under the named module and course; then exactly that lesson, counters unchanged, invariants kept |

## Left out

- File-system effects are inputs in `UploadEnv`, not operations:
  - the MIME detection (`finfo`, `mime_content_type`);
  - `is_dir`/`mkdir`;
  - `move_uploaded_file`;
  - the directory separator.
- The model does not delete files:
  - `unlink` of an old PDF on lesson update or delete;
  - `unlink` of a course image on course delete.
- `uniqid()` is nondeterministic, so its value is a parameter.
- The SQL layer (`DataSource`) is replaced by the in-memory store:
  - a statement's failure (`execute` returning false, the "error saving" flash) is not modelled;
  - transactions are not modelled.
- The read-then-write race of concurrent `max + 1` order allocation is a concurrency concern. The model runs calls one at a time.
- The flash-message texts of upload errors, redirect targets and `render` calls become the variants of returned outcome types. Only the course form's required-field messages are kept as text (`RequiredMessage`); every other message, the lesson-title one included, is an outcome variant such as `LessonTitleRequired`.
- The course table and purchase records belong to the course model class, which is not part of this model:
  - `findById` and `checkUserHasCourse` read a map and a set of pairs, and `grantCourseAccess` adds a pair to that set;
  - the course model's `create`, `update` and `delete` are not modelled: `CreateCourse` and `UpdateCourse` stop at the validated row (`CourseSubmitted`) and never write it to the course map;
  - `deleteCourse` (removing the image file, deleting the row, redirecting) is not modelled;
  - `findCourseWithContent` is a parameter of `Watch`, so whether it filters on the publication status is left open;
  - `index`, `listCourses`, the form pages and `manageCourseContent` are rendering around those queries.
- The price is never interpreted. `0.00` is a float, so it becomes `ZeroPrice` and a posted price stays opaque text.
- PHP's loose comparisons are taken as equality of ids:
  - `!=` between a route id and an integer column;
  - `in_array` without strict mode on a category;
  - the route parameters are modelled as integers.
- `app/Core/Auth.php` (login, registration, the session) is not part of this model. The session is a `Session` value, and the administrator guard of the controller constructor is assumed to have passed.
- The two view templates have no logic to model.
- ContentModel.ContentStore.CreateLesson: the statement itself does not check that the module exists, so the store keeps every lesson naming a stored module only because `CreateLessonAction` checks the module first.
- `Uploads.HandleImageUpload`: the "directory could not be created" error text, including PHP's `error_get_last` message, is reduced to `DirectoryFailed`.
