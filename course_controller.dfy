/**
 * The viewer side of the platform: who may see a course (`checkUserAccess`),
 * who may buy one (`purchase`), and the guards of the course page (`show`)
 * and the player (`watch`).  The session is passed in explicitly; redirects
 * and flash messages become returned outcomes.
 */
module CourseController {
  import opened Wrappers

  /** The columns of a course row that the controller reads. */
  datatype Course = Course(id: int, title: string, category: string, status: string)

  /** The logged-in user as the session knows it: an id, if any, and a plan name. */
  datatype Session = Session(userId: Option<int>, plan: string)

  /** `Auth::isLogged()`: a user id is in the session. */
  predicate IsLogged(s: Session) {
    s.userId.Some?
  }

  /** `!$userId` is false: PHP treats a missing id and the id 0 alike. */
  function HasUserId(s: Session): (r: bool)
    ensures r ==> IsLogged(s)
    ensures IsLogged(s) ==> (r <==> s.userId.value != 0)
  {
    s.userId.Some? && s.userId.value != 0
  }

  /** The plan-to-category coverage table, as the set of (plan, category) pairs it allows. */
  const Coverage: set<(string, string)> :=
    {("premium", "essential"), ("premium", "premium"), ("premium", "platinum"), ("essential", "essential")}

  /** The subscription test of `checkUserAccess`: does the plan unlock the category? */
  function PlanCovers(plan: string, category: string): (r: bool)
    ensures r <==> (plan, category) in Coverage
  {
    (plan == "premium" && category in ["essential", "premium", "platinum"])
    || (plan == "essential" && category == "essential")
  }

  /**
   * `checkUserAccess`: no user, deny; unknown course, deny; a purchase of
   * the course, allow; otherwise the plan must cover the course's category.
   */
  function CheckUserAccess(s: Session, courses: map<int, Course>, purchases: set<(int, int)>, courseId: int): (r: bool)
    ensures !HasUserId(s) ==> !r
    ensures courseId !in courses ==> !r
    ensures HasUserId(s) && courseId in courses && (s.userId.value, courseId) in purchases ==> r
    ensures HasUserId(s) && courseId in courses && (s.userId.value, courseId) !in purchases ==>
              (r <==> (s.plan, courses[courseId].category) in Coverage)
  {
    if !HasUserId(s) then false
    else if courseId !in courses then false
    else if (s.userId.value, courseId) in purchases then true
    else PlanCovers(s.plan, courses[courseId].category)
  }

  /** Plan `premium` covers exactly the paid categories. */
  lemma PremiumCoverage(category: string)
    ensures PlanCovers("premium", category) <==> category in {"essential", "premium", "platinum"}
  {
  }

  /** Plan `essential` covers exactly category `essential`. */
  lemma EssentialCoverage(category: string)
    ensures PlanCovers("essential", category) <==> category == "essential"
  {
  }

  /** Any other plan name (`none` or unrecognised) covers nothing, and no plan covers `free`. */
  lemma NoOtherCoverage(plan: string, category: string)
    ensures plan != "premium" && plan != "essential" ==> !PlanCovers(plan, category)
    ensures !PlanCovers(plan, "free")
  {
  }

  /** Whatever plan `essential` opens, plan `premium` opens too, for the same purchases. */
  lemma PremiumDominatesEssential(userId: Option<int>, courses: map<int, Course>, purchases: set<(int, int)>, courseId: int)
    ensures CheckUserAccess(Session(userId, "essential"), courses, purchases, courseId)
            ==> CheckUserAccess(Session(userId, "premium"), courses, purchases, courseId)
  {
  }

  /** Adding purchases never takes access away. */
  lemma AccessMonotoneInPurchases(s: Session, courses: map<int, Course>, p: set<(int, int)>, q: set<(int, int)>, courseId: int)
    requires p <= q
    ensures CheckUserAccess(s, courses, p, courseId) ==> CheckUserAccess(s, courses, q, courseId)
  {
  }

  /** Where `purchase` sends the user. */
  datatype PurchaseOutcome =
    | PurchaseToLogin        // not logged in
    | PurchaseToHome         // no such course
    | PurchaseToPlans        // plan `none` may not buy a premium or platinum course
    | Purchased              // the (user, course) pair is granted

  /** The gate of `purchase`, evaluated before any grant. */
  function PurchaseDecision(s: Session, courses: map<int, Course>, courseId: int): (r: PurchaseOutcome)
    ensures r == PurchaseToLogin <==> !IsLogged(s)
    ensures r == PurchaseToHome <==> IsLogged(s) && courseId !in courses
    ensures r == PurchaseToPlans <==>
              IsLogged(s) && courseId in courses && s.plan == "none"
              && courses[courseId].category in {"premium", "platinum"}
    ensures r == Purchased <==>
              IsLogged(s) && courseId in courses
              && !(s.plan == "none" && courses[courseId].category in {"premium", "platinum"})
  {
    if !IsLogged(s) then PurchaseToLogin
    else if courseId !in courses then PurchaseToHome
    else if s.plan == "none" && courses[courseId].category in ["premium", "platinum"] then PurchaseToPlans
    else Purchased
  }

  /** The course table and the purchase records, held by the course model. */
  class CourseStore {
    var courses: map<int, Course>
    var purchases: set<(int, int)>

    constructor (courses: map<int, Course>)
      ensures this.courses == courses && purchases == {}
    {
      this.courses := courses;
      purchases := {};
    }

    /** `grantCourseAccess`: records that the user holds the course. */
    method GrantCourseAccess(userId: int, courseId: int)
      modifies this
      ensures purchases == old(purchases) + {(userId, courseId)}
      ensures courses == old(courses)
    {
      purchases := purchases + {(userId, courseId)};
    }
  }

  /** `purchase`: grants the pair exactly when the gate lets it through. */
  method Purchase(store: CourseStore, s: Session, courseId: int) returns (outcome: PurchaseOutcome)
    modifies store
    ensures outcome == PurchaseDecision(s, old(store.courses), courseId)
    ensures store.courses == old(store.courses)
    ensures outcome == Purchased ==> store.purchases == old(store.purchases) + {(s.userId.value, courseId)}
    ensures outcome != Purchased ==> store.purchases == old(store.purchases)
  {
    outcome := PurchaseDecision(s, store.courses, courseId);
    if outcome == Purchased {
      store.GrantCourseAccess(s.userId.value, courseId);
    }
  }

  /** After a successful purchase the buyer has access, whatever the plan and category. */
  lemma PurchaseGrantsAccess(s: Session, courses: map<int, Course>, purchases: set<(int, int)>, courseId: int)
    requires HasUserId(s)
    requires PurchaseDecision(s, courses, courseId) == Purchased
    ensures CheckUserAccess(s, courses, purchases + {(s.userId.value, courseId)}, courseId)
  {
  }

  /** What `show` renders. */
  datatype ShowOutcome = ShowNotFound | CoursePage(course: Course, userHasAccess: bool)

  /** `show`: a missing or unpublished course is not found; otherwise the page carries the access flag. */
  function Show(s: Session, courses: map<int, Course>, purchases: set<(int, int)>, courseId: int): (r: ShowOutcome)
    ensures r.ShowNotFound? <==> courseId !in courses || courses[courseId].status != "published"
    ensures r.CoursePage? ==> r.course == courses[courseId]
    ensures r.CoursePage? ==> (r.userHasAccess <==> CheckUserAccess(s, courses, purchases, courseId))
  {
    if courseId !in courses || courses[courseId].status != "published" then ShowNotFound
    else CoursePage(courses[courseId], CheckUserAccess(s, courses, purchases, courseId))
  }

  /** What `watch` does. */
  datatype WatchOutcome =
    | WatchToLogin           // not logged in
    | WatchToCourse          // no access: back to the course page with an error
    | WatchNotFound          // the content query found nothing
    | Player(course: Course) // the player, with the course and its content

  /**
   * `watch`: login first, then access, and only then the content query,
   * `findCourseWithContent`, which is not part of this model and is passed in.
   */
  function Watch(s: Session, courses: map<int, Course>, purchases: set<(int, int)>, courseId: int,
                 findCourseWithContent: int -> Option<Course>): (r: WatchOutcome)
    ensures r == WatchToLogin <==> !IsLogged(s)
    ensures r == WatchToCourse <==> IsLogged(s) && !CheckUserAccess(s, courses, purchases, courseId)
    ensures r.Player? ==> CheckUserAccess(s, courses, purchases, courseId)
                          && findCourseWithContent(courseId) == Some(r.course)
    ensures r == WatchNotFound <==>
              IsLogged(s) && CheckUserAccess(s, courses, purchases, courseId)
              && findCourseWithContent(courseId).None?
  {
    if !IsLogged(s) then WatchToLogin
    else if !CheckUserAccess(s, courses, purchases, courseId) then WatchToCourse
    else
      match findCourseWithContent(courseId)
      case None => WatchNotFound
      case Some(c) => Player(c)
  }

  /**
   * `watch` checks access but not publication: any course the user may
   * access plays whatever its status, even one `show` refuses as not found.
   */
  lemma WatchPlaysDraftCourse(s: Session, courses: map<int, Course>, purchases: set<(int, int)>, courseId: int,
                              findCourseWithContent: int -> Option<Course>, c: Course)
    requires IsLogged(s) && CheckUserAccess(s, courses, purchases, courseId)
    requires courseId in courses && courses[courseId].status != "published"
    requires findCourseWithContent(courseId) == Some(c)
    ensures Show(s, courses, purchases, courseId) == ShowNotFound
    ensures Watch(s, courses, purchases, courseId, findCourseWithContent) == Player(c)
  {
  }

  /** For instance a draft course the user bought. */
  lemma PurchasedDraftCourse()
    ensures CheckUserAccess(Session(Some(7), "none"), map[1 := Course(1, "Draft", "essential", "draft")], {(7, 1)}, 1)
  {
  }
}
