/**
 The countdown metrics of the dashboard page: from the uploaded schedule rows
 and today's date it derives the classes left, the class weekends left, the
 courses left and the days until the last class.
 */
module Dashboard {
  import opened Wrappers
  import opened Text
  import opened Courses

  /** A calendar day, counted in days from 1970-01-01 (a Thursday). */
  type Day = int

  /** A schedule row as read: the parsed `Date` (None when `%Y-%m-%d` parsing failed) and the AM and PM course labels. */
  datatype Row = Row(date: Option<Day>, morning: Option<string>, afternoon: Option<string>)

  /** A row whose date parsed. */
  datatype Session = Session(date: Day, morning: Option<string>, afternoon: Option<string>)

  // ---------------------------------------------------------------------------
  // Dropping rows whose date did not parse

  /** The sessions a single row contributes: none when its date did not parse, else the row with its date. */
  function Parsed(r: Row): (ss: seq<Session>)
    ensures |ss| <= 1
    ensures ss != [] <==> r.date.Some?
    ensures forall s :: s in ss ==> Some(s.date) == r.date && s.morning == r.morning && s.afternoon == r.afternoon
  {
    match r.date
    case None => []
    case Some(d) => [Session(d, r.morning, r.afternoon)]
  }

  /** `df.dropna(subset=['Full Date'])`: the rows whose date parsed, in their original order. */
  function DropUnparsed(rows: seq<Row>): (ss: seq<Session>)
    ensures |ss| <= |rows|
    ensures forall s :: s in ss ==> Row(Some(s.date), s.morning, s.afternoon) in rows
    ensures forall r :: r in rows && r.date.Some? ==> Session(r.date.value, r.morning, r.afternoon) in ss
  {
    if rows == [] then [] else Parsed(rows[0]) + DropUnparsed(rows[1..])
  }

  /** Dropping is done row by row: it distributes over concatenation, so the surviving rows keep their order. */
  lemma {:induction false} DropUnparsedAppend(a: seq<Row>, b: seq<Row>)
    ensures DropUnparsed(a + b) == DropUnparsed(a) + DropUnparsed(b)
  {
    if a == [] {
      assert a + b == b;
    } else {
      assert (a + b)[0] == a[0];
      assert (a + b)[1..] == a[1..] + b;
      DropUnparsedAppend(a[1..], b);
    }
  }

  /** A schedule in which every date parsed loses no row. */
  lemma {:induction false} DropUnparsedKeepsParsed(rows: seq<Row>)
    requires forall i :: 0 <= i < |rows| ==> rows[i].date.Some?
    ensures |DropUnparsed(rows)| == |rows|
    ensures forall i :: 0 <= i < |rows| ==> DropUnparsed(rows)[i] == Session(rows[i].date.value, rows[i].morning, rows[i].afternoon)
  {
    if rows != [] {
      DropUnparsedKeepsParsed(rows[1..]);
    }
  }

  // ---------------------------------------------------------------------------
  // Upcoming sessions and classes left

  /** `df[df['Full Date'] >= today]`: the sessions on or after today, in order. */
  function Upcoming(ss: seq<Session>, today: Day): (up: seq<Session>)
    ensures |up| <= |ss|
    ensures forall s :: s in up <==> s in ss && s.date >= today
  {
    if ss == [] then []
    else (if ss[0].date >= today then [ss[0]] else []) + Upcoming(ss[1..], today)
  }

  lemma {:induction false} UpcomingAppend(a: seq<Session>, b: seq<Session>, today: Day)
    ensures Upcoming(a + b, today) == Upcoming(a, today) + Upcoming(b, today)
  {
    if a == [] {
      assert a + b == b;
    } else {
      assert (a + b)[0] == a[0];
      assert (a + b)[1..] == a[1..] + b;
      UpcomingAppend(a[1..], b, today);
    }
  }

  /** `classes_left = upcoming_df.shape[0]`: the number of upcoming rows. */
  function ClassesLeft(ss: seq<Session>, today: Day): (n: nat)
    ensures n <= |ss|
    ensures n == 0 <==> forall s :: s in ss ==> s.date < today
  {
    var up := Upcoming(ss, today);
    assert up != [] ==> up[0] in up;
    |up|
  }

  /** Appending a session appends it to the upcoming sessions exactly when it is on or after today. */
  lemma UpcomingSnoc(ss: seq<Session>, s: Session, today: Day)
    ensures Upcoming(ss + [s], today) == Upcoming(ss, today) + (if s.date >= today then [s] else [])
  {
    UpcomingAppend(ss, [s], today);
    assert Upcoming([s], today) == (if s.date >= today then [s] else []) + Upcoming([], today);
  }

  /**
   Every upcoming row counts once, duplicates included: appending a session
   raises the count by one exactly when it is on or after today, whether or not
   an identical session is already there.
   */
  lemma ClassesLeftCountsEveryRow(ss: seq<Session>, s: Session, today: Day)
    ensures ClassesLeft(ss + [s], today) == ClassesLeft(ss, today) + (if s.date >= today then 1 else 0)
  {
    UpcomingSnoc(ss, s, today);
  }

  // ---------------------------------------------------------------------------
  // Class weekends left

  /** Day `0` is a Thursday, so day `-3` (1969-12-29) is a Monday. */
  function Weekday(d: Day): (w: int)
    ensures 0 <= w < 7
  {
    (d + 3) % 7
  }

  /**
   `to_period('W')`: the Monday-to-Sunday week holding `d`; bucket `w` runs from
   the Monday `7 * w - 3` to the Sunday `7 * w + 3`.
   */
  function WeekOf(d: Day): (w: int)
    ensures 7 * w - 3 <= d <= 7 * w + 3
    ensures d == 7 * w - 3 + Weekday(d)
  {
    (d + 3) / 7
  }

  /** Weeks end on Sunday: the day after a Sunday opens a new bucket; any other day's successor shares its bucket. */
  lemma WeeksEndOnSunday(d: Day)
    ensures Weekday(d) < 6 ==> WeekOf(d + 1) == WeekOf(d) && Weekday(d + 1) == Weekday(d) + 1
    ensures Weekday(d) == 6 ==> WeekOf(d + 1) == WeekOf(d) + 1 && Weekday(d + 1) == 0
  {
  }

  /** Two days share a bucket exactly when they lie in the same Monday-to-Sunday week. */
  lemma SameWeekIff(d: Day, e: Day)
    ensures WeekOf(d) == WeekOf(e) <==> d - Weekday(d) == e - Weekday(e)
  {
  }

  /** The distinct week buckets of a sequence of sessions. */
  function Weeks(ss: seq<Session>): (ws: set<int>)
    ensures ws == {} <==> ss == []
    ensures forall s :: s in ss ==> WeekOf(s.date) in ws
  {
    var ws := set s | s in ss :: WeekOf(s.date);
    assert ss != [] ==> WeekOf(ss[0].date) in ws;
    ws
  }

  lemma WeeksSnoc(ss: seq<Session>, s: Session)
    ensures Weeks(ss + [s]) == Weeks(ss) + {WeekOf(s.date)}
  {
    assert forall x :: x in ss + [s] <==> x in ss || x == s;
  }

  /** There are no more distinct weeks than sessions. */
  lemma {:induction false} WeeksBound(ss: seq<Session>)
    ensures |Weeks(ss)| <= |ss|
    ensures |Weeks(ss)| == 0 <==> ss == []
  {
    if ss != [] {
      var init := ss[..|ss| - 1];
      var s := ss[|ss| - 1];
      assert ss == init + [s];
      WeeksSnoc(init, s);
      WeeksBound(init);
      assert WeekOf(s.date) in Weeks(ss);
    }
  }

  /** `weekends_left = upcoming_df['Full Date'].dt.to_period('W').nunique()`. */
  function WeekendsLeft(ss: seq<Session>, today: Day): (n: nat)
    ensures n <= ClassesLeft(ss, today)
    ensures n == 0 <==> ClassesLeft(ss, today) == 0
  {
    WeeksBound(Upcoming(ss, today));
    |Weeks(Upcoming(ss, today))|
  }

  /** A further upcoming session in a week that already has an upcoming session adds no weekend. */
  lemma SameWeekAddsNoWeekend(ss: seq<Session>, s: Session, t: Session, today: Day)
    requires t in ss && t.date >= today && s.date >= today
    requires WeekOf(t.date) == WeekOf(s.date)
    ensures WeekendsLeft(ss + [s], today) == WeekendsLeft(ss, today)
  {
    var up := Upcoming(ss, today);
    UpcomingSnoc(ss, s, today);
    assert Upcoming(ss + [s], today) == up + [s];
    WeeksSnoc(up, s);
    assert t in up;
    assert WeekOf(s.date) in Weeks(up);
    assert Weeks(up + [s]) == Weeks(up);
  }

  /** An upcoming session in a week with no other upcoming session adds exactly one weekend. */
  lemma NewWeekAddsOneWeekend(ss: seq<Session>, s: Session, today: Day)
    requires s.date >= today
    requires forall t :: t in ss && t.date >= today ==> WeekOf(t.date) != WeekOf(s.date)
    ensures WeekendsLeft(ss + [s], today) == WeekendsLeft(ss, today) + 1
  {
    UpcomingSnoc(ss, s, today);
    WeeksSnoc(Upcoming(ss, today), s);
  }

  /** A past session never changes the weekends left. */
  lemma PastSessionAddsNoWeekend(ss: seq<Session>, s: Session, today: Day)
    requires s.date < today
    ensures WeekendsLeft(ss + [s], today) == WeekendsLeft(ss, today)
  {
    UpcomingSnoc(ss, s, today);
    assert Upcoming(ss, today) + [] == Upcoming(ss, today);
  }

  // ---------------------------------------------------------------------------
  // Courses left

  /**
   `base_am.combine_first(base_pm)`: the base course of the morning label when
   that label is present, otherwise the base course of the afternoon label.
   */
  function SessionBaseCourse(s: Session): (r: Option<string>)
    ensures r.None? <==> s.morning.None? && s.afternoon.None?
    ensures r.Some? ==> IsBaseCourse(r.value)
    ensures s.morning.Some? ==> r == ExtractBaseCourse(s.morning)
    ensures s.morning.None? ==> r == ExtractBaseCourse(s.afternoon)
  {
    var am := ExtractBaseCourse(s.morning);
    if am.Some? then am else ExtractBaseCourse(s.afternoon)
  }

  /** The base course of a session as a set: empty when the session has none. */
  function PresentCourse(s: Session): (cs: set<string>)
    ensures |cs| <= 1
  {
    match SessionBaseCourse(s)
    case None => {}
    case Some(c) => {c}
  }

  /** `.dropna().unique()`: the distinct present base courses of a sequence of sessions. */
  function CourseSet(ss: seq<Session>): (cs: set<string>)
    ensures cs == {} <==> forall s :: s in ss ==> SessionBaseCourse(s).None?
  {
    var cs := set s | s in ss && SessionBaseCourse(s).Some? :: SessionBaseCourse(s).value;
    assert forall s :: s in ss && SessionBaseCourse(s).Some? ==> SessionBaseCourse(s).value in cs;
    cs
  }

  lemma CourseSetSnoc(ss: seq<Session>, s: Session)
    ensures CourseSet(ss + [s]) == CourseSet(ss) + PresentCourse(s)
  {
    assert forall x :: x in ss + [s] <==> x in ss || x == s;
  }

  /** A course is in the set exactly when some session has it as base course. */
  lemma CourseSetMembers(ss: seq<Session>, c: string)
    ensures c in CourseSet(ss) <==> exists s :: s in ss && SessionBaseCourse(s) == Some(c)
  {
  }

  /** The sessions of a sub-schedule never have more distinct courses. */
  lemma CourseSetMono(a: seq<Session>, b: seq<Session>)
    requires forall s :: s in a ==> s in b
    ensures CourseSet(a) <= CourseSet(b)
    ensures |CourseSet(a)| <= |CourseSet(b)|
  {
    var ca, cb := CourseSet(a), CourseSet(b);
    forall c | c in ca
      ensures c in cb
    {
      CourseSetMembers(a, c);
      CourseSetMembers(b, c);
    }
    assert cb == ca + (cb - ca);
    assert ca * (cb - ca) == {};
  }

  /** There are no more distinct courses than sessions. */
  lemma {:induction false} CourseSetBound(ss: seq<Session>)
    ensures |CourseSet(ss)| <= |ss|
  {
    if ss != [] {
      var init, last := ss[..|ss| - 1], ss[|ss| - 1];
      assert ss == init + [last];
      CourseSetSnoc(init, last);
      CourseSetBound(init);
      UnionWithAtMostOne(CourseSet(init), PresentCourse(last), |init|);
    }
  }

  lemma UnionWithAtMostOne(a: set<string>, p: set<string>, n: nat)
    requires |a| <= n && |p| <= 1
    ensures |a + p| <= n + 1
  {
    assert |a + p| + |a * p| == |a| + |p|;
  }

  /** `courses_left = len(future_courses)`: the distinct present base courses among the upcoming sessions. */
  function CoursesLeft(ss: seq<Session>, today: Day): (n: nat)
    ensures n <= ClassesLeft(ss, today)
    ensures n <= |CourseSet(ss)|
    ensures n == 0 <==> forall s :: s in ss && s.date >= today ==> s.morning.None? && s.afternoon.None?
  {
    var up := Upcoming(ss, today);
    CourseSetBound(up);
    CourseSetMono(up, ss);
    |CourseSet(up)|
  }

  lemma KnownCourseAddsNothing(ss: seq<Session>, s: Session, t: Session)
    requires t in ss && SessionBaseCourse(t).Some? && SessionBaseCourse(s) == SessionBaseCourse(t)
    ensures CourseSet(ss + [s]) == CourseSet(ss)
  {
    CourseSetSnoc(ss, s);
    CourseSetMembers(ss, SessionBaseCourse(s).value);
  }

  /** An upcoming session with a base course that no upcoming session has yet adds exactly one course. */
  lemma NewCourseAddsOneCourse(ss: seq<Session>, s: Session, today: Day)
    requires s.date >= today && SessionBaseCourse(s).Some?
    requires forall t :: t in ss && t.date >= today ==> SessionBaseCourse(t) != SessionBaseCourse(s)
    ensures CoursesLeft(ss + [s], today) == CoursesLeft(ss, today) + 1
  {
    var up := Upcoming(ss, today);
    UpcomingSnoc(ss, s, today);
    CourseSetSnoc(up, s);
    CourseSetMembers(up, SessionBaseCourse(s).value);
  }

  /** A session before today never changes the courses left. */
  lemma PastSessionAddsNoCourse(ss: seq<Session>, s: Session, today: Day)
    requires s.date < today
    ensures CoursesLeft(ss + [s], today) == CoursesLeft(ss, today)
  {
    UpcomingSnoc(ss, s, today);
    assert Upcoming(ss, today) + [] == Upcoming(ss, today);
  }

  /** A session with both labels missing never changes the courses left. */
  lemma UnlabelledSessionAddsNoCourse(ss: seq<Session>, s: Session, today: Day)
    requires s.morning.None? && s.afternoon.None?
    ensures CoursesLeft(ss + [s], today) == CoursesLeft(ss, today)
  {
    var up := Upcoming(ss, today);
    UpcomingSnoc(ss, s, today);
    CourseSetSnoc(up, s);
    assert Upcoming(ss, today) + [] == Upcoming(ss, today);
  }

  /** Two upcoming sessions of numbered parts of one course count as a single course. */
  lemma SameBaseCourseAddsNoCourse(ss: seq<Session>, s: Session, t: Session, today: Day)
    requires t in ss && t.date >= today && s.date >= today
    requires SessionBaseCourse(t).Some? && SessionBaseCourse(s) == SessionBaseCourse(t)
    ensures CoursesLeft(ss + [s], today) == CoursesLeft(ss, today)
  {
    UpcomingSnoc(ss, s, today);
    KnownCourseAddsNothing(Upcoming(ss, today), s, t);
  }

  // ---------------------------------------------------------------------------
  // Days until the last class

  /** `df['Full Date'].max()`: the latest date of the schedule, None when there is no session. */
  function LastClassDay(ss: seq<Session>): (r: Option<Day>)
    ensures r.None? <==> ss == []
    ensures r.Some? ==> (exists s :: s in ss && s.date == r.value) && forall s :: s in ss ==> s.date <= r.value
  {
    if ss == [] then None
    else
      var rest := LastClassDay(ss[1..]);
      assert forall s :: s in ss ==> s == ss[0] || s in ss[1..];
      if rest.None? || ss[0].date >= rest.value then Some(ss[0].date) else rest
  }

  /**
   `(last_class_day - today).days`: the days from today to the last class over
   all sessions (past ones included); None for an empty schedule, where the
   page has no date to count to.
   */
  function DaysUntilLastClass(ss: seq<Session>, today: Day): (r: Option<int>)
    ensures r.None? <==> ss == []
    ensures r.Some? ==> (exists s :: s in ss && s.date - today == r.value) && forall s :: s in ss ==> s.date - today <= r.value
    ensures r.Some? ==> (r.value < 0 <==> ClassesLeft(ss, today) == 0)
  {
    match LastClassDay(ss)
    case None => None
    case Some(last) => Some(last - today)
  }

  // ---------------------------------------------------------------------------
  // The whole page

  datatype Metrics = Metrics(classesLeft: nat, weekendsLeft: nat, coursesLeft: nat, daysUntilLastClass: Option<int>)

  /** The four metrics the page shows for a schedule upload on a given day. */
  function Compute(rows: seq<Row>, today: Day): (m: Metrics)
    ensures m.classesLeft <= |rows|
    ensures m.weekendsLeft <= m.classesLeft && m.coursesLeft <= m.classesLeft
    ensures m.coursesLeft <= |CourseSet(DropUnparsed(rows))|
    ensures m.weekendsLeft == 0 <==> m.classesLeft == 0
    ensures m.daysUntilLastClass.None? <==> forall r :: r in rows ==> r.date.None?
    ensures m.daysUntilLastClass.Some? ==> (m.daysUntilLastClass.value < 0 <==> m.classesLeft == 0)
  {
    var ss := DropUnparsed(rows);
    assert ss != [] ==> ss[0] in ss;
    Metrics(ClassesLeft(ss, today), WeekendsLeft(ss, today), CoursesLeft(ss, today), DaysUntilLastClass(ss, today))
  }

  /** A row whose date did not parse, wherever it stands, changes none of the metrics. */
  lemma UnparsedRowIsIgnored(before: seq<Row>, r: Row, after: seq<Row>, today: Day)
    requires r.date.None?
    ensures Compute(before + [r] + after, today) == Compute(before + after, today)
  {
    DropUnparsedAppend(before + [r], after);
    DropUnparsedAppend(before, [r]);
    DropUnparsedAppend(before, after);
    assert DropUnparsed([r]) == Parsed(r) + DropUnparsed([]);
    assert DropUnparsed(before) + [] == DropUnparsed(before);
  }
}
