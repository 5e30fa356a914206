/**
 The `GET /course/active` handler (index.js:101-122): take every course with
 its requests, keep those that start strictly after `now`, compute the seats
 still free and project each to a `CourseAvailability`, then keep those with
 a strictly positive number of free seats.

 The handler reads the clock once per course, inside the date filter; this
 model fixes one instant `now` for the whole list.
 */
module ActiveCourses {
  import opened CourseModel

  /**
   Seats still free: the stored ceiling minus the requests already made
   (index.js:110). The two bounds below follow from the request count being
   non-negative; the arithmetic the response promises, free seats equal
   capacity minus request count, is stated by `ProjectsFrom`.
   */
  function Remaining(c: Course): (r: int)
    ensures r <= c.capacity
    ensures r == c.capacity <==> c.requests == []
  {
    c.capacity - |c.requests|
  }

  /** The handler's per-course projection (index.js:109-119). */
  function Project(c: Course): (x: CourseAvailability)
  {
    var remaining := Remaining(c);
    CourseAvailability(c.id, c.name, c.start, remaining, c.createdAt, c.updatedAt)
  }

  /** Step 1: the courses that start strictly after `now` (index.js:108). */
  function FilterUpcoming(cs: seq<Course>, now: int): (r: seq<Course>)
    ensures |r| <= |cs|
    ensures forall c :: c in r ==> c in cs && c.start > now
    ensures forall c :: c in cs && c.start > now ==> c in r
  {
    if cs == [] then []
    else if cs[0].start > now then [cs[0]] + FilterUpcoming(cs[1..], now)
    else FilterUpcoming(cs[1..], now)
  }

  /** Step 2: compute the free seats of each course and project it (index.js:109-119). */
  function ProjectAll(cs: seq<Course>): (r: seq<CourseAvailability>)
    ensures |r| == |cs|
    ensures forall i :: 0 <= i < |cs| ==> r[i] == Project(cs[i])
  {
    if cs == [] then [] else [Project(cs[0])] + ProjectAll(cs[1..])
  }

  /** Step 3: the records whose free seats are strictly positive (index.js:120). */
  function KeepOpen(xs: seq<CourseAvailability>): (r: seq<CourseAvailability>)
    ensures |r| <= |xs|
    ensures forall x :: x in r ==> x in xs && x.capacity > 0
    ensures forall x :: x in xs && x.capacity > 0 ==> x in r
  {
    if xs == [] then []
    else if xs[0].capacity > 0 then [xs[0]] + KeepOpen(xs[1..])
    else KeepOpen(xs[1..])
  }

  /** The whole handler: the response of `GET /course/active` for the loaded courses `cs` at instant `now`. */
  function Active(cs: seq<Course>, now: int): (r: seq<CourseAvailability>)
    ensures |r| <= |cs|
    ensures forall x :: x in r ==> x.start > now && x.capacity > 0
  {
    KeepOpen(ProjectAll(FilterUpcoming(cs, now)))
  }

  // ---------------------------------------------------------------------
  // An independent reference: one filter on the combined condition.

  /** A course the route lists: it has not started yet and has a free seat. */
  predicate IsActive(c: Course, now: int)
  {
    c.start > now && Remaining(c) > 0
  }

  /** The courses of `cs` that are active at `now`, in their order. */
  function SelectActive(cs: seq<Course>, now: int): (r: seq<Course>)
  {
    if cs == [] then []
    else if IsActive(cs[0], now) then [cs[0]] + SelectActive(cs[1..], now)
    else SelectActive(cs[1..], now)
  }

  /** The three-step pipeline lists exactly the projections of the active courses, in input order. */
  lemma {:induction false} ActiveIsSelectActive(cs: seq<Course>, now: int)
    ensures Active(cs, now) == ProjectAll(SelectActive(cs, now))
  {
    if cs != [] {
      var c, rest := cs[0], cs[1..];
      ActiveIsSelectActive(rest, now);
      if c.start > now {
        assert FilterUpcoming(cs, now) == [c] + FilterUpcoming(rest, now);
        ProjectAllCons(c, FilterUpcoming(rest, now));
        KeepOpenCons(Project(c), ProjectAll(FilterUpcoming(rest, now)));
        if Remaining(c) > 0 {
          assert SelectActive(cs, now) == [c] + SelectActive(rest, now);
          ProjectAllCons(c, SelectActive(rest, now));
        } else {
          assert SelectActive(cs, now) == SelectActive(rest, now);
        }
      } else {
        assert FilterUpcoming(cs, now) == FilterUpcoming(rest, now);
        assert SelectActive(cs, now) == SelectActive(rest, now);
      }
    }
  }

  lemma ProjectAllCons(c: Course, cs: seq<Course>)
    ensures ProjectAll([c] + cs) == [Project(c)] + ProjectAll(cs)
  {
    assert ([c] + cs)[1..] == cs;
  }

  lemma KeepOpenCons(x: CourseAvailability, xs: seq<CourseAvailability>)
    ensures KeepOpen([x] + xs) == if x.capacity > 0 then [x] + KeepOpen(xs) else KeepOpen(xs)
  {
    assert ([x] + xs)[1..] == xs;
  }

  lemma {:induction false} SelectActiveMembers(cs: seq<Course>, now: int)
    ensures forall c :: c in SelectActive(cs, now) <==> c in cs && IsActive(c, now)
  {
    if cs != [] {
      SelectActiveMembers(cs[1..], now);
      assert cs == [cs[0]] + cs[1..];
    }
  }

  /**
   Field by field, what a response record says about the course it comes
   from (index.js:110-118): the identity, name, dates and timestamps are
   copied and `capacity` is the stored ceiling minus the requests.
   */
  predicate ProjectsFrom(x: CourseAvailability, c: Course)
  {
    && x.id == c.id
    && x.name == c.name
    && x.start == c.start
    && x.capacity == c.capacity - |c.requests|
    && x.createdAt == c.createdAt
    && x.updatedAt == c.updatedAt
  }

  /** `Project` builds the one record that `ProjectsFrom` describes. */
  lemma ProjectIsProjectsFrom(x: CourseAvailability, c: Course)
    ensures ProjectsFrom(x, c) <==> x == Project(c)
  {
  }

  lemma ProjectAllMembers(cs: seq<Course>, x: CourseAvailability)
    ensures x in ProjectAll(cs) <==> exists c :: c in cs && ProjectsFrom(x, c)
  {
    if x in ProjectAll(cs) {
      var i :| 0 <= i < |cs| && ProjectAll(cs)[i] == x;
      assert cs[i] in cs;
    }
    if c :| c in cs && ProjectsFrom(x, c) {
      var i :| 0 <= i < |cs| && cs[i] == c;
      assert ProjectAll(cs)[i] == x;
    }
  }

  /** A record is in the response if and only if it is the projection of an active input course. */
  lemma ActiveMembership(cs: seq<Course>, now: int, x: CourseAvailability)
    ensures x in Active(cs, now) <==> exists c :: c in cs && IsActive(c, now) && ProjectsFrom(x, c)
  {
    ActiveIsSelectActive(cs, now);
    SelectActiveMembers(cs, now);
    ProjectAllMembers(SelectActive(cs, now), x);
  }

  /**
   Completeness: every input course that starts after `now` and has a seat
   left is listed, with exactly `capacity - |requests|` seats.
   */
  lemma ActiveCourseListed(cs: seq<Course>, now: int, c: Course)
    requires c in cs
    requires c.start > now && c.capacity - |c.requests| > 0
    ensures exists x :: x in Active(cs, now) && ProjectsFrom(x, c)
  {
    ActiveMembership(cs, now, Project(c));
  }

  /**
   Soundness: a course that has started (a start equal to `now` included) or
   is full or over-subscribed never shows up in the response. When the ids
   are unique, no record with its id shows up either.
   */
  lemma InactiveCourseOmitted(cs: seq<Course>, now: int, c: Course)
    requires c in cs
    requires c.start <= now || c.capacity - |c.requests| <= 0
    ensures Project(c) !in Active(cs, now)
    ensures UniqueIds(cs) ==> forall x :: x in Active(cs, now) ==> x.id != c.id
  {
    ActiveMembership(cs, now, Project(c));
    if UniqueIds(cs) {
      forall x | x in Active(cs, now) ensures x.id != c.id {
        ActiveMembership(cs, now, x);
        var d :| d in cs && IsActive(d, now) && ProjectsFrom(x, d);
        var i :| 0 <= i < |cs| && cs[i] == c;
        var j :| 0 <= j < |cs| && cs[j] == d;
      }
    }
  }

  // ---------------------------------------------------------------------
  // Order: the response is the image of a subsequence of the input.

  /** The positions, from `i` on, of the active courses of `cs`, in increasing order. */
  function IndicesFrom(cs: seq<Course>, now: int, i: nat): (ix: seq<nat>)
    requires i <= |cs|
    decreases |cs| - i
    ensures forall k :: 0 <= k < |ix| ==> i <= ix[k] < |cs| && IsActive(cs[ix[k]], now)
    ensures forall k, l :: 0 <= k < l < |ix| ==> ix[k] < ix[l]
    ensures forall j :: i <= j < |cs| && IsActive(cs[j], now) ==> j in ix
  {
    if i == |cs| then []
    else if IsActive(cs[i], now) then [i] + IndicesFrom(cs, now, i + 1)
    else IndicesFrom(cs, now, i + 1)
  }

  lemma SelectActiveStep(cs: seq<Course>, now: int, i: nat)
    requires i < |cs|
    ensures SelectActive(cs[i..], now) ==
      if IsActive(cs[i], now) then [cs[i]] + SelectActive(cs[i + 1..], now) else SelectActive(cs[i + 1..], now)
  {
    assert cs[i..][0] == cs[i];
    assert cs[i..][1..] == cs[i + 1..];
  }

  lemma {:induction false} SelectActiveAt(cs: seq<Course>, now: int, i: nat)
    requires i <= |cs|
    decreases |cs| - i
    ensures |SelectActive(cs[i..], now)| == |IndicesFrom(cs, now, i)|
    ensures forall k :: 0 <= k < |IndicesFrom(cs, now, i)| ==>
      SelectActive(cs[i..], now)[k] == cs[IndicesFrom(cs, now, i)[k]]
  {
    if i < |cs| {
      SelectActiveAt(cs, now, i + 1);
      SelectActiveStep(cs, now, i);
      var sel, ix := SelectActive(cs[i + 1..], now), IndicesFrom(cs, now, i + 1);
      if IsActive(cs[i], now) {
        assert IndicesFrom(cs, now, i) == [i] + ix;
        forall k | 0 <= k < |ix| + 1
          ensures ([cs[i]] + sel)[k] == cs[([i] + ix)[k]]
        {
          if k > 0 {
            assert ([cs[i]] + sel)[k] == sel[k - 1];
            assert ([i] + ix)[k] == ix[k - 1];
          }
        }
      }
    } else {
      assert cs[i..] == [];
    }
  }

  /**
   The k-th record of the response comes from the k-th active course of the
   input: the response keeps input order, is no longer than the input, and
   lists each active course exactly once.
   */
  lemma {:induction false} ActiveIsOrderedImage(cs: seq<Course>, now: int)
    ensures var r, ix := Active(cs, now), IndicesFrom(cs, now, 0);
      && |r| == |ix| <= |cs|
      && (forall k, l :: 0 <= k < l < |ix| ==> ix[k] < ix[l])
      && (forall j :: 0 <= j < |cs| && IsActive(cs[j], now) ==> j in ix)
      && (forall k :: 0 <= k < |r| ==> IsActive(cs[ix[k]], now) && ProjectsFrom(r[k], cs[ix[k]]))
  {
    ActiveIsSelectActive(cs, now);
    SelectActiveAt(cs, now, 0);
    assert cs[0..] == cs;
  }

  // ---------------------------------------------------------------------
  // The date filter and the seat filter may run in either order.

  /** The courses of `cs` that still have a free seat. */
  function FilterOpen(cs: seq<Course>): (r: seq<Course>)
  {
    if cs == [] then []
    else if Remaining(cs[0]) > 0 then [cs[0]] + FilterOpen(cs[1..])
    else FilterOpen(cs[1..])
  }

  /** Dropping full courses before the date filter gives the same response as the handler's order. */
  lemma {:induction false} FilterOrderIrrelevant(cs: seq<Course>, now: int)
    ensures ProjectAll(FilterUpcoming(FilterOpen(cs), now)) == Active(cs, now)
  {
    SeatFirstIsSelectActive(cs, now);
    ActiveIsSelectActive(cs, now);
  }

  lemma {:induction false} SeatFirstIsSelectActive(cs: seq<Course>, now: int)
    ensures FilterUpcoming(FilterOpen(cs), now) == SelectActive(cs, now)
  {
    if cs != [] {
      var c, rest := cs[0], cs[1..];
      SeatFirstIsSelectActive(rest, now);
      if Remaining(c) > 0 {
        assert FilterOpen(cs) == [c] + FilterOpen(rest);
        assert ([c] + FilterOpen(rest))[1..] == FilterOpen(rest);
      }
    }
  }

  // ---------------------------------------------------------------------
  // A worked example: tomorrow is instant 1, yesterday -1, now 0.

  /**
   Course A (2 seats, 2 requests, tomorrow) is full, course B (2 seats,
   1 request, tomorrow) is listed with 1 seat, course C (5 seats, no
   request, yesterday) has started.
   */
  lemma ThreeCourseExample(r1: Request, r2: Request, r3: Request)
    ensures var a := Course(1, "A", 1, 2, 0, 0, [r1, r2]);
      var b := Course(2, "B", 1, 2, 0, 0, [r3]);
      var c := Course(3, "C", -1, 5, 0, 0, []);
      Active([a, b, c], 0) == [CourseAvailability(2, "B", 1, 1, 0, 0)]
  {
    var a := Course(1, "A", 1, 2, 0, 0, [r1, r2]);
    var b := Course(2, "B", 1, 2, 0, 0, [r3]);
    var c := Course(3, "C", -1, 5, 0, 0, []);
    assert [a, b, c] == [a] + [b, c] && [b, c] == [b] + [c] && [c] == [c] + [];
    assert FilterUpcoming([c], 0) == [];
    assert FilterUpcoming([b, c], 0) == [b];
    assert FilterUpcoming([a, b, c], 0) == [a] + [b];
    ProjectAllCons(b, []);
    ProjectAllCons(a, [b]);
    KeepOpenCons(Project(b), []);
    KeepOpenCons(Project(a), [Project(b)]);
  }
}
