/**
 The records the active-course route works on: a course as it is loaded
 together with its enrollment requests, and the six-field record the route
 returns for each course that is still open.

 Calendar dates and timestamps are abstract instants (`int`): only their
 order matters to the route.
 */
module CourseModel {

  /** One enrollment attempt, a row of the `request` table (index.js:53-57). */
  datatype Request = Request(id: int, courseId: int, name: string, email: string, phone: string)

  /**
   A row of the `course` table (index.js:47-51) with the timestamps the ORM
   adds and the requests eagerly joined to it (index.js:63, 102-107).
   `capacity` is the stored seat ceiling, never the remaining seats.
   */
  datatype Course = Course(
    id: int,
    name: string,
    start: int,
    capacity: int,
    createdAt: int,
    updatedAt: int,
    requests: seq<Request>)

  /**
   What the active-course route returns per course (index.js:111-118): the
   same fields as the course, except that `capacity` holds the seats still
   free and the request list is not carried.
   */
  datatype CourseAvailability = CourseAvailability(
    id: int,
    name: string,
    start: int,
    capacity: int,
    createdAt: int,
    updatedAt: int)

  /** Every course of the list has an id no other course of the list has, as the table's key guarantees. */
  predicate UniqueIds(cs: seq<Course>)
  {
    forall i, j :: 0 <= i < |cs| && 0 <= j < |cs| && cs[i].id == cs[j].id ==> i == j
  }
}
