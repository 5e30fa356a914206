# Active courses of the schedule-itl course server

The server keeps courses and the enrollment requests made for them. Its only
route with decision logic is `GET /course/active`. That route loads every course
together with its requests. It keeps the courses that start strictly after the
current instant. For each kept course it computes the free seats as the stored
capacity minus the number of requests, and it projects the course to six fields:
`id`, `name`, `start`, `capacity` (now the free seats), `createdAt` and `updatedAt`.
Then it drops every record whose free seats are not strictly positive.

This project models that route as pure functions over a sequence of courses:

- `course.dfy`, module `CourseModel`: the `Request` and `Course` records as the
  route loads them (a course carries its list of requests), and the separate
  `CourseAvailability` record the route returns. In the source, the handler
  overwrites the loaded course's `capacity` field before projecting it. Here the
  free seats are a local binding and go into a distinct response type.
- `active_courses.dfy`, module `ActiveCourses`: the three steps
  (`FilterUpcoming`, `ProjectAll`, `KeepOpen`) and their composition `Active`.
  The module also has an independent reference: `SelectActive` is a single
  filter on the combined condition `IsActive`, and `ProjectsFrom` describes a
  response record field by field. The lemmas tie the pipeline to that reference:
  soundness, completeness, the seat arithmetic, order, and step-order
  independence.

Dates and timestamps are abstract integers, and only their order matters. The
handler's clock reads (`new Date()`) are replaced by one parameter `now`.

## Model

| member | source | states |
|---|---|---|
| `ActiveCourses.Remaining` | index.js:110 | The free seats never exceed the stored capacity. They equal it exactly when the course has no request. |
| `ActiveCourses.FilterUpcoming` | index.js:108 | Keeps exactly the input courses whose start is strictly after `now`, and is no longer than the input. |
| `ActiveCourses.ProjectAll` | index.js:109-119 | Maps each course, position by position, to its projection carrying the free seats. The length is unchanged. |
| `ActiveCourses.KeepOpen` | index.js:120 | Keeps exactly the records whose free seats are strictly positive, and is no longer than its input. |
| `ActiveCourses.Active` | index.js:101-122 | The response is no longer than the course list. Every listed record starts strictly after `now` and has at least one free seat. |
| `ActiveCourses.ActiveIsSelectActive` | index.js:102-120 | The filter/map/filter chain equals the projection of a single filter on "starts after `now` and has a free seat", in input order. |
| `ActiveCourses.SelectActiveMembers` | index.js:108-120 | A course is selected by the single-filter reference exactly when it is in the input and active. |
| `ActiveCourses.ProjectIsProjectsFrom` | index.js:111-118 | The projection is the one record that copies `id`, `name`, `start`, `createdAt` and `updatedAt` and whose `capacity` is capacity minus the request count. |
| `ActiveCourses.ProjectAllMembers` | index.js:109-119 | A record is in the projected list exactly when it projects from some course of the list. |
| `ActiveCourses.ActiveMembership` | index.js:108-120 | Both directions: a record is in the response exactly when some input course starts after `now`, has a free seat, and the record projects from it. |
| `ActiveCourses.ActiveCourseListed` | index.js:108-120 | Completeness: every input course with `start > now` and `capacity` minus the request count strictly positive is listed, with those exact free seats and its other fields copied. |
| `ActiveCourses.InactiveCourseOmitted` | index.js:108-120 | A course that starts at or before `now` is never listed. Neither is a full or over-subscribed course, whose remainder may be negative. With unique ids, no record with its id is listed. |
| `ActiveCourses.IndicesFrom` | index.js:108-120 | The positions of the active courses, from a given position on: strictly increasing, in range, all active, and none missing. |
| `ActiveCourses.SelectActiveAt` | index.js:108-120 | The single-filter reference over a suffix picks the courses at exactly the positions `IndicesFrom` gives, in that order. |
| `ActiveCourses.ActiveIsOrderedImage` | index.js:102-120 | The k-th response record projects from the k-th active course. So the response is the image of a subsequence of the input, in input order, and lists each active course once. |
| `ActiveCourses.FilterOrderIrrelevant` | index.js:108-120 | Dropping full courses before the date filter gives the same response as the handler's order. |
| `ActiveCourses.SeatFirstIsSelectActive` | index.js:108-120 | The seat filter followed by the date filter selects exactly the active courses, in order. |
| `ActiveCourses.ThreeCourseExample` | index.js:101-122 | A full course starting tomorrow and a course that started yesterday are absent. A course with 2 seats and 1 request, starting tomorrow, is listed with 1 seat. |

## Left out

- Database connection, environment selection and the startup connectivity check (index.js:20-40): configuration and I/O.
- Model definitions, associations and schema `sync` calls (index.js:42-69): ORM schema plumbing. The eager join of requests to their course is taken as given. Each `Course` value carries its requests.
- Server construction, plugin registration, documentation generation and route binding (index.js:9-18, 71-85, 264-265): HTTP transport.
- Payload and path validation blocks (index.js:158-164, 174-178, 195-201, 228-232, 246-250): declarative calls into a validation library whose behaviour is not part of this model.
- The pass-through handlers for listing and creating courses, requests and heroes, and for deleting a hero (index.js:89-91, 132-139, 151-154, 171-173, 188-191, 208-210, 221-224, 240-242): each is one ORM call with no logic. This includes `POST /course/{id}/request`, which creates the request from the payload, so its `courseId` field wins over the path `{id}` (index.js:190).
- Static file serving (index.js:253-261): file-system I/O.
- Reading the clock and converting the stored calendar date to an instant (index.js:108): `now` is a parameter and `start` is an abstract integer. So the model does not capture time zones, or the fact that a date-only start parses to midnight UTC, which excludes a course starting on today's UTC date.
- Active: the source reads the clock once per course, inside the date filter (index.js:108), so later courses in the list are compared with a later instant. The model compares every course with the same instant `now`. The membership and order lemmas therefore describe a request whose clock reads all fall on the same side of every course's start. When one request spans a course's start instant, the source may list a course and drop a later one with the same start, and the model does not capture that.
- A `NULL` start or capacity: the columns are nullable, but the create route requires both. The model's fields are always present integers.
- Active: the capacity is an unbounded integer. The stored column is 32-bit and the JavaScript subtraction is exact in that range, so no wrap-around is modelled.
