/** What the course handlers send back: a status and a payload per reply. */
module Handlers {
  import opened Wrappers
  import opened CourseRegistry

  datatype Payload = Text(text: string) | CourseJson(course: Course) | ErrorText(error: ValidationError) | Undefined

  datatype Reply = Reply(status: int, payload: Payload)

  /** The one reply a handler gives for an outcome: 200 with the record, 404
      with the fixed text, 400 with the validation failure. */
  function ReplyOf(r: Response): (reply: Reply)
    ensures reply.status == 200 <==> r.Ok?
    ensures reply.status == 404 <==> r.NotFound?
    ensures reply.status == 400 <==> r.Invalid?
    ensures r.Ok? ==> reply.payload == CourseJson(r.course)
    ensures r.NotFound? ==> reply.payload == Text(r.message)
    ensures r.Invalid? ==> reply.payload == ErrorText(r.error)
  {
    match r
    case Ok(c) => Reply(200, CourseJson(c))
    case NotFound(m) => Reply(404, Text(m))
    case Invalid(e) => Reply(400, ErrorText(e))
  }

  /** The GET-by-id handler as written: a miss sends the 404 text and then falls
      through to a second send of the absent record. */
  function GetHandlerAsWritten(s: seq<Course>, id: PathId): (sends: seq<Reply>)
    ensures 1 <= |sends| <= 2
    ensures sends[0] == ReplyOf(GetCourse(s, id))
    ensures |sends| == 2 ==> sends[1] == Reply(404, Undefined)
  {
    var course := match id case Int(n) => Find(s, n) case NaN => None;
    if course.None? then [Reply(404, Text(NotFoundMessage)), Reply(404, Undefined)]
    else [Reply(200, CourseJson(course.value))]
  }

  /** Every miss makes the written handler send twice. */
  lemma MissSendsTwice(s: seq<Course>, id: PathId)
    ensures |GetHandlerAsWritten(s, id)| == 2 <==> GetCourse(s, id).NotFound?
  {
  }

  /** The input that shows it: id 4 against the initial collection. */
  lemma MissSendsTwiceOnSeed()
    ensures GetHandlerAsWritten(Seed, Int(4)) == [Reply(404, Text(NotFoundMessage)), Reply(404, Undefined)]
  {
    SeedMatchesPositions();
    FindByPosition(Seed, 4);
  }

  /** The corrected handler answers once, with exactly the first reply of the
      written one. */
  lemma CorrectedIsFirstSend(s: seq<Course>, id: PathId)
    ensures ReplyOf(GetCourse(s, id)) == GetHandlerAsWritten(s, id)[0]
    ensures |GetHandlerAsWritten(s, id)| == 1 <==> GetCourse(s, id).Ok?
  {
  }

  /** A scenario on a freshly seeded store: POST `{name: "course4"}` creates record 4,
      a GET of id 4 returns it, and a GET of id 5 is a 404. */
  method CreateThenGet() returns (created: Response, fetched: Response, missing: Response)
    ensures created == Ok(Course(4, "course4"))
    ensures fetched == created
    ensures ReplyOf(missing) == Reply(404, Text("404 Course Not Found. "))
  {
    var store := new CourseStore();
    SeedMatchesPositions();
    created := store.Create(Body(Some(JString("course4"))));
    fetched := store.Get(Int(4));
    missing := store.Get(Int(5));
  }
}
