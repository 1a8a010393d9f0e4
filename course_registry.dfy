/** The in-memory course registry of the server: an ordered collection of
    `{id, name}` records, looked up by id and extended by create requests. */
module CourseRegistry {
  import opened Wrappers

  datatype Course = Course(id: int, name: string)

  /** The three records the collection holds when the process starts. */
  const Seed: seq<Course> := [Course(1, "course1"), Course(2, "course2"), Course(3, "course3")]

  /** The registry's invariant: the record at position `i` carries id `i + 1`. */
  predicate IdsMatchPositions(s: seq<Course>) {
    forall i :: 0 <= i < |s| ==> s[i].id == i + 1
  }

  lemma SeedMatchesPositions()
    ensures |Seed| == 3 && IdsMatchPositions(Seed)
  {
  }

  /** Under the invariant no two records share an id, and every id is positive. */
  lemma IdsUnique(s: seq<Course>)
    requires IdsMatchPositions(s)
    ensures forall i, j :: 0 <= i < |s| && 0 <= j < |s| && s[i].id == s[j].id ==> i == j
    ensures forall i :: 0 <= i < |s| ==> s[i].id > 0
  {
  }

  /** The largest id in `s`, or 0 when `s` is empty. */
  function MaxId(s: seq<Course>): (m: int)
    ensures forall i :: 0 <= i < |s| ==> s[i].id <= m
    ensures s != [] ==> exists i :: 0 <= i < |s| && s[i].id == m
  {
    if |s| == 0 then 0
    else
      var m := MaxId(s[..|s| - 1]);
      var last := s[|s| - 1].id;
      if |s| == 1 || last > m then last
      else m
  }

  /** Under the invariant the next sequential id `|s| + 1` is the previous
      maximum id plus one (or 1 for an empty collection). */
  lemma {:induction false} NextIdIsMaxPlusOne(s: seq<Course>)
    requires IdsMatchPositions(s)
    ensures MaxId(s) == |s|
  {
    if |s| > 0 {
      NextIdIsMaxPlusOne(s[..|s| - 1]);
    }
  }

  /** The path parameter once parsed: an integer, or JavaScript's NaN, which
      equals no id. */
  datatype PathId = Int(value: int) | NaN

  /** The position of the first record whose id is `id`, scanning from the front. */
  function FirstIndex(s: seq<Course>, id: int): (r: Option<nat>)
    ensures r.None? <==> forall i :: 0 <= i < |s| ==> s[i].id != id
    ensures r.Some? ==> r.value < |s| && s[r.value].id == id
    ensures r.Some? ==> forall j :: 0 <= j < r.value ==> s[j].id != id
  {
    if |s| == 0 then None
    else if s[0].id == id then Some(0)
    else
      match FirstIndex(s[1..], id)
      case None => None
      case Some(k) => Some(k + 1)
  }

  /** The collection's `find`: the first record whose id is `id`, if any. */
  function Find(s: seq<Course>, id: int): (r: Option<Course>)
    ensures r.None? <==> forall i :: 0 <= i < |s| ==> s[i].id != id
    ensures r.Some? ==> r.value in s && r.value.id == id
    ensures r.Some? ==> FirstIndex(s, id).Some? && r.value == s[FirstIndex(s, id).value]
  {
    match FirstIndex(s, id)
    case None => None
    case Some(k) => Some(s[k])
  }

  /** Under the invariant the lookup is positional: id `n` sits at index `n - 1`. */
  lemma FindByPosition(s: seq<Course>, id: int)
    requires IdsMatchPositions(s)
    ensures Find(s, id) == if 1 <= id <= |s| then Some(s[id - 1]) else None
  {
    if 1 <= id <= |s| {
      assert s[id - 1].id == id;
    }
  }

  /** Outcomes of the course handlers: the record found or created, the 404
      with its fixed text, or the 400 with the first validation failure. */
  datatype Response = Ok(course: Course) | NotFound(message: string) | Invalid(error: ValidationError)

  const NotFoundMessage: string := "404 Course Not Found. "

  /** The GET-by-id handler's single outcome. */
  function GetCourse(s: seq<Course>, id: PathId): (r: Response)
    ensures r.Ok? || r == NotFound(NotFoundMessage)
    ensures r.Ok? <==> id.Int? && exists i :: 0 <= i < |s| && s[i].id == id.value
    ensures r.Ok? ==> r.course in s && id == Int(r.course.id)
  {
    match id
    case NaN => NotFound(NotFoundMessage)
    case Int(n) =>
      match Find(s, n)
      case None => NotFound(NotFoundMessage)
      case Some(c) => Ok(c)
  }

  /** The JSON values a request body may carry under `name`. */
  datatype Json = JString(s: string) | JNumber | JBoolean | JNull | JArray | JObject

  /** A create request's body: its `name` property, absent or present. */
  datatype Body = Body(name: Option<Json>)

  /** Which rule of the schema `name: string, min 3, required` failed first. */
  datatype ValidationError = NameRequired | NameNotAString | NameTooShort

  const MinNameLength: nat := 3

  /** The create schema: `name` is required, is a string, and has at least
      three characters. */
  function Validate(body: Body): (r: Result<string, ValidationError>)
    ensures r.Success? <==> body.name.Some? && body.name.value.JString? && |body.name.value.s| >= MinNameLength
    ensures r.Success? ==> r.value == body.name.value.s
    ensures r == Failure(NameRequired) <==> body.name.None?
    ensures r == Failure(NameNotAString) <==> body.name.Some? && !body.name.value.JString?
    ensures r == Failure(NameTooShort) <==> body.name.Some? && body.name.value.JString? && |body.name.value.s| < MinNameLength
  {
    match body.name
    case None => Failure(NameRequired)
    case Some(JString(s)) => if |s| < MinNameLength then Failure(NameTooShort) else Success(s)
    case Some(_) => Failure(NameNotAString)
  }

  /** Appending the next sequential record keeps the invariant, and the new id
      is fresh. */
  lemma AppendKeepsPositions(s: seq<Course>, name: string)
    requires IdsMatchPositions(s)
    ensures IdsMatchPositions(s + [Course(|s| + 1, name)])
    ensures forall i :: 0 <= i < |s| ==> s[i].id != |s| + 1
  {
  }

  /** After a create, the new id finds the new record and every other lookup is
      as before. */
  lemma LookupAfterAppend(s: seq<Course>, name: string, id: PathId)
    requires IdsMatchPositions(s)
    ensures GetCourse(s + [Course(|s| + 1, name)], Int(|s| + 1)) == Ok(Course(|s| + 1, name))
    ensures id != Int(|s| + 1) ==> GetCourse(s + [Course(|s| + 1, name)], id) == GetCourse(s, id)
  {
    var t := s + [Course(|s| + 1, name)];
    AppendKeepsPositions(s, name);
    FindByPosition(t, |s| + 1);
    if id.Int? {
      FindByPosition(s, id.value);
      FindByPosition(t, id.value);
    }
  }

  /** The list endpoint's response: a fixed array, whatever the collection holds. */
  const ListResponse: seq<int> := [1, 2, 3]

  /** The ids of the collection, in order. */
  function Ids(s: seq<Course>): (r: seq<int>)
    ensures |r| == |s|
    ensures forall i :: 0 <= i < |s| ==> r[i] == s[i].id
  {
    if |s| == 0 then [] else Ids(s[..|s| - 1]) + [s[|s| - 1].id]
  }

  /** The fixed list response agrees with the ids of the collection exactly when
      the collection holds three records, as it does at start. */
  lemma ListMatchesIdsOnlyAtSeedSize(s: seq<Course>)
    requires IdsMatchPositions(s)
    ensures ListResponse == Ids(s) <==> |s| == 3
  {
    if |s| == 3 {
      assert Ids(s)[0] == 1 && Ids(s)[1] == 2 && Ids(s)[2] == 3;
    }
  }

  /** The module-level mutable collection of the server. */
  class CourseStore {
    var courses: seq<Course>

    ghost predicate Valid()
      reads this
    {
      IdsMatchPositions(courses)
    }

    /** The collection as the process starts. */
    constructor ()
      ensures courses == Seed && Valid()
    {
      courses := Seed;
    }

    /** GET by id: reads the collection and changes nothing. */
    method Get(id: PathId) returns (r: Response)
      ensures r == GetCourse(courses, id)
      ensures Valid() && id.Int? && 1 <= id.value <= |courses| ==> r == Ok(courses[id.value - 1])
      ensures Valid() && !(id.Int? && 1 <= id.value <= |courses|) ==> r == NotFound(NotFoundMessage)
    {
      r := GetCourse(courses, id);
    }

    /** The list endpoint: reads nothing of the collection. */
    method List() returns (r: seq<int>)
      ensures r == ListResponse
    {
      r := [1, 2, 3];
    }

    /** POST: validates the body; on failure the collection is untouched, on
        success the record `{|courses| + 1, name}` is appended and returned. */
    method Create(body: Body) returns (r: Response)
      modifies this
      ensures old(Valid()) ==> Valid()
      ensures Validate(body).Failure? ==>
                r == Invalid(Validate(body).error) && courses == old(courses)
      ensures Validate(body).Success? ==>
                var c := Course(|old(courses)| + 1, Validate(body).value);
                r == Ok(c) && courses == old(courses) + [c]
    {
      var v := Validate(body);
      if v.Failure? {
        r := Invalid(v.error);
        return;
      }
      var course := Course(|courses| + 1, v.value);
      courses := courses + [course];
      r := Ok(course);
    }
  }
}
