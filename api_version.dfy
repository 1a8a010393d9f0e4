/** The API version prefix that the server splices into its routes: the package
    version with its last dot-separated component removed, so "1.2.3" gives "1.2". */
module ApiVersion {

  /** The number of occurrences of `c` in `s`. */
  function Occurrences(s: string, c: char): (n: nat)
    ensures n <= |s|
  {
    if |s| == 0 then 0
    else Occurrences(s[..|s| - 1], c) + (if s[|s| - 1] == c then 1 else 0)
  }

  /** A string without `c` has no occurrence of it. */
  lemma {:induction false} OccurrencesAbsent(s: string, c: char)
    requires c !in s
    ensures Occurrences(s, c) == 0
  {
    if |s| > 0 {
      assert forall x :: x in s[..|s| - 1] ==> x in s;
      OccurrencesAbsent(s[..|s| - 1], c);
    }
  }

  /** Occurrences add up over a concatenation. */
  lemma {:induction false} OccurrencesConcat(a: string, b: string, c: char)
    ensures Occurrences(a + b, c) == Occurrences(a, c) + Occurrences(b, c)
  {
    if |b| == 0 {
      assert a + b == a;
    } else {
      assert (a + b)[..|a + b| - 1] == a + b[..|b| - 1];
      OccurrencesConcat(a, b[..|b| - 1], c);
    }
  }

  /** JavaScript's `lastIndexOf` for a one-character needle: the greatest index
      of `s` holding `c`, or -1 when `c` does not occur in `s`. */
  function LastIndexOf(s: string, c: char): (r: int)
    ensures -1 <= r < |s|
    ensures r == -1 <==> c !in s
    ensures 0 <= r ==> s[r] == c && c !in s[r + 1..]
  {
    if |s| == 0 then -1
    else if s[|s| - 1] == c then |s| - 1
    else
      var r := LastIndexOf(s[..|s| - 1], c);
      assert r >= 0 ==> s[r + 1..] == s[..|s| - 1][r + 1..] + [s[|s| - 1]];
      r
  }

  /** JavaScript's legacy `substr(start, length)`: a negative start counts from
      the end, and the start and the length are clamped to the string, so a
      negative length gives the empty string. */
  function Substr(s: string, start: int, length: int): (r: string)
    ensures |r| <= |s|
    ensures length <= 0 ==> r == ""
    ensures start == 0 ==> r <= s
    ensures 0 <= start && 0 <= length && start + length <= |s| ==> r == s[start..start + length]
  {
    var from := if start < 0 then (if |s| + start < 0 then 0 else |s| + start)
                else if start > |s| then |s| else start;
    var len := if length < 0 then 0 else if length > |s| then |s| else length;
    var to := if from + len > |s| then |s| else from + len;
    s[from..to]
  }

  /** The version prefix of the routes: `version` up to, and not including, its
      last dot; the empty string when `version` has no dot. */
  function ApiVersion(version: string): (r: string)
    ensures r <= version
    ensures '.' !in version ==> r == ""
    ensures '.' in version ==> |r| < |version| && version[|r|] == '.' && '.' !in version[|r| + 1..]
  {
    Substr(version, 0, LastIndexOf(version, '.'))
  }

  /** One occurrence in a one-character string equal to `c`. */
  lemma OccurrencesSingle(c: char)
    ensures Occurrences([c], c) == 1
  {
    assert [c][..0] == [];
  }

  /** A dot followed by a dot-free tail adds exactly one dot. */
  lemma DotThenDotFree(head: string, rest: string)
    requires '.' !in rest
    ensures Occurrences(head + (['.'] + rest), '.') == Occurrences(head, '.') + 1
  {
    OccurrencesConcat(head, ['.'] + rest, '.');
    OccurrencesConcat(['.'], rest, '.');
    OccurrencesAbsent(rest, '.');
    OccurrencesSingle('.');
  }

  /** Cutting `s` just before its last dot removes exactly one dot. */
  lemma CutBeforeLastDot(s: string, k: nat)
    requires k < |s| && s[k] == '.' && '.' !in s[k + 1..]
    ensures Occurrences(s[..k], '.') == Occurrences(s, '.') - 1
  {
    assert s == s[..k] + (['.'] + s[k + 1..]);
    DotThenDotFree(s[..k], s[k + 1..]);
  }

  /** Dropping the last component leaves one dot fewer, so one dot-separated
      component fewer. */
  lemma ApiVersionDropsLastComponent(version: string)
    requires '.' in version
    ensures Occurrences(ApiVersion(version), '.') == Occurrences(version, '.') - 1
  {
    var r := ApiVersion(version);
    assert r == version[..|r|];
    CutBeforeLastDot(version, |r|);
  }

  /** Worked values: a three-part version and a version without a dot. */
  lemma ApiVersionExamples()
    ensures ApiVersion("1.2.3") == "1.2"
    ensures ApiVersion("1") == ""
  {
    assert "1.2.3"[..4] == "1.2.";
    assert LastIndexOf("1.2.3", '.') == 3;
    assert "1.2.3"[0..3] == "1.2";
  }

  /** The collection route: "/api/v", the version prefix, then "/courses". */
  function CoursesRoute(version: string): (r: string)
    ensures |r| == |ApiVersion(version)| + 14
    ensures "/api/v" <= r
    ensures r[|r| - 8..] == "/courses"
    ensures r[6..|r| - 8] == ApiVersion(version)
  {
    var r := "/api/v" + ApiVersion(version) + "/courses";
    assert r[6..|r| - 8] == ApiVersion(version);
    r
  }

  /** The item route: the collection route followed by the `:id` parameter. */
  function CourseRoute(version: string): (r: string)
    ensures CoursesRoute(version) <= r
    ensures r[|CoursesRoute(version)|..] == "/:id"
  {
    CoursesRoute(version) + "/:id"
  }

  /** The collection route and an item route never coincide, whatever the two
      versions: one ends in "s", the other in "d". */
  lemma RoutesNeverCollide(v1: string, v2: string)
    ensures CoursesRoute(v1) != CourseRoute(v2)
  {
    var a, b := CoursesRoute(v1), CourseRoute(v2);
    assert a[|a| - 1] == 's';
    assert b[|b| - 1] == 'd';
  }

  /** Two versions give the same collection route exactly when they share the
      version prefix, so the route ignores the last component. */
  lemma CoursesRouteDeterminedByPrefix(v1: string, v2: string)
    ensures CoursesRoute(v1) == CoursesRoute(v2) <==> ApiVersion(v1) == ApiVersion(v2)
  {
  }
}
