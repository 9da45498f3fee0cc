/**
 * `validate_request` of src/middleware/validation.rs. The `validator` crate
 * itself is not modelled: the outcome of `payload.validate()` is a
 * parameter, and what is modelled is how its field errors become the one
 * message of `AppError::Validation`.
 */
module RequestValidation {
  import opened Domain
  import opened Text
  import opened AppErrors

  /** One `ValidationError`: its code and optional message. */
  datatype FieldError = FieldError(code: string, message: Option<string>)

  /** The errors reported for one field. */
  datatype FieldErrors = FieldErrors(field: string, errors: seq<FieldError>)

  /** The message, or else the Debug form of the code (quoted). */
  function Describe(e: FieldError): string
  {
    match e.message
    case Some(m) => m
    case None => "\"" + e.code + "\""
  }

  /** `format!("{}: {}", field, ..)` for one error. */
  function Segment(field: string, e: FieldError): (s: string)
    ensures field + ": " <= s
  {
    field + ": " + Describe(e)
  }

  /** The segments of one field, in the order of its errors. */
  function GroupSegments(g: FieldErrors): (r: seq<string>)
    ensures |r| == |g.errors|
    ensures forall i :: 0 <= i < |r| ==> r[i] == Segment(g.field, g.errors[i])
  {
    seq(|g.errors|, i requires 0 <= i < |g.errors| => Segment(g.field, g.errors[i]))
  }

  /** The `flat_map` over the fields: every segment starts with the name of one of them. */
  function Segments(groups: seq<FieldErrors>): (r: seq<string>)
    ensures forall i :: 0 <= i < |r| ==> exists j :: 0 <= j < |groups| && groups[j].field + ": " <= r[i]
  {
    if groups == [] then []
    else
      var first, more := GroupSegments(groups[0]), Segments(groups[1..]);
      assert forall i :: |first| <= i < |first + more| ==> (first + more)[i] == more[i - |first|];
      assert forall j :: 0 <= j < |groups[1..]| ==> groups[1..][j] == groups[j + 1];
      first + more
  }

  function ErrorCount(groups: seq<FieldErrors>): nat
  {
    if groups == [] then 0 else |groups[0].errors| + ErrorCount(groups[1..])
  }

  /** The joined message of `AppError::Validation`: empty exactly when no error was reported. */
  function Message(groups: seq<FieldErrors>): (r: string)
    ensures r == [] <==> ErrorCount(groups) == 0
  {
    SegmentCount(groups);
    JoinStartsWithFirst(Segments(groups), ", ");
    Join(Segments(groups), ", ")
  }

  /**
   * `validate_request`: the payload comes back untouched when it is valid;
   * otherwise the error is always `AppError::Validation` with the joined
   * message.
   */
  function ValidateRequest<T>(payload: T, outcome: Result<(), seq<FieldErrors>>): (r: Result<T, AppError>)
    ensures r.Success? <==> outcome.Success?
    ensures r.Success? ==> r.value == payload
    ensures r.Failure? ==> r.error == Validation(Message(outcome.error))
  {
    match outcome
    case Success(_) => Success(payload)
    case Failure(groups) => Failure(Validation(Message(groups)))
  }

  /** One segment per error, across all fields. */
  lemma {:induction false} SegmentCount(groups: seq<FieldErrors>)
    ensures |Segments(groups)| == ErrorCount(groups)
  {
    if groups != [] {
      SegmentCount(groups[1..]);
    }
  }

  lemma {:induction false} SegmentsAppend(a: seq<FieldErrors>, b: seq<FieldErrors>)
    ensures Segments(a + b) == Segments(a) + Segments(b)
  {
    if a == [] {
      assert a + b == b;
    } else {
      assert (a + b)[1..] == a[1..] + b;
      SegmentsAppend(a[1..], b);
    }
  }

  /** The list of field groups without the one at `j`. */
  function Without(gs: seq<FieldErrors>, j: nat): (r: seq<FieldErrors>)
    requires j < |gs|
    ensures |r| == |gs| - 1
  {
    gs[..j] + gs[j + 1..]
  }

  /** Taking one field group out of the list takes out its segments. */
  lemma {:induction false} SegmentsWithout(gs: seq<FieldErrors>, j: nat)
    requires j < |gs|
    ensures multiset(Without(gs, j)) == multiset(gs) - multiset{gs[j]}
    ensures multiset(Segments(gs)) == multiset(GroupSegments(gs[j])) + multiset(Segments(Without(gs, j)))
  {
    var x := gs[j];
    assert gs == gs[..j] + [x] + gs[j + 1..];
    SegmentsAppend(gs[..j] + [x], gs[j + 1..]);
    SegmentsAppend(gs[..j], [x]);
    SegmentsAppend(gs[..j], gs[j + 1..]);
    assert Segments([x]) == GroupSegments(x) by {
      assert [x][1..] == [];
    }
  }

  /**
   * The field map is a hash map, so fields come in no fixed order: whatever
   * the order, the same segments are produced, each as often.
   */
  lemma {:induction false} SegmentsIgnoreFieldOrder(gs1: seq<FieldErrors>, gs2: seq<FieldErrors>)
    requires multiset(gs1) == multiset(gs2)
    ensures multiset(Segments(gs1)) == multiset(Segments(gs2))
    decreases |gs1|
  {
    if gs1 == [] {
      assert |gs2| == |multiset(gs2)| == 0;
    } else {
      var x := gs1[0];
      assert x in multiset(gs2) by {
        assert x in multiset(gs1);
      }
      var j :| 0 <= j < |gs2| && gs2[j] == x;
      SegmentsWithout(gs1, 0);
      SegmentsWithout(gs2, j);
      SegmentsIgnoreFieldOrder(Without(gs1, 0), Without(gs2, j));
    }
  }

  /** Where the segments of field group `i` sit in the flattened list. */
  lemma {:induction false} SegmentPosition(groups: seq<FieldErrors>, i: nat, e: nat)
    requires i < |groups| && e < |groups[i].errors|
    ensures var p := |Segments(groups[..i])| + e;
      p < |Segments(groups)| && Segments(groups)[p] == Segment(groups[i].field, groups[i].errors[e])
  {
    assert groups == groups[..i] + ([groups[i]] + groups[i + 1..]);
    SegmentsAppend(groups[..i], [groups[i]] + groups[i + 1..]);
    assert ([groups[i]] + groups[i + 1..])[1..] == groups[i + 1..];
  }

  /**
   * Every field with at least one error is named in the message, which is
   * what validation_test.rs looks for ("email", "password").
   */
  lemma FailingFieldNamed(groups: seq<FieldErrors>, i: nat)
    requires i < |groups| && |groups[i].errors| > 0
    ensures Contains(Message(groups), groups[i].field)
  {
    SegmentPosition(groups, i, 0);
    var p := |Segments(groups[..i])|;
    JoinContainsPart(Segments(groups), ", ", p);
    ContainsPrefixOf(Message(groups), Segments(groups)[p], groups[i].field);
  }

  /** Hence a failed validation's details name every failing field. */
  lemma ValidationNamesFields<T>(payload: T, groups: seq<FieldErrors>, i: nat)
    requires i < |groups| && |groups[i].errors| > 0
    ensures ValidateRequest(payload, Failure(groups)).Failure?
    ensures Contains(ValidateRequest(payload, Failure(groups)).error.details, groups[i].field)
  {
    FailingFieldNamed(groups, i);
  }
}
