/**
 * The pure rules of gcc/models.py: the derived applicant status and the
 * predicates over an applicant's wishes, the status filters per event, the
 * effect of validating the current wishes, answer validity, the
 * application-completeness check and the date checks of an event.
 */
module Models {

  import opened Wrappers
  import opened StatusTypes

  type ApplicantId = nat
  type WishId = nat
  type EventId = nat
  type LabelId = nat
  type QuestionId = nat
  type UserId = nat
  type Year = nat

  /** One row of the EventWish table: an applicant's ranked choice of an event. */
  datatype WishRow = WishRow(id: WishId, applicant: ApplicantId, event: EventId, order: int, status: Status)

  // ---------------------------------------------------------------------------
  // An applicant's wishes and the status derived from them

  /** The rows of applicant `a` (its eventwish_set), in table order. */
  function WishesOf(rows: seq<WishRow>, a: ApplicantId): (ws: seq<WishRow>)
    ensures |ws| <= |rows|
    ensures forall w :: w in ws <==> w in rows && w.applicant == a
  {
    if rows == [] then []
    else (if rows[0].applicant == a then [rows[0]] else []) + WishesOf(rows[1..], a)
  }

  /** The set of statuses found among some wishes. */
  function StatusesOf(ws: seq<WishRow>): set<Status> {
    set w | w in ws :: w.status
  }

  /**
   * Scans `order` from its last element towards its first and returns the
   * first element found in `present`.
   */
  function HighestIn(order: seq<Status>, present: set<Status>): (r: Option<Status>)
    ensures r.None? <==> forall j :: 0 <= j < |order| ==> order[j] !in present
    ensures r.Some? ==> r.value in present
    ensures r.Some? ==> exists j :: 0 <= j < |order| && order[j] == r.value &&
                                    forall k :: j < k < |order| ==> order[k] !in present
  {
    if order == [] then None
    else if order[|order| - 1] in present then Some(order[|order| - 1])
    else HighestIn(order[..|order| - 1], present)
  }

  /**
   * Applicant.status: the status of greatest precedence among the wishes,
   * or `incomplete` for an applicant without wishes.
   */
  function ApplicantStatus(ws: seq<WishRow>): (s: Status)
    ensures |ws| == 0 ==> s == Incomplete
    ensures |ws| > 0 ==> exists i :: 0 <= i < |ws| && ws[i].status == s
    ensures forall i :: 0 <= i < |ws| ==> Rank(ws[i].status) <= Rank(s)
  {
    var present := StatusesOf(ws);
    var found := HighestIn(StatusOrder, present);
    assert forall i :: 0 <= i < |ws| ==> ws[i].status in present && StatusOrder[Rank(ws[i].status)] == ws[i].status;
    assert |ws| > 0 ==> ws[0].status in present && StatusOrder[Rank(ws[0].status)] in present;
    if found.Some? then
      StatusOrderIsPermutation(Rank(found.value));
      found.value
    else
      Incomplete
  }

  /** The derived status is the one status of maximal rank present among the wishes. */
  lemma ApplicantStatusIsTheMaximum(ws: seq<WishRow>, t: Status)
    requires exists i :: 0 <= i < |ws| && ws[i].status == t
    requires forall i :: 0 <= i < |ws| ==> Rank(ws[i].status) <= Rank(t)
    ensures ApplicantStatus(ws) == t
  {
    var s := ApplicantStatus(ws);
    var i :| 0 <= i < |ws| && ws[i].status == t;
    var j :| 0 <= j < |ws| && ws[j].status == s;
    assert Rank(t) <= Rank(s) && Rank(s) <= Rank(t);
    RankInjective(s, t);
  }

  /**
   * Applicant.is_locked: some wish is neither `incomplete` nor `rejected`,
   * that is, some wish ranks at `pending` or above.
   */
  predicate IsLocked(ws: seq<WishRow>)
    ensures IsLocked(ws) <==> exists i :: 0 <= i < |ws| && Rank(ws[i].status) >= Rank(Pending)
    ensures IsLocked(ws) ==> HasNonRejectedChoices(ws)
  {
    exists i :: 0 <= i < |ws| && ws[i].status != Incomplete && ws[i].status != Rejected
  }

  /** Applicant.has_rejected_choices: `rejected` is among the wish statuses. */
  predicate HasRejectedChoices(ws: seq<WishRow>)
    ensures HasRejectedChoices(ws) <==> Rejected in StatusesOf(ws)
  {
    var found := exists i :: 0 <= i < |ws| && ws[i].status == Rejected;
    assert found ==> Rejected in StatusesOf(ws) by {
      if found {
        var i :| 0 <= i < |ws| && ws[i].status == Rejected;
        assert ws[i] in ws;
      }
    }
    found
  }

  /**
   * Applicant.has_non_rejected_choices: some wish is not rejected, which is
   * the case exactly when there are wishes and the derived status is not
   * `rejected`.
   */
  predicate HasNonRejectedChoices(ws: seq<WishRow>)
    ensures HasNonRejectedChoices(ws) <==> |ws| > 0 && ApplicantStatus(ws) != Rejected
  {
    assert |ws| > 0 ==> (ApplicantStatus(ws) == Rejected <==> forall i :: 0 <= i < |ws| ==> ws[i].status == Rejected) by {
      if |ws| > 0 { RejectedIffEveryWishRejected(ws); }
    }
    exists i :: 0 <= i < |ws| && ws[i].status != Rejected
  }

  /** An applicant is locked exactly when its derived status is `pending` or above. */
  lemma LockedIffStatusAtLeastPending(ws: seq<WishRow>)
    ensures IsLocked(ws) <==> ApplicantStatus(ws) in {Pending, Selected, Accepted, Confirmed}
  {
    var s := ApplicantStatus(ws);
    if IsLocked(ws) {
      var i :| 0 <= i < |ws| && ws[i].status != Incomplete && ws[i].status != Rejected;
      assert Rank(ws[i].status) >= 2;
    }
    if s in {Pending, Selected, Accepted, Confirmed} {
      var i :| 0 <= i < |ws| && ws[i].status == s;
      assert ws[i].status != Incomplete && ws[i].status != Rejected;
    }
  }

  /** With at least one wish, the applicant is `rejected` only when every wish is. */
  lemma RejectedIffEveryWishRejected(ws: seq<WishRow>)
    requires |ws| > 0
    ensures ApplicantStatus(ws) == Rejected <==> forall i :: 0 <= i < |ws| ==> ws[i].status == Rejected
  {
    if ApplicantStatus(ws) == Rejected {
      forall i | 0 <= i < |ws| ensures ws[i].status == Rejected {
        RankInjective(ws[i].status, Rejected);
      }
    }
  }

  /**
   * With at least one wish, one of the two choice predicates holds, and the
   * derived status is `rejected` exactly when only the first does.
   */
  lemma ChoicePredicates(ws: seq<WishRow>)
    requires |ws| > 0
    ensures HasRejectedChoices(ws) || HasNonRejectedChoices(ws)
    ensures ApplicantStatus(ws) == Rejected <==> HasRejectedChoices(ws) && !HasNonRejectedChoices(ws)
  {
    RejectedIffEveryWishRejected(ws);
  }

  /** The worked example: selected, rejected and incomplete wishes give `selected`, locked. */
  lemma MixedWishesExample()
    ensures var ws := [WishRow(0, 0, 10, 1, Selected), WishRow(1, 0, 11, 2, Rejected), WishRow(2, 0, 12, 3, Incomplete)];
            ApplicantStatus(ws) == Selected && IsLocked(ws)
  {
    var ws := [WishRow(0, 0, 10, 1, Selected), WishRow(1, 0, 11, 2, Rejected), WishRow(2, 0, 12, 3, Incomplete)];
    assert ws[0].status == Selected;
    ApplicantStatusIsTheMaximum(ws, Selected);
  }

  // ---------------------------------------------------------------------------
  // Direct status assignment

  /** The same wishes, row by row, up to their statuses. */
  predicate SameWishesExceptStatus(r: seq<WishRow>, rows: seq<WishRow>) {
    |r| == |rows| &&
    forall i :: 0 <= i < |rows| ==>
      r[i].id == rows[i].id && r[i].applicant == rows[i].applicant &&
      r[i].event == rows[i].event && r[i].order == rows[i].order
  }

  /** The table after row `k` is given status `s` (wish.status = s; wish.save()). */
  function SetStatus(rows: seq<WishRow>, k: nat, s: Status): (r: seq<WishRow>)
    requires k < |rows|
    ensures SameWishesExceptStatus(r, rows) && r[k].status == s
    ensures forall i :: 0 <= i < |rows| && i != k ==> r[i] == rows[i]
  {
    rows[k := rows[k].(status := s)]
  }

  lemma {:induction false} WishesOfContains(rows: seq<WishRow>, k: nat)
    requires k < |rows|
    ensures exists i :: 0 <= i < |WishesOf(rows, rows[k].applicant)| && WishesOf(rows, rows[k].applicant)[i] == rows[k]
  {
    var ws := WishesOf(rows, rows[k].applicant);
    assert rows[k] in rows;
    assert rows[k] in ws;
  }

  lemma {:induction false} WishesOfSetStatusOther(rows: seq<WishRow>, k: nat, s: Status, b: ApplicantId)
    requires k < |rows| && b != rows[k].applicant
    ensures WishesOf(SetStatus(rows, k, s), b) == WishesOf(rows, b)
  {
    if k > 0 {
      WishesOfSetStatusOther(rows[1..], k - 1, s, b);
      assert SetStatus(rows, k, s)[1..] == SetStatus(rows[1..], k - 1, s);
    } else {
      assert SetStatus(rows, k, s)[1..] == rows[1..];
    }
  }

  /**
   * After a wish is given status `s`, its applicant's derived status ranks at
   * least as high as `s`, and no other applicant's wishes change.
   */
  lemma SetStatusRaisesApplicant(rows: seq<WishRow>, k: nat, s: Status)
    requires k < |rows|
    ensures Rank(ApplicantStatus(WishesOf(SetStatus(rows, k, s), rows[k].applicant))) >= Rank(s)
    ensures forall b :: b != rows[k].applicant ==> WishesOf(SetStatus(rows, k, s), b) == WishesOf(rows, b)
  {
    var r := SetStatus(rows, k, s);
    WishesOfContains(r, k);
    forall b | b != rows[k].applicant ensures WishesOf(r, b) == WishesOf(rows, b) {
      WishesOfSetStatusOther(rows, k, s, b);
    }
  }

  /** Confirming an accepted wish makes its applicant `confirmed`. */
  lemma ConfirmingMakesApplicantConfirmed(rows: seq<WishRow>, k: nat)
    requires k < |rows|
    ensures ApplicantStatus(WishesOf(SetStatus(rows, k, Confirmed), rows[k].applicant)) == Confirmed
  {
    SetStatusRaisesApplicant(rows, k, Confirmed);
    var s := ApplicantStatus(WishesOf(SetStatus(rows, k, Confirmed), rows[k].applicant));
    RankInjective(s, Confirmed);
  }

  // ---------------------------------------------------------------------------
  // Applicant.validate_current_wishes

  /** One wish after validation: `incomplete` becomes `pending`. */
  function Promote(w: WishRow): WishRow {
    if w.status == Incomplete then w.(status := Pending) else w
  }

  /** The table after applicant `a` validates its current wishes. */
  function ValidatedFor(rows: seq<WishRow>, a: ApplicantId): (r: seq<WishRow>)
    ensures SameWishesExceptStatus(r, rows)
    ensures forall i :: 0 <= i < |rows| && r[i].applicant == a ==> r[i].status != Incomplete
    ensures forall i :: 0 <= i < |rows| && rows[i].applicant == a && rows[i].status == Incomplete ==> r[i].status == Pending
    ensures forall i :: 0 <= i < |rows| && (rows[i].applicant != a || rows[i].status != Incomplete) ==> r[i] == rows[i]
  {
    if rows == [] then []
    else [if rows[0].applicant == a then Promote(rows[0]) else rows[0]] + ValidatedFor(rows[1..], a)
  }

  /** Validating twice is validating once. */
  lemma ValidationIdempotent(rows: seq<WishRow>, a: ApplicantId)
    ensures ValidatedFor(ValidatedFor(rows, a), a) == ValidatedFor(rows, a)
  {
    var once := ValidatedFor(rows, a);
    var twice := ValidatedFor(once, a);
    assert |twice| == |once|;
    forall i | 0 <= i < |once| ensures twice[i] == once[i] {
      assert once[i].applicant != a || once[i].status != Incomplete;
    }
  }

  /**
   * Filtering commutes with validation: the validated applicant sees its own
   * wishes validated, everyone else sees the same wishes.
   */
  lemma {:induction false} WishesOfValidated(rows: seq<WishRow>, a: ApplicantId, b: ApplicantId)
    ensures WishesOf(ValidatedFor(rows, a), b) == if a == b then ValidatedFor(WishesOf(rows, a), a) else WishesOf(rows, b)
  {
    if rows != [] {
      WishesOfValidated(rows[1..], a, b);
      assert ValidatedFor(rows, a)[1..] == ValidatedFor(rows[1..], a);
      if a == b && rows[0].applicant == a {
        assert WishesOf(rows, a) == [rows[0]] + WishesOf(rows[1..], a);
        assert ValidatedFor(WishesOf(rows, a), a)[1..] == ValidatedFor(WishesOf(rows[1..], a), a);
      }
    }
  }

  /**
   * After validation an applicant is locked exactly when it has a wish that is
   * not rejected, and its derived status is no longer `incomplete` unless it
   * has no wishes.
   */
  lemma ValidationLocks(ws: seq<WishRow>, a: ApplicantId)
    requires forall i :: 0 <= i < |ws| ==> ws[i].applicant == a
    ensures IsLocked(ValidatedFor(ws, a)) <==> HasNonRejectedChoices(ws)
    ensures |ws| > 0 ==> ApplicantStatus(ValidatedFor(ws, a)) != Incomplete
  {
    var v := ValidatedFor(ws, a);
    if HasNonRejectedChoices(ws) {
      var i :| 0 <= i < |ws| && ws[i].status != Rejected;
      assert v[i].status != Incomplete && v[i].status != Rejected;
    }
    if IsLocked(v) {
      var i :| 0 <= i < |v| && v[i].status != Incomplete && v[i].status != Rejected;
      assert ws[i].status != Rejected;
    }
  }

  // ---------------------------------------------------------------------------
  // The *_applicants_for(event) filters

  /** Applicant `a` has a wish for event `e` with status `s`. */
  predicate HasWishWith(rows: seq<WishRow>, a: ApplicantId, e: EventId, s: Status) {
    exists i :: 0 <= i < |rows| && rows[i].applicant == a && rows[i].event == e && rows[i].status == s
  }

  /** Primary keys of the EventWish table are distinct. */
  predicate UniqueWishIds(rows: seq<WishRow>) {
    forall i, j :: 0 <= i < j < |rows| ==> rows[i].id != rows[j].id
  }

  /** EventWish.objects.get(pk=id): the position of the row with primary key `id`. */
  function FindWish(rows: seq<WishRow>, id: WishId): (k: Option<nat>)
    ensures k.None? <==> forall i :: 0 <= i < |rows| ==> rows[i].id != id
    ensures k.Some? ==> k.value < |rows| && rows[k.value].id == id
    ensures k.Some? && UniqueWishIds(rows) ==> forall i :: 0 <= i < |rows| && rows[i].id == id ==> i == k.value
  {
    if rows == [] then None
    else if rows[0].id == id then Some(0)
    else match FindWish(rows[1..], id)
      case None => None
      case Some(j) => Some(j + 1)
  }

  /** The EventWish table's constraint: one wish per (applicant, event). */
  predicate UniqueApplicantEvent(rows: seq<WishRow>) {
    forall i, j :: 0 <= i < j < |rows| ==> rows[i].applicant != rows[j].applicant || rows[i].event != rows[j].event
  }

  predicate NoDuplicates(xs: seq<ApplicantId>) {
    forall i, j :: 0 <= i < j < |xs| ==> xs[i] != xs[j]
  }

  /**
   * The applicant of every wish for `e` with status `s`, one entry per
   * matching wish, in table order.
   */
  function ApplicantsFor(rows: seq<WishRow>, e: EventId, s: Status): (r: seq<ApplicantId>)
    ensures |r| <= |rows|
    ensures forall a :: a in r <==> HasWishWith(rows, a, e, s)
    ensures UniqueApplicantEvent(rows) ==> NoDuplicates(r)
  {
    if rows == [] then []
    else
      var rest := ApplicantsFor(rows[1..], e, s);
      assert forall a :: HasWishWith(rows[1..], a, e, s) ==> HasWishWith(rows, a, e, s) by {
        forall a | HasWishWith(rows[1..], a, e, s) ensures HasWishWith(rows, a, e, s) {
          var i :| 0 <= i < |rows[1..]| && rows[1..][i].applicant == a && rows[1..][i].event == e && rows[1..][i].status == s;
          assert rows[i + 1] == rows[1..][i];
        }
      }
      assert forall a :: HasWishWith(rows, a, e, s) ==>
          (rows[0].applicant == a && rows[0].event == e && rows[0].status == s) || HasWishWith(rows[1..], a, e, s) by {
        forall a | HasWishWith(rows, a, e, s)
          ensures (rows[0].applicant == a && rows[0].event == e && rows[0].status == s) || HasWishWith(rows[1..], a, e, s)
        {
          var i :| 0 <= i < |rows| && rows[i].applicant == a && rows[i].event == e && rows[i].status == s;
          if i > 0 { assert rows[1..][i - 1] == rows[i]; }
        }
      }
      if rows[0].event == e && rows[0].status == s then
        assert UniqueApplicantEvent(rows) ==> !HasWishWith(rows[1..], rows[0].applicant, e, s) by {
          if UniqueApplicantEvent(rows) {
            forall i | 0 <= i < |rows[1..]|
              ensures rows[1..][i].applicant != rows[0].applicant || rows[1..][i].event != e
            {
              assert rows[1..][i] == rows[i + 1];
            }
          }
        }
        [rows[0].applicant] + rest
      else
        rest
  }

  /** Applicant.incomplete_applicants_for. */
  function IncompleteApplicantsFor(rows: seq<WishRow>, e: EventId): (r: seq<ApplicantId>)
    ensures forall a :: a in r <==> HasWishWith(rows, a, e, Incomplete)
  {
    ApplicantsFor(rows, e, Incomplete)
  }

  /** Applicant.acceptable_applicants_for: waiting to be accepted, i.e. `selected`. */
  function AcceptableApplicantsFor(rows: seq<WishRow>, e: EventId): (r: seq<ApplicantId>)
    ensures forall a :: a in r <==> HasWishWith(rows, a, e, Selected)
  {
    ApplicantsFor(rows, e, Selected)
  }

  /** Applicant.accepted_applicants_for: accepted but not yet confirmed. */
  function AcceptedApplicantsFor(rows: seq<WishRow>, e: EventId): (r: seq<ApplicantId>)
    ensures forall a :: a in r <==> HasWishWith(rows, a, e, Accepted)
  {
    ApplicantsFor(rows, e, Accepted)
  }

  /** Applicant.confirmed_applicants_for. */
  function ConfirmedApplicantsFor(rows: seq<WishRow>, e: EventId): (r: seq<ApplicantId>)
    ensures forall a :: a in r <==> HasWishWith(rows, a, e, Confirmed)
  {
    ApplicantsFor(rows, e, Confirmed)
  }

  /** Applicant.rejected_applicants_for. */
  function RejectedApplicantsFor(rows: seq<WishRow>, e: EventId): (r: seq<ApplicantId>)
    ensures forall a :: a in r <==> HasWishWith(rows, a, e, Rejected)
  {
    ApplicantsFor(rows, e, Rejected)
  }

  // ---------------------------------------------------------------------------
  // Answers and the completeness of an application

  /** The JSON value stored as an answer's response (numbers as reals). */
  datatype Json =
    | JNull
    | JBool(b: bool)
    | JNumber(n: real)
    | JString(s: string)
    | JArray(items: seq<Json>)
    | JObject(fields: seq<(string, Json)>)

  /** Python truthiness of a decoded JSON value. */
  predicate Truthy(j: Json) {
    match j
    case JNull => false
    case JBool(b) => b
    case JNumber(n) => n != 0.0
    case JString(s) => s != ""
    case JArray(items) => items != []
    case JObject(fields) => fields != []
  }

  /** The six JSON values Python treats as false. */
  const FalsyResponses: set<Json> := {JNull, JBool(false), JNumber(0.0), JString(""), JArray([]), JObject([])}

  /** A question of a signup form; only its identity and `finaly_required` matter here. */
  datatype Question = Question(id: QuestionId, finalyRequired: bool)

  /**
   * Answer.is_valid: an answer to a question that is not finally required is
   * always valid; otherwise it must not be one of the falsy values.
   */
  function AnswerIsValid(q: Question, response: Json): (b: bool)
    ensures !q.finalyRequired ==> b
    ensures q.finalyRequired ==> (b <==> response !in FalsyResponses)
  {
    !q.finalyRequired || Truthy(response)
  }

  /**
   * Applicant.has_complete_application as written: false for an incomplete
   * profile; otherwise the questions are scanned in order, an invalid answer
   * makes it false, and the first missing answer ends the scan with that
   * question's `finaly_required` flag.
   */
  function CompleteApplication(profileComplete: bool, questions: seq<Question>, answers: map<QuestionId, Json>): (b: bool)
    ensures b ==> profileComplete
  {
    profileComplete && ScanAnswers(questions, answers)
  }

  /**
   * The loop over the questions of has_complete_application. When every
   * question has an answer, it holds exactly when every answer is valid.
   */
  function ScanAnswers(questions: seq<Question>, answers: map<QuestionId, Json>): (b: bool)
    ensures (forall k :: 0 <= k < |questions| ==> AnsweredValidly(questions, answers, k)) ==> b
    ensures (forall k :: 0 <= k < |questions| ==> questions[k].id in answers) && b ==>
              forall k :: 0 <= k < |questions| ==> AnsweredValidly(questions, answers, k)
  {
    if questions == [] then true
    else
      var tail := questions[1..];
      assert forall j :: 0 <= j < |tail| ==>
        tail[j] == questions[j + 1] && AnsweredValidly(tail, answers, j) == AnsweredValidly(questions, answers, j + 1);
      if questions[0].id in answers then
        var rest := ScanAnswers(tail, answers);
        assert (forall k :: 0 <= k < |questions| ==> AnsweredValidly(questions, answers, k)) ==>
                 forall j :: 0 <= j < |tail| ==> AnsweredValidly(tail, answers, j);
        assert (forall k :: 0 <= k < |questions| ==> questions[k].id in answers) ==>
                 forall j :: 0 <= j < |tail| ==> tail[j].id in answers;
        assert (forall j :: 0 <= j < |tail| ==> AnsweredValidly(tail, answers, j)) && AnsweredValidly(questions, answers, 0) ==>
                 forall k :: 0 <= k < |questions| ==> AnsweredValidly(questions, answers, k) by {
          forall k | 0 <= k < |questions| && k > 0 ensures AnsweredValidly(questions, answers, k) == AnsweredValidly(tail, answers, k - 1) {
          }
        }
        AnswerIsValid(questions[0], answers[questions[0].id]) && rest
      else
        assert !AnsweredValidly(questions, answers, 0);
        questions[0].finalyRequired
  }

  /** The question at `k` has a valid answer. */
  predicate AnsweredValidly(questions: seq<Question>, answers: map<QuestionId, Json>, k: nat)
    requires k < |questions|
  {
    questions[k].id in answers && AnswerIsValid(questions[k], answers[questions[k].id])
  }

  /** With every answer present and valid, a complete profile gives a complete application. */
  lemma {:induction false} AllAnsweredIsComplete(profileComplete: bool, questions: seq<Question>, answers: map<QuestionId, Json>)
    requires forall k :: 0 <= k < |questions| ==> AnsweredValidly(questions, answers, k)
    ensures CompleteApplication(profileComplete, questions, answers) == profileComplete
  {
    if questions != [] {
      assert AnsweredValidly(questions, answers, 0);
      forall k | 0 <= k < |questions[1..]| ensures AnsweredValidly(questions[1..], answers, k) {
        assert AnsweredValidly(questions, answers, k + 1);
      }
      AllAnsweredIsComplete(profileComplete, questions[1..], answers);
    }
  }

  /**
   * The first question without a valid answer decides: false when it has an
   * (invalid) answer, its own `finaly_required` flag when it has none; later
   * questions are never looked at.
   */
  lemma {:induction false} FirstGapDecides(questions: seq<Question>, answers: map<QuestionId, Json>, k: nat)
    requires k < |questions| && !AnsweredValidly(questions, answers, k)
    requires forall j :: 0 <= j < k ==> AnsweredValidly(questions, answers, j)
    ensures CompleteApplication(true, questions, answers) ==
            if questions[k].id in answers then false else questions[k].finalyRequired
  {
    if k > 0 {
      assert AnsweredValidly(questions, answers, 0);
      forall j | 0 <= j < k - 1 ensures AnsweredValidly(questions[1..], answers, j) {
        assert AnsweredValidly(questions, answers, j + 1);
      }
      assert questions[1..][k - 1] == questions[k];
      FirstGapDecides(questions[1..], answers, k - 1);
    }
  }

  /**
   * As written, a finally-required question left unanswered lets the
   * application through, while an optional one left unanswered blocks it.
   */
  lemma MissingAnswerInverted()
    ensures CompleteApplication(true, [Question(7, true)], map[])
    ensures !CompleteApplication(true, [Question(7, false)], map[])
    ensures CompleteApplication(true, [Question(7, true), Question(8, true)], map[8 := JNull])
  {
  }

  /** What an answer to one question must satisfy for the application to be complete. */
  predicate RequirementMet(q: Question, answers: map<QuestionId, Json>) {
    if q.id in answers then AnswerIsValid(q, answers[q.id]) else !q.finalyRequired
  }

  /**
   * The completeness check with its missing-answer branch corrected: a missing
   * answer fails the check when the question is finally required and is
   * skipped otherwise.
   */
  function IntendedCompleteApplication(profileComplete: bool, questions: seq<Question>, answers: map<QuestionId, Json>)
    : (b: bool)
    ensures b <==> profileComplete && forall k :: 0 <= k < |questions| ==> RequirementMet(questions[k], answers)
  {
    IntendedScanMeetsAll(questions, answers);
    profileComplete && IntendedScan(questions, answers)
  }

  function IntendedScan(questions: seq<Question>, answers: map<QuestionId, Json>): bool {
    if questions == [] then true
    else if questions[0].id in answers then
      AnswerIsValid(questions[0], answers[questions[0].id]) && IntendedScan(questions[1..], answers)
    else
      !questions[0].finalyRequired && IntendedScan(questions[1..], answers)
  }

  /**
   * The corrected check holds exactly when the profile is complete and every
   * finally-required question has an answer that is not falsy.
   */
  lemma {:induction false} IntendedCompleteApplicationCorrect(profileComplete: bool, questions: seq<Question>, answers: map<QuestionId, Json>)
    ensures IntendedCompleteApplication(profileComplete, questions, answers) <==>
            profileComplete &&
            forall k :: 0 <= k < |questions| && questions[k].finalyRequired ==>
              questions[k].id in answers && answers[questions[k].id] !in FalsyResponses
  {
    IntendedScanMeetsAll(questions, answers);
    forall k | 0 <= k < |questions|
      ensures RequirementMet(questions[k], answers) <==>
              (questions[k].finalyRequired ==> questions[k].id in answers && answers[questions[k].id] !in FalsyResponses)
    {
    }
  }

  lemma {:induction false} IntendedScanMeetsAll(questions: seq<Question>, answers: map<QuestionId, Json>)
    ensures IntendedScan(questions, answers) <==> forall k :: 0 <= k < |questions| ==> RequirementMet(questions[k], answers)
  {
    if questions != [] {
      IntendedScanMeetsAll(questions[1..], answers);
      assert forall k :: 1 <= k < |questions| ==> questions[k] == questions[1..][k - 1];
      assert IntendedScan(questions, answers) == (RequirementMet(questions[0], answers) && IntendedScan(questions[1..], answers));
    }
  }

  // ---------------------------------------------------------------------------
  // Event.clean

  /** The time windows of an event, as instants on one clock: the only fields Event.clean reads. */
  datatype Event = Event(eventStart: int, eventEnd: int, signupStart: int, signupEnd: int)

  /** The three ValidationErrors Event.clean can raise, in the order it checks them. */
  datatype CleanError = EventEndsBeforeStart | SignupEndsBeforeStart | SignupEndsAfterEventStart

  function CheckPosition(c: CleanError): nat {
    match c
    case EventEndsBeforeStart => 0
    case SignupEndsBeforeStart => 1
    case SignupEndsAfterEventStart => 2
  }

  /** The inequality behind error `c` is violated by `e`. */
  predicate Violates(e: Event, c: CleanError) {
    match c
    case EventEndsBeforeStart => e.eventStart > e.eventEnd
    case SignupEndsBeforeStart => e.signupStart > e.signupEnd
    case SignupEndsAfterEventStart => e.signupEnd > e.eventStart
  }

  /**
   * Event.clean: accepts exactly the events whose signup window closes no
   * later than the event starts, with both windows in order; otherwise it
   * raises the first violated check.
   */
  function Clean(e: Event): (r: Option<CleanError>)
    ensures r.None? <==> e.signupStart <= e.signupEnd <= e.eventStart <= e.eventEnd
    ensures r.Some? ==> Violates(e, r.value)
    ensures r.Some? ==> forall c :: CheckPosition(c) < CheckPosition(r.value) ==> !Violates(e, c)
  {
    if e.eventStart > e.eventEnd then Some(EventEndsBeforeStart)
    else if e.signupStart > e.signupEnd then Some(SignupEndsBeforeStart)
    else if e.signupEnd > e.eventStart then Some(SignupEndsAfterEventStart)
    else None
  }
}
