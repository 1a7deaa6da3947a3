/**
 * The state logic of the applicant-facing views of gcc/views.py: validating
 * an application, the lock gate of the application form, the initial values
 * of the wishes form and the confirmation of a venue.
 */
module Views {

  import opened Wrappers
  import opened StatusTypes
  import opened Models
  import opened Store

  /** The message flashed with a redirect. */
  datatype Message = NoMessage | ValidationFailed | ValidationSucceeded | AlreadyValidated | ConfirmationCompleted

  /** What a view answers: a redirect, a 404 page, or the form itself. */
  datatype Response = Redirect(message: Message) | NotFound | FormShown

  // ---------------------------------------------------------------------------
  // ApplicationValidationView.post

  /**
   * ApplicationValidationView.post. The shown user is looked up first (404
   * when missing); then the applicant of the requesting `user` for `edition`
   * (404 when missing); a complete application has its wishes validated and a
   * confirmation mail sent, an incomplete one is reported and left as it is;
   * last, an inactive shown user answers 404 to a non-staff requester, after
   * the validation has already been saved. `questions` is the question list
   * of the current edition's signup form.
   */
  method ValidationView(db: Database, user: UserId, edition: Year, profileComplete: bool, questions: seq<Question>,
                        shownUserExists: bool, shownUserActive: bool, requesterIsStaff: bool)
    returns (r: Response, mailSent: bool)
    requires db.Valid()
    modifies db`wishes
    ensures db.Valid()
    ensures !shownUserExists || !HasApplicant(db.applicants, user, edition) ==>
              r == NotFound && !mailSent && db.wishes == old(db.wishes)
    ensures forall a :: shownUserExists && IsApplicantOf(db.applicants, a, user, edition) ==>
              var complete := CompleteApplication(profileComplete, questions, AnswersOf(db.answers, a));
              db.wishes == (if complete then ValidatedFor(old(db.wishes), a) else old(db.wishes)) &&
              mailSent == complete &&
              r == if !shownUserActive && !requesterIsStaff then NotFound
                   else Redirect(if complete then ValidationSucceeded else ValidationFailed)
  {
    mailSent := false;
    if !shownUserExists {
      return NotFound, false;
    }
    if a :| a in db.applicants && db.applicants[a].user == user && db.applicants[a].edition == edition {
      var message;
      if !CompleteApplication(profileComplete, questions, AnswersOf(db.answers, a)) {
        message := ValidationFailed;
      } else {
        db.ValidateCurrentWishes(a);
        message := ValidationSucceeded;
        mailSent := true;
      }
      if !shownUserActive && !requesterIsStaff {
        r := NotFound;
      } else {
        r := Redirect(message);
      }
    } else {
      r := NotFound;
    }
  }

  /**
   * Once an application is validated, its applicant is locked (and so is
   * redirected away from the form) exactly when it has a wish not rejected.
   */
  lemma ValidatedApplicantLocked(rows: seq<WishRow>, a: ApplicantId)
    ensures IsLocked(WishesOf(ValidatedFor(rows, a), a)) <==> HasNonRejectedChoices(WishesOf(rows, a))
  {
    WishesOfValidated(rows, a, a);
    var ws := WishesOf(rows, a);
    assert forall i :: 0 <= i < |ws| ==> ws[i] in ws;
    ValidationLocks(ws, a);
  }

  // ---------------------------------------------------------------------------
  // ApplicationFormView.dispatch

  /** The applicant of `user` for `edition` exists and is locked. */
  predicate LockedApplicant(apps: map<ApplicantId, ApplicantRow>, rows: seq<WishRow>, user: UserId, edition: Year) {
    exists a :: a in apps && IsApplicantOf(apps, a, user, edition) && IsLocked(WishesOf(rows, a))
  }

  /**
   * ApplicationFormView.dispatch: anonymous users get the form; otherwise the
   * edition must exist (404), the applicant is fetched or created, and a
   * locked applicant is redirected instead of being shown the form.
   */
  method FormDispatch(db: Database, anonymous: bool, user: UserId, edition: Year) returns (r: Response)
    requires db.Valid()
    modifies db`applicants
    ensures db.Valid()
    ensures anonymous || edition !in db.editions ==> db.applicants == old(db.applicants)
    ensures !anonymous && edition in db.editions ==>
              HasApplicant(db.applicants, user, edition) &&
              (HasApplicant(old(db.applicants), user, edition) ==> db.applicants == old(db.applicants))
    ensures !anonymous && edition in old(db.editions) && !HasApplicant(old(db.applicants), user, edition) ==>
              exists a: ApplicantId :: a !in old(db.applicants) && db.applicants == old(db.applicants)[a := ApplicantRow(user, edition, {})]
    ensures r == NotFound <==> !anonymous && edition !in db.editions
    ensures r == Redirect(AlreadyValidated) <==>
              !anonymous && edition in db.editions && LockedApplicant(old(db.applicants), db.wishes, user, edition)
    ensures r == FormShown <==>
              anonymous || (edition in db.editions && !LockedApplicant(old(db.applicants), db.wishes, user, edition))
  {
    if anonymous {
      return FormShown;
    }
    if edition !in db.editions {
      return NotFound;
    }
    ghost var existed := HasApplicant(db.applicants, user, edition);
    var a := db.ForUserAndEdition(user, edition);
    if !existed {
      NewApplicantHasNoWishes(db.wishes, old(db.applicants), a);
      assert a !in old(db.applicants) && db.applicants == old(db.applicants)[a := ApplicantRow(user, edition, {})];
      assert !LockedApplicant(old(db.applicants), db.wishes, user, edition);
    } else {
      assert forall b :: IsApplicantOf(old(db.applicants), b, user, edition) ==> b == a;
    }
    if IsLocked(WishesOf(db.wishes, a)) {
      r := Redirect(AlreadyValidated);
    } else {
      r := FormShown;
    }
  }

  // ---------------------------------------------------------------------------
  // ApplicationWishesView.get_initial

  /** The form field of the wish with priority `order`. */
  function PriorityField(order: int): (f: string)
    requires 1 <= order <= 3
    ensures |f| == 9 && f[..8] == "priority" && f[8] == "123"[order - 1]
  {
    "priority" + [(48 + order) as char]
  }

  /** Distinct priorities have distinct fields. */
  lemma PriorityFieldInjective(o1: int, o2: int)
    requires 1 <= o1 <= 3 && 1 <= o2 <= 3
    ensures PriorityField(o1) == PriorityField(o2) <==> o1 == o2
  {
    if PriorityField(o1) == PriorityField(o2) {
      assert PriorityField(o1)[8] == PriorityField(o2)[8];
    }
  }

  /** The wishes of `user` for `edition`, in table order. */
  function UserWishes(rows: seq<WishRow>, apps: map<ApplicantId, ApplicantRow>, user: UserId, edition: Year)
    : (ws: seq<WishRow>)
    ensures forall w :: w in ws <==> w in rows && IsApplicantOf(apps, w.applicant, user, edition)
  {
    if rows == [] then []
    else (if IsApplicantOf(apps, rows[0].applicant, user, edition) then [rows[0]] else [])
         + UserWishes(rows[1..], apps, user, edition)
  }

  /** With one applicant per user and edition, the user's wishes are that applicant's wishes. */
  lemma {:induction false} UserWishesAreApplicantWishes(rows: seq<WishRow>, apps: map<ApplicantId, ApplicantRow>,
                                                         user: UserId, edition: Year, a: ApplicantId)
    requires UniqueUserEdition(apps) && IsApplicantOf(apps, a, user, edition)
    ensures UserWishes(rows, apps, user, edition) == WishesOf(rows, a)
  {
    if rows != [] {
      UserWishesAreApplicantWishes(rows[1..], apps, user, edition, a);
    }
  }

  /** Every wish has a priority the wishes form knows. */
  predicate ValidOrders(ws: seq<WishRow>) {
    forall i :: 0 <= i < |ws| ==> 1 <= ws[i].order <= 3
  }

  /** No later wish has the priority of wish `i`. */
  predicate IsLastOfPriority(ws: seq<WishRow>, i: nat)
    requires i < |ws|
  {
    forall j :: i < j < |ws| ==> ws[j].order != ws[i].order
  }

  /**
   * `m` has a field for the priority of every wish, and each field holds the
   * event of the last wish with that priority.
   */
  predicate FieldsOfLastWishes(ws: seq<WishRow>, m: map<string, EventId>)
    requires ValidOrders(ws)
  {
    (forall i :: 0 <= i < |ws| ==> PriorityField(ws[i].order) in m) &&
    (forall f :: f in m ==>
      (exists i :: 0 <= i < |ws| && IsLastOfPriority(ws, i) && f == PriorityField(ws[i].order) && m[f] == ws[i].event))
  }

  /** Writing the field of one more wish keeps FieldsOfLastWishes. */
  lemma FieldsOfLastWishesStep(ws: seq<WishRow>, m: map<string, EventId>)
    requires |ws| > 0 && ValidOrders(ws) && FieldsOfLastWishes(ws[..|ws| - 1], m)
    ensures FieldsOfLastWishes(ws, m[PriorityField(ws[|ws| - 1].order) := ws[|ws| - 1].event])
  {
    var n := |ws| - 1;
    var prefix := ws[..n];
    var m' := m[PriorityField(ws[n].order) := ws[n].event];
    forall i | 0 <= i < |ws| ensures PriorityField(ws[i].order) in m' {
      if i < n {
        assert prefix[i] == ws[i];
      }
    }
    forall f | f in m'
      ensures exists i :: 0 <= i < |ws| && IsLastOfPriority(ws, i) && f == PriorityField(ws[i].order) && m'[f] == ws[i].event
    {
      if f == PriorityField(ws[n].order) {
        assert IsLastOfPriority(ws, n);
      } else {
        var i :| 0 <= i < n && IsLastOfPriority(prefix, i) && f == PriorityField(prefix[i].order) && m[f] == prefix[i].event;
        assert prefix[i] == ws[i];
        PriorityFieldInjective(ws[i].order, ws[n].order);
        forall j | i < j < |ws| ensures ws[j].order != ws[i].order {
          if j < n {
            assert prefix[j] == ws[j];
          }
        }
        assert IsLastOfPriority(ws, i);
      }
    }
  }

  /**
   * The initial values of the wishes form: None when a wish with a priority
   * outside 1 to 3 trips the assertion; otherwise the field of each wish's
   * priority holds the event of the last wish with that priority.
   */
  function Initials(ws: seq<WishRow>): (r: Option<map<string, EventId>>)
    ensures r.Some? <==> ValidOrders(ws)
    ensures r.Some? ==> FieldsOfLastWishes(ws, r.value)
  {
    if ws == [] then Some(map[])
    else
      var n := |ws| - 1;
      assert forall i :: 0 <= i < n ==> ws[..n][i] == ws[i];
      match Initials(ws[..n])
      case None => None
      case Some(m) =>
        if 1 <= ws[n].order <= 3 then
          FieldsOfLastWishesStep(ws, m);
          Some(m[PriorityField(ws[n].order) := ws[n].event])
        else None
  }

  /** With distinct priorities, the form has one field per wish, holding that wish's event. */
  lemma InitialsOnePerWish(ws: seq<WishRow>)
    requires ValidOrders(ws)
    requires forall i, j :: 0 <= i < j < |ws| ==> ws[i].order != ws[j].order
    ensures Initials(ws).Some?
    ensures forall i :: 0 <= i < |ws| ==> Initials(ws).value[PriorityField(ws[i].order)] == ws[i].event
    ensures Initials(ws).value.Keys == set i | 0 <= i < |ws| :: PriorityField(ws[i].order)
  {
    var m := Initials(ws).value;
    forall i | 0 <= i < |ws| ensures m[PriorityField(ws[i].order)] == ws[i].event {
      var f := PriorityField(ws[i].order);
      var j :| 0 <= j < |ws| && IsLastOfPriority(ws, j) && f == PriorityField(ws[j].order) && m[f] == ws[j].event;
      PriorityFieldInjective(ws[i].order, ws[j].order);
    }
  }

  /** ApplicationWishesView.get_initial: the loop filling the initial values, one wish at a time. */
  method GetInitial(db: Database, user: UserId, edition: Year) returns (r: Option<map<string, EventId>>)
    ensures r == Initials(UserWishes(db.wishes, db.applicants, user, edition))
  {
    var ws := UserWishes(db.wishes, db.applicants, user, edition);
    var initials := map[];
    var i := 0;
    while i < |ws|
      invariant 0 <= i <= |ws|
      invariant Initials(ws[..i]) == Some(initials)
    {
      if !(1 <= ws[i].order <= 3) {
        return None;
      }
      initials := initials[PriorityField(ws[i].order) := ws[i].event];
      assert ws[..i + 1][..i] == ws[..i];
      i := i + 1;
    }
    assert ws[..i] == ws;
    r := Some(initials);
  }

  // ---------------------------------------------------------------------------
  // ApplicationConfirmVenueView.get

  /** The wish table after the wish at `k` is confirmed: only an accepted wish becomes confirmed. */
  function ConfirmVenue(rows: seq<WishRow>, k: nat): (r: seq<WishRow>)
    requires k < |rows|
    ensures SameWishesExceptStatus(r, rows)
    ensures forall i :: 0 <= i < |rows| && i != k ==> r[i] == rows[i]
    ensures rows[k].status == Accepted ==> r[k].status == Confirmed
    ensures rows[k].status != Accepted ==> r == rows
  {
    if rows[k].status == Accepted then SetStatus(rows, k, Confirmed) else rows
  }

  /**
   * Confirming is idempotent and changes a wish's status only from `accepted`
   * to `confirmed`; ConfirmingMakesApplicantConfirmed gives the applicant's
   * status afterwards.
   */
  lemma ConfirmVenueProperties(rows: seq<WishRow>, k: nat)
    requires k < |rows|
    ensures ConfirmVenue(ConfirmVenue(rows, k), k) == ConfirmVenue(rows, k)
    ensures forall i :: 0 <= i < |rows| ==>
              ConfirmVenue(rows, k)[i].status == rows[i].status ||
              (rows[i].status == Accepted && ConfirmVenue(rows, k)[i].status == Confirmed)
  {
  }

  /**
   * ApplicationConfirmVenueView.get: with permission, the wish is looked up
   * (404 when missing) and confirmed when accepted; the redirect then looks
   * the wish up again, so a missing wish answers 404 with or without
   * permission.
   */
  method ConfirmVenueView(db: Database, w: WishId, permitted: bool) returns (r: Response)
    requires db.Valid()
    modifies db`wishes
    ensures db.Valid()
    ensures FindWish(old(db.wishes), w).None? ==> r == NotFound && db.wishes == old(db.wishes)
    ensures FindWish(old(db.wishes), w).Some? ==>
              var k := FindWish(old(db.wishes), w).value;
              db.wishes == (if permitted then ConfirmVenue(old(db.wishes), k) else old(db.wishes)) &&
              r == Redirect(if permitted && old(db.wishes)[k].status == Accepted then ConfirmationCompleted else NoMessage)
  {
    var found := FindWish(db.wishes, w);
    if found.None? {
      return NotFound;
    }
    var k := found.value;
    var message := NoMessage;
    if permitted && db.wishes[k].status == Accepted {
      db.SaveWishStatus(k, Confirmed);
      message := ConfirmationCompleted;
    }
    r := Redirect(message);
  }
}
