/**
 * The staff review actions of gcc/staff_views.py: removing and adding a
 * review label, and assigning a status to one wish. Each answers with a JSON
 * status, `ok` or `error` with a reason, and its checks run in a fixed order:
 * the lookups, then the permission, then the guard.
 */
module StaffViews {

  import opened Wrappers
  import opened StatusTypes
  import opened Models
  import opened Store

  /** The `reason` of an error answer. */
  datatype Reason =
    | ApplicantDoesNotExist
    | LabelDoesNotExist
    | NotAllowed
    | LabelNotApplied
    | LabelAlreadyApplied
    | WishDoesNotExist
    | WishAlreadyAccepted

  /** The JSON answer of a staff action. */
  datatype JsonResponse =
    | Ok
    | OkWish(applicant: ApplicantId, applicantStatus: string)
    | Error(reason: Reason)

  type Applicants = map<ApplicantId, ApplicantRow>

  /** Every applicant but `a` is left as it was, and `a` keeps its user and edition. */
  predicate OnlyLabelsOf(apps': Applicants, apps: Applicants, a: ApplicantId) {
    apps'.Keys == apps.Keys &&
    (forall b :: b in apps && b != a ==> apps'[b] == apps[b]) &&
    (a in apps ==> apps'[a].user == apps[a].user && apps'[a].edition == apps[a].edition)
  }

  // ---------------------------------------------------------------------------
  // ApplicationRemoveLabelView.get

  /** The answer of the remove-label view and the applicant table afterwards. */
  function RemoveLabelOutcome(apps: Applicants, labels: set<LabelId>, a: ApplicantId, l: LabelId, permitted: bool)
    : (out: (JsonResponse, Applicants))
    ensures out.0 == Error(ApplicantDoesNotExist) <==> a !in apps
    ensures out.0 == Error(LabelDoesNotExist) <==> a in apps && l !in labels
    ensures out.0 == Error(NotAllowed) <==> a in apps && l in labels && !permitted
    ensures out.0 == Error(LabelNotApplied) <==> a in apps && l in labels && permitted && l !in apps[a].labels
    ensures out.0 == Ok <==> a in apps && l in labels && permitted && l in apps[a].labels
    ensures OnlyLabelsOf(out.1, apps, a)
    ensures out.0 != Ok ==> out.1 == apps
    ensures out.0 == Ok ==> out.1[a].labels == apps[a].labels - {l} && |out.1[a].labels| == |apps[a].labels| - 1
  {
    if a !in apps then (Error(ApplicantDoesNotExist), apps)
    else if l !in labels then (Error(LabelDoesNotExist), apps)
    else if !permitted then (Error(NotAllowed), apps)
    else if l !in apps[a].labels then (Error(LabelNotApplied), apps)
    else (Ok, apps[a := apps[a].(labels := apps[a].labels - {l})])
  }

  /** ApplicationRemoveLabelView.get, with the permission decided by the caller. */
  method RemoveLabelView(db: Database, a: ApplicantId, l: LabelId, permitted: bool) returns (r: JsonResponse)
    requires db.Valid()
    modifies db`applicants
    ensures db.Valid()
    ensures (r, db.applicants) == RemoveLabelOutcome(old(db.applicants), db.labels, a, l, permitted)
  {
    if a !in db.applicants {
      return Error(ApplicantDoesNotExist);
    }
    if l !in db.labels {
      return Error(LabelDoesNotExist);
    }
    if !permitted {
      return Error(NotAllowed);
    }
    if l !in db.applicants[a].labels {
      return Error(LabelNotApplied);
    }
    db.RemoveLabel(a, l);
    r := Ok;
  }

  // ---------------------------------------------------------------------------
  // ApplicationAddLabelView.get

  /** The answer of the add-label view and the applicant table afterwards. */
  function AddLabelOutcome(apps: Applicants, labels: set<LabelId>, a: ApplicantId, l: LabelId, permitted: bool)
    : (out: (JsonResponse, Applicants))
    ensures out.0 == Error(ApplicantDoesNotExist) <==> a !in apps
    ensures out.0 == Error(LabelDoesNotExist) <==> a in apps && l !in labels
    ensures out.0 == Error(NotAllowed) <==> a in apps && l in labels && !permitted
    ensures out.0 == Error(LabelAlreadyApplied) <==> a in apps && l in labels && permitted && l in apps[a].labels
    ensures out.0 == Ok <==> a in apps && l in labels && permitted && l !in apps[a].labels
    ensures OnlyLabelsOf(out.1, apps, a)
    ensures out.0 != Ok ==> out.1 == apps
    ensures out.0 == Ok ==> out.1[a].labels == apps[a].labels + {l} && |out.1[a].labels| == |apps[a].labels| + 1
  {
    if a !in apps then (Error(ApplicantDoesNotExist), apps)
    else if l !in labels then (Error(LabelDoesNotExist), apps)
    else if !permitted then (Error(NotAllowed), apps)
    else if l in apps[a].labels then (Error(LabelAlreadyApplied), apps)
    else (Ok, apps[a := apps[a].(labels := apps[a].labels + {l})])
  }

  /** ApplicationAddLabelView.get, with the permission decided by the caller. */
  method AddLabelView(db: Database, a: ApplicantId, l: LabelId, permitted: bool) returns (r: JsonResponse)
    requires db.Valid()
    modifies db`applicants
    ensures db.Valid()
    ensures (r, db.applicants) == AddLabelOutcome(old(db.applicants), db.labels, a, l, permitted)
  {
    if a !in db.applicants {
      return Error(ApplicantDoesNotExist);
    }
    if l !in db.labels {
      return Error(LabelDoesNotExist);
    }
    if !permitted {
      return Error(NotAllowed);
    }
    if l in db.applicants[a].labels {
      return Error(LabelAlreadyApplied);
    }
    db.AddLabel(a, l);
    r := Ok;
  }

  /** A successful add followed by a remove of the same label restores the table. */
  lemma AddThenRemoveRestores(apps: Applicants, labels: set<LabelId>, a: ApplicantId, l: LabelId, permitted: bool)
    requires AddLabelOutcome(apps, labels, a, l, permitted).0 == Ok
    ensures RemoveLabelOutcome(AddLabelOutcome(apps, labels, a, l, permitted).1, labels, a, l, permitted) == (Ok, apps)
  {
    var added := AddLabelOutcome(apps, labels, a, l, permitted).1;
    var removed := RemoveLabelOutcome(added, labels, a, l, permitted).1;
    assert removed[a] == apps[a];
    assert removed == apps;
  }

  /** A successful remove followed by an add of the same label restores the table. */
  lemma RemoveThenAddRestores(apps: Applicants, labels: set<LabelId>, a: ApplicantId, l: LabelId, permitted: bool)
    requires RemoveLabelOutcome(apps, labels, a, l, permitted).0 == Ok
    ensures AddLabelOutcome(RemoveLabelOutcome(apps, labels, a, l, permitted).1, labels, a, l, permitted) == (Ok, apps)
  {
    var removed := RemoveLabelOutcome(apps, labels, a, l, permitted).1;
    var added := AddLabelOutcome(removed, labels, a, l, permitted).1;
    assert added[a] == apps[a];
    assert added == apps;
  }

  /** Adding a label twice: the second add reports it as already applied and changes nothing. */
  lemma AddTwiceIsAlreadyApplied(apps: Applicants, labels: set<LabelId>, a: ApplicantId, l: LabelId)
    requires AddLabelOutcome(apps, labels, a, l, true).0 == Ok
    ensures var once := AddLabelOutcome(apps, labels, a, l, true).1;
            AddLabelOutcome(once, labels, a, l, true) == (Error(LabelAlreadyApplied), once)
  {
  }

  // ---------------------------------------------------------------------------
  // UpdateWish.get

  /**
   * The answer of the update-wish view and the wish table afterwards. On
   * success the answer carries the wish's applicant and the displayed name of
   * that applicant's status derived from the updated table; by NameInjective
   * the name determines the status.
   */
  function UpdateWishOutcome(rows: seq<WishRow>, w: WishId, s: Status, permitted: bool)
    : (out: (JsonResponse, seq<WishRow>))
    ensures out.0 == Error(WishDoesNotExist) <==> FindWish(rows, w).None?
    ensures out.0 == Error(NotAllowed) <==> FindWish(rows, w).Some? && !permitted
    ensures out.0 == Error(WishAlreadyAccepted) <==>
              FindWish(rows, w).Some? && permitted && rows[FindWish(rows, w).value].status == s
    ensures out.0.OkWish? <==> FindWish(rows, w).Some? && permitted && rows[FindWish(rows, w).value].status != s
    ensures out.0.Error? ==> out.1 == rows
    ensures SameWishesExceptStatus(out.1, rows)
    ensures out.0.OkWish? ==>
              var k := FindWish(rows, w).value;
              out.1[k].status == s &&
              (forall i :: 0 <= i < |rows| && i != k ==> out.1[i] == rows[i]) &&
              var status := ApplicantStatus(WishesOf(out.1, rows[k].applicant));
              out.0.applicant == rows[k].applicant &&
              out.0.applicantStatus == Name(status) &&
              Rank(status) >= Rank(s)
  {
    match FindWish(rows, w)
    case None => (Error(WishDoesNotExist), rows)
    case Some(k) =>
      if !permitted then (Error(NotAllowed), rows)
      else if rows[k].status == s then (Error(WishAlreadyAccepted), rows)
      else
        var rows' := SetStatus(rows, k, s);
        SetStatusRaisesApplicant(rows, k, s);
        (OkWish(rows[k].applicant, Name(ApplicantStatus(WishesOf(rows', rows[k].applicant)))), rows')
  }

  /** UpdateWish.get, with the permission decided by the caller. */
  method UpdateWishView(db: Database, w: WishId, s: Status, permitted: bool) returns (r: JsonResponse)
    requires db.Valid()
    modifies db`wishes
    ensures db.Valid()
    ensures (r, db.wishes) == UpdateWishOutcome(old(db.wishes), w, s, permitted)
  {
    var found := FindWish(db.wishes, w);
    if found.None? {
      return Error(WishDoesNotExist);
    }
    var k := found.value;
    if !permitted {
      return Error(NotAllowed);
    }
    if db.wishes[k].status == s {
      return Error(WishAlreadyAccepted);
    }
    var a := db.wishes[k].applicant;
    db.SaveWishStatus(k, s);
    r := OkWish(a, Name(ApplicantStatus(WishesOf(db.wishes, a))));
  }

  /** An update leaves the derived status of every other applicant as it was. */
  lemma UpdateWishIsLocal(rows: seq<WishRow>, w: WishId, s: Status, permitted: bool, b: ApplicantId)
    requires UpdateWishOutcome(rows, w, s, permitted).0.OkWish?
    requires b != UpdateWishOutcome(rows, w, s, permitted).0.applicant
    ensures ApplicantStatus(WishesOf(UpdateWishOutcome(rows, w, s, permitted).1, b)) == ApplicantStatus(WishesOf(rows, b))
  {
    SetStatusRaisesApplicant(rows, FindWish(rows, w).value, s);
  }

  /** Repeating a successful update is refused as already applied and changes nothing. */
  lemma UpdateWishTwice(rows: seq<WishRow>, w: WishId, s: Status)
    requires UniqueWishIds(rows)
    requires UpdateWishOutcome(rows, w, s, true).0.OkWish?
    ensures var once := UpdateWishOutcome(rows, w, s, true).1;
            UpdateWishOutcome(once, w, s, true) == (Error(WishAlreadyAccepted), once)
  {
    var once := UpdateWishOutcome(rows, w, s, true).1;
    var k := FindWish(rows, w).value;
    assert once[k].id == w;
    assert FindWish(once, w).Some?;
    assert forall i :: 0 <= i < |once| && once[i].id == w ==> i == k;
  }
}
