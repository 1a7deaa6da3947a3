# Girls Can Code! registration backend: the applicant status state machine

This project models, in Dafny, the status logic of the "Girls Can Code!"
registration site (a Django application). An applicant registers for one
edition and ranks up to three events (venues) as wishes. Each wish carries one
of six statuses (`incomplete`, `pending`, `rejected`, `selected`, `accepted`,
`confirmed`). The applicant's own status is not stored: it is derived from the
wish statuses through the display precedence `STATUS_ORDER`, in which
`rejected` ranks lowest.

The model follows the source files:

- `status.dfy` (module `StatusTypes`): the enumeration `ApplicantStatusTypes`,
  its stored integers and the precedence `STATUS_ORDER` as a rank.
- `models.dfy` (module `Models`): the pure rules of `gcc/models.py` over the
  rows of the EventWish table. These are the derived status, `is_locked` and
  the two choice predicates, the `*_applicants_for` filters, the effect of
  `validate_current_wishes`, `Answer.is_valid`, `has_complete_application`
  and `Event.clean`.
- `store.dfy` (module `Store`): the database as a class `Database` whose fields
  are the tables the logic touches. Its methods are the in-place updates of the
  source: a wish's `status` saved, the `validate_current_wishes` loop, the
  label relation's `add`/`remove`, and `for_user_and_edition` (get or create).
- `staff_views.dfy` (module `StaffViews`): the review actions of
  `gcc/staff_views.py`. These are remove label, add label and update wish.
  Each is a function giving the JSON answer and the new table, and a method
  on the database proved to do what that function says.
- `views.dfy` (module `Views`): the applicant views of `gcc/views.py`:
  - validation of an application, gated by completeness;
  - the lock gate of the application form;
  - the initial values of the wishes form;
  - confirmation of an accepted venue.

Database lookups become searches in the tables, with a `NotFound` answer or
error reason when nothing is found. Permission checks, profile completeness,
the current edition's question list and the state of the shown user are
inputs.

## Model

| member | source | states |
|---|---|---|
| StatusTypes.Code | gccsite/gcc/models.py:157-163 | each status is stored as an integer from 0 to 5 |
| StatusTypes.CodeInjective | gccsite/gcc/models.py:157-163 | distinct statuses are stored as distinct integers, so comparing stored integers compares statuses |
| StatusTypes.Rank | gccsite/gcc/models.py:166-175 | a status's position in STATUS_ORDER, which lists it there |
| StatusTypes.StatusOrderIsPermutation | gccsite/gcc/models.py:168-175 | STATUS_ORDER lists each status once, so Rank inverts it |
| StatusTypes.RankInjective | gccsite/gcc/models.py:168-175 | two statuses have the same precedence only if they are equal |
| StatusTypes.PrecedenceMovesOnlyRejected | gccsite/gcc/models.py:157-175 | the precedence follows the stored integers except that `rejected` is below every other status |
| StatusTypes.Name | gccsite/gcc/models.py:281-282 | the displayed name of a status is never empty |
| StatusTypes.NameInjective | gccsite/gcc/models.py:157-163 | distinct statuses are displayed under distinct names, so the name determines the status |
| Models.WishesOf | gccsite/gcc/models.py:209 | the applicant's eventwish_set: exactly the rows whose applicant it is |
| Models.HighestIn | gccsite/gcc/models.py:211-213 | scanning STATUS_ORDER from the top returns the first present status, with nothing present above it, or nothing when no status is present |
| Models.ApplicantStatus | gccsite/gcc/models.py:207-215 | the derived status is `incomplete` without wishes, otherwise the status of some wish, and ranks at least as high as every wish |
| Models.ApplicantStatusIsTheMaximum | gccsite/gcc/models.py:207-215 | any wish status of maximal rank is the derived status |
| Models.IsLocked | gccsite/gcc/models.py:217-226 | an applicant is locked exactly when some wish ranks at least `pending`, and a locked applicant has a wish not rejected |
| Models.HasRejectedChoices | gccsite/gcc/models.py:228-231 | holds exactly when `rejected` is among the applicant's wish statuses |
| Models.HasNonRejectedChoices | gccsite/gcc/models.py:233-236 | holds exactly when the applicant has wishes and its derived status is not `rejected` |
| Models.LockedIffStatusAtLeastPending | gccsite/gcc/models.py:217-226 | an applicant is locked (a wish neither incomplete nor rejected) exactly when its derived status is pending, selected, accepted or confirmed |
| Models.RejectedIffEveryWishRejected | gccsite/gcc/models.py:207-215 | with at least one wish, the derived status is `rejected` exactly when every wish is rejected |
| Models.ChoicePredicates | gccsite/gcc/models.py:228-236 | with at least one wish, has_rejected_choices or has_non_rejected_choices holds, and the status is `rejected` exactly when only the first does |
| Models.MixedWishesExample | gccsite/gcc/models.py:207-226 | wishes selected, rejected and incomplete give the status `selected` and a locked applicant |
| Models.SetStatus | gccsite/gcc/staff_views.py:136-137 | assigning a status to one wish changes that wish's status and nothing else |
| Models.SetStatusRaisesApplicant | gccsite/gcc/staff_views.py:136-141 | after a wish gets status s, its applicant's derived status ranks at least as high as s, and no other applicant's wishes change |
| Models.ConfirmingMakesApplicantConfirmed | gccsite/gcc/views.py:472-474 | confirming a wish makes its applicant's derived status `confirmed` |
| Models.ValidatedFor | gccsite/gcc/models.py:306-310 | after validation no wish of the applicant is incomplete, the formerly incomplete ones are pending, all other rows are unchanged, and ids, events and orders are kept |
| Models.ValidationIdempotent | gccsite/gcc/models.py:306-310 | validating twice equals validating once |
| Models.WishesOfValidated | gccsite/gcc/models.py:306-310 | validating one applicant validates exactly that applicant's wishes and leaves every other applicant's wishes as they were |
| Models.ValidationLocks | gccsite/gcc/models.py:306-310 | after validation an applicant is locked exactly when it has a wish that is not rejected, and its status is no longer `incomplete` unless it has no wishes |
| Models.FindWish | gccsite/gcc/staff_views.py:122 | looking a wish up by primary key finds the row with that key, the only one when keys are unique, or reports that none exists |
| Models.ApplicantsFor | gccsite/gcc/models.py:312-361 | the applicants listed are exactly those with a wish for the event in the given status, one per matching wish, with no repeats under the (applicant, event) uniqueness |
| Models.IncompleteApplicantsFor | gccsite/gcc/models.py:312-320 | exactly the applicants with an incomplete wish for the event |
| Models.AcceptableApplicantsFor | gccsite/gcc/models.py:322-331 | exactly the applicants with a selected wish for the event |
| Models.AcceptedApplicantsFor | gccsite/gcc/models.py:333-341 | exactly the applicants with an accepted wish for the event |
| Models.ConfirmedApplicantsFor | gccsite/gcc/models.py:343-351 | exactly the applicants with a confirmed wish for the event |
| Models.RejectedApplicantsFor | gccsite/gcc/models.py:353-361 | exactly the applicants with a rejected wish for the event |
| Models.AnswerIsValid | gccsite/gcc/models.py:495-503 | an answer to a question not finally required is valid; otherwise it is valid exactly when the response is not one of the JSON values Python treats as false |
| Models.CompleteApplication | gccsite/gcc/models.py:290-293 | an application is complete only if the profile is |
| Models.ScanAnswers | gccsite/gcc/models.py:295-304 | the loop over the questions succeeds when every question has a valid answer, and, when every question has an answer, succeeds only if every answer is valid |
| Models.AllAnsweredIsComplete | gccsite/gcc/models.py:290-304 | when every question has a valid answer, the application is complete exactly when the profile is |
| Models.FirstGapDecides | gccsite/gcc/models.py:296-302 | the first question without a valid answer decides: false when its answer is invalid, its own finaly_required flag when the answer is missing, and later questions are not looked at |
| Models.MissingAnswerInverted | gccsite/gcc/models.py:301-302 | as written, a missing answer to a finally-required question passes the check and a missing optional answer fails it |
| Models.IntendedCompleteApplication | gccsite/gcc/models.py:458-463 | the corrected check holds exactly when the profile is complete and every question's requirement is met: a given answer is valid, and a missing one belongs to a question not finally required |
| Models.IntendedCompleteApplicationCorrect | gccsite/gcc/models.py:458-463 | the corrected check holds exactly when the profile is complete and every finally-required question has a truthy answer |
| Models.Clean | gccsite/gcc/models.py:118-132 | an event is accepted exactly when signup start <= signup end <= event start <= event end; otherwise the error raised is a violated check and every earlier check passed |
| Store.Database.Valid | gccsite/gcc/models.py:389-390 | the schema's constraints (unique wish keys, unique (user, edition) and (applicant, event) at models.py:412, foreign keys of wishes and labels) hold, so looking up a wish's key finds that wish's own row |
| Store.NextPrimaryKey | gccsite/gcc/models.py:369-371 | a created applicant gets a key above every key in use |
| Store.Database.SaveWishStatus | gccsite/gcc/staff_views.py:136-137 | saving a wish's new status changes that row alone and keeps the table's constraints |
| Store.Database.ValidateCurrentWishes | gccsite/gcc/models.py:306-310 | the loop over the applicant's wishes leaves the table equal to ValidatedFor of the old table |
| Store.Database.AddLabel | gccsite/gcc/staff_views.py:110 | the applicant's label set becomes old ∪ {label}, everything else unchanged |
| Store.Database.RemoveLabel | gccsite/gcc/staff_views.py:81 | the applicant's label set becomes old \ {label}, everything else unchanged |
| Store.Database.ForUserAndEdition | gccsite/gcc/models.py:363-376 | returns the applicant of the user for the edition; an existing one leaves the table unchanged, otherwise a fresh applicant without labels is added |
| Store.NewApplicantHasNoWishes | gccsite/gcc/models.py:369-376 | a newly created applicant has no wishes, so it is not locked and its status is `incomplete` |
| StaffViews.RemoveLabelOutcome | gccsite/gcc/staff_views.py:62-82 | errors in the order missing applicant, missing label, not allowed, label not applied, each leaving the table unchanged; otherwise ok with the label removed from that applicant only |
| StaffViews.RemoveLabelView | gccsite/gcc/staff_views.py:62-82 | the view answers and updates the database as RemoveLabelOutcome says |
| StaffViews.AddLabelOutcome | gccsite/gcc/staff_views.py:91-111 | errors in the order missing applicant, missing label, not allowed, label already applied, each leaving the table unchanged; otherwise ok with the label added to that applicant only |
| StaffViews.AddLabelView | gccsite/gcc/staff_views.py:91-111 | the view answers and updates the database as AddLabelOutcome says |
| StaffViews.AddThenRemoveRestores | gccsite/gcc/staff_views.py:77-110 | removing a label just added succeeds and restores the original table |
| StaffViews.RemoveThenAddRestores | gccsite/gcc/staff_views.py:77-110 | adding back a label just removed succeeds and restores the original table |
| StaffViews.AddTwiceIsAlreadyApplied | gccsite/gcc/staff_views.py:106-110 | a second add of the same label reports it already applied and changes nothing |
| StaffViews.UpdateWishOutcome | gccsite/gcc/staff_views.py:120-141 | errors in the order missing wish, not allowed, status already set, each leaving the table unchanged; otherwise that wish alone gets the status and the answer carries its applicant and the displayed name of the status derived after the change, which ranks at least as high as the new status |
| StaffViews.UpdateWishView | gccsite/gcc/staff_views.py:120-141 | the view answers and updates the database as UpdateWishOutcome says |
| StaffViews.UpdateWishIsLocal | gccsite/gcc/staff_views.py:132-141 | an update leaves every other applicant's derived status unchanged |
| StaffViews.UpdateWishTwice | gccsite/gcc/staff_views.py:132-137 | repeating a successful update is refused and changes nothing |
| Views.ValidationView | gccsite/gcc/views.py:278-325 | a missing shown user or applicant answers 404 with nothing changed; an incomplete application leaves every wish unchanged and reports failure; a complete one validates the applicant's wishes and sends the mail; an inactive shown user then answers 404 to non-staff |
| Views.ValidatedApplicantLocked | gccsite/gcc/views.py:294-295 | once an application is validated, its applicant is locked out of the form exactly when it has a wish that is not rejected |
| Views.FormDispatch | gccsite/gcc/views.py:332-356 | anonymous users get the form; a missing edition answers 404; otherwise the applicant is fetched, or created under a new key without labels with the rest of the table unchanged, and the form is refused exactly when the applicant existed and is locked |
| Views.PriorityField | gccsite/gcc/views.py:434 | the field of priority 1, 2 or 3 is "priority" followed by that digit |
| Views.PriorityFieldInjective | gccsite/gcc/views.py:434 | distinct priorities name distinct fields |
| Views.UserWishes | gccsite/gcc/views.py:426-429 | exactly the wishes whose applicant belongs to the user and the edition |
| Views.UserWishesAreApplicantWishes | gccsite/gcc/views.py:426-429 | under (user, edition) uniqueness, the user's wishes are those of its one applicant |
| Views.Initials | gccsite/gcc/views.py:425-437 | fails exactly when some wish's priority is outside 1 to 3; otherwise every wish's priority has a field, and each field holds the event of the last wish with that priority |
| Views.InitialsOnePerWish | gccsite/gcc/views.py:432-435 | with distinct priorities, the fields are exactly one per wish, each holding its wish's event |
| Views.GetInitial | gccsite/gcc/views.py:425-437 | the loop builds the initial values Initials describes |
| Views.ConfirmVenue | gccsite/gcc/views.py:472-474 | only an accepted wish changes, and it becomes confirmed; every other row is unchanged |
| Views.ConfirmVenueProperties | gccsite/gcc/views.py:468-474 | confirming is idempotent and moves a status only from accepted to confirmed |
| Views.ConfirmVenueView | gccsite/gcc/views.py:454-481 | a missing wish answers 404 with nothing changed; with permission an accepted wish is confirmed with a message; anything else redirects with nothing changed |

## Findings

| source | as written | input that shows it | evidently intended | confidence | as-written member | corrected member |
|---|---|---|---|---|---|---|
| gccsite/gcc/models.py:301-302 | a question without an answer ends the scan with `return question.finaly_required` | profile complete, one question with finaly_required true and no answer: the application counts as complete; with finaly_required false it counts as incomplete | a missing answer fails only a finally-required question, and the scan goes on to the later questions (the field's own comment at models.py:461-462 says a finally-required field must be filled to validate) | high, not executed | Models.MissingAnswerInverted | Models.IntendedCompleteApplicationCorrect |

The validation view (`Views.ValidationView`) is gated by the check as
written (`Models.CompleteApplication`), because that is what the site runs.
`Models.IntendedCompleteApplication` is the corrected check, and
`Models.IntendedCompleteApplicationCorrect` states what it accepts.

## Left out

- Newsletter subscription, unsubscribe tokens (SHA-256 over the secret key) and verification URLs: foreign hashing and URL reversing.
- reCAPTCHA checks and mail delivery: network I/O. `Views.ValidationView` only reports, as `mailSent`, whether the confirmation mail is sent.
- Queries that depend on the clock (`timezone.now()`), `Edition.current()` as "latest by year", and random sponsor ordering. The current edition's question list is an input.
- Edition file paths, poster lookup, CSV export, ordered answers, `__str__`, `csv_name` and `short_description`: filesystem and presentation.
- The permission rules (`rules` predicates) and `user.has_complete_profile()`: each is a boolean input.
- `PermissionRequiredMixin.dispatch`, which looks up the permission object (404) and refuses without permission (403) before `get` runs, is not modelled. Each `get` is modelled with its own checks.
- Templates, flashed message texts, redirect targets, and the deprecated `assignation_event` relation.
- Concurrent requests on the same wish, including the lost update between two staff members.
- Users, edition, URL, settings and translation configuration (`users/forms.py`, `urls.py`, `settings`, `translation.py`, `models/__init__.py`).
- StaffViews.UpdateWishView, StaffViews.UpdateWishOutcome: the status comes from the URL as any non-negative integer; the model takes one of the six statuses, so an out-of-range value is not modelled. Models.LockedIffStatusAtLeastPending relies on that six-value domain: in the source a saved status of 6 or more makes `is_locked` true while `status` can still display `incomplete`.
- Views.GetInitial: the queryset is ordered by `order`; the model scans the rows in table order. This only matters for which of two wishes with the same priority fills the field.
- Views.ValidationView: the permission `users.edit` on the shown user is not modelled. The shown user's existence and activity and the requester's staff flag are inputs.
- Models.ApplicantsFor: the source's `*_applicants_for` lists come ordered by the wishes' `order` (EventWish `Meta.ordering`, models.py:410-411); the model lists them in table order. The listed applicants and their multiplicity agree, the sequence order does not. The same holds for the five filters built on it.
- Models.Clean: event and signup dates are integers, never missing. In the source a missing date makes `clean` fail with a `TypeError` on comparison rather than a `ValidationError` (models.py:121-131); that case is not modelled.
- Answers hold JSON values with numbers as reals. Only Python truthiness of the response matters here.
