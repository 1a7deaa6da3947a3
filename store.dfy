/**
 * The database tables the status logic reads and writes: editions, applicants
 * with their review labels, the ApplicantLabel table, the EventWish table and
 * the answers. Every `save()` of the source is an assignment to one field.
 */
module Store {

  import opened Wrappers
  import opened StatusTypes
  import opened Models

  /** One row of the Applicant table, with the applicant's `labels` relation. */
  datatype ApplicantRow = ApplicantRow(user: UserId, edition: Year, labels: set<LabelId>)

  /** Applicant's unique_together = (user, edition). */
  predicate UniqueUserEdition(apps: map<ApplicantId, ApplicantRow>) {
    forall a, b :: a in apps && b in apps && apps[a].user == apps[b].user && apps[a].edition == apps[b].edition ==> a == b
  }

  /** `a` is the applicant of `user` for `edition`. */
  predicate IsApplicantOf(apps: map<ApplicantId, ApplicantRow>, a: ApplicantId, user: UserId, edition: Year) {
    a in apps && apps[a].user == user && apps[a].edition == edition
  }

  /** Some applicant of `user` for `edition` exists. */
  predicate HasApplicant(apps: map<ApplicantId, ApplicantRow>, user: UserId, edition: Year) {
    exists a :: a in apps && IsApplicantOf(apps, a, user, edition)
  }

  /** The answers of applicant `a`, by question. */
  function AnswersOf(answers: map<ApplicantId, map<QuestionId, Json>>, a: ApplicantId): (m: map<QuestionId, Json>)
    ensures a !in answers ==> m == map[]
  {
    if a in answers then answers[a] else map[]
  }

  /** The primary key the database assigns to a new row: one more than every key in use. */
  method NextPrimaryKey(keys: set<nat>) returns (n: nat)
    ensures n !in keys
    ensures forall k :: k in keys ==> k < n
  {
    n := 0;
    var rest, seen := keys, {};
    while rest != {}
      invariant rest + seen == keys
      invariant forall k :: k in seen ==> k < n
      decreases rest
    {
      var k :| k in rest;
      if k >= n {
        n := k + 1;
      }
      rest, seen := rest - {k}, seen + {k};
    }
  }

  class Database {
    var editions: set<Year>
    var applicants: map<ApplicantId, ApplicantRow>
    /** The ApplicantLabel table. */
    var labels: set<LabelId>
    /** The EventWish table, in table order. */
    var wishes: seq<WishRow>
    /** The Answer table; unique_together = (applicant, question). */
    var answers: map<ApplicantId, map<QuestionId, Json>>

    /**
     * The constraints the schema enforces: primary keys, the foreign keys of
     * wishes and labels, and the two unique_together pairs. A wish id then
     * finds exactly its own row.
     */
    ghost predicate Valid()
      reads this
      ensures Valid() ==> forall i :: 0 <= i < |wishes| ==> FindWish(wishes, wishes[i].id) == Some(i)
    {
      UniqueWishIds(wishes) && UniqueApplicantEvent(wishes) &&
      (forall i :: 0 <= i < |wishes| ==> wishes[i].applicant in applicants) &&
      (forall a :: a in applicants ==> applicants[a].labels <= labels && applicants[a].edition in editions) &&
      UniqueUserEdition(applicants)
    }

    /** An empty database with the given editions and labels. */
    constructor (editions: set<Year>, labels: set<LabelId>)
      ensures Valid()
      ensures this.editions == editions && this.labels == labels
      ensures applicants == map[] && wishes == [] && answers == map[]
    {
      this.editions := editions;
      this.labels := labels;
      applicants := map[];
      wishes := [];
      answers := map[];
    }

    /** wish.status = s; wish.save() for the wish at position `k`. */
    method SaveWishStatus(k: nat, s: Status)
      requires Valid() && k < |wishes|
      modifies this`wishes
      ensures Valid()
      ensures wishes == SetStatus(old(wishes), k, s)
    {
      wishes := wishes[k := wishes[k].(status := s)];
    }

    /**
     * Applicant.validate_current_wishes: each wish of `a` still `incomplete`
     * is set to `pending` and saved, one row at a time.
     */
    method ValidateCurrentWishes(a: ApplicantId)
      requires Valid()
      modifies this`wishes
      ensures Valid()
      ensures wishes == ValidatedFor(old(wishes), a)
    {
      var i := 0;
      while i < |wishes|
        invariant 0 <= i <= |wishes| == |old(wishes)|
        invariant forall k :: 0 <= k < i ==>
          wishes[k] == if old(wishes)[k].applicant == a then Promote(old(wishes)[k]) else old(wishes)[k]
        invariant forall k :: i <= k < |wishes| ==> wishes[k] == old(wishes)[k]
      {
        if wishes[i].applicant == a && wishes[i].status == Incomplete {
          wishes := wishes[i := wishes[i].(status := Pending)];
        }
        i := i + 1;
      }
      var v := ValidatedFor(old(wishes), a);
      assert forall k :: 0 <= k < |wishes| ==> wishes[k] == v[k];
    }

    /** applicant.labels.add(label). */
    method AddLabel(a: ApplicantId, l: LabelId)
      requires Valid() && a in applicants && l in labels
      modifies this`applicants
      ensures Valid()
      ensures applicants == old(applicants)[a := old(applicants)[a].(labels := old(applicants)[a].labels + {l})]
    {
      applicants := applicants[a := applicants[a].(labels := applicants[a].labels + {l})];
    }

    /** applicant.labels.remove(label). */
    method RemoveLabel(a: ApplicantId, l: LabelId)
      requires Valid() && a in applicants
      modifies this`applicants
      ensures Valid()
      ensures applicants == old(applicants)[a := old(applicants)[a].(labels := old(applicants)[a].labels - {l})]
    {
      applicants := applicants[a := applicants[a].(labels := applicants[a].labels - {l})];
    }

    /**
     * Applicant.for_user_and_edition: the applicant of `user` for `edition`,
     * created without labels when there is none yet.
     */
    method ForUserAndEdition(user: UserId, edition: Year) returns (a: ApplicantId)
      requires Valid() && edition in editions
      modifies this`applicants
      ensures Valid()
      ensures IsApplicantOf(applicants, a, user, edition)
      ensures HasApplicant(old(applicants), user, edition) ==> applicants == old(applicants)
      ensures !HasApplicant(old(applicants), user, edition) ==>
                a !in old(applicants) && applicants == old(applicants)[a := ApplicantRow(user, edition, {})]
    {
      if b :| b in applicants && applicants[b].user == user && applicants[b].edition == edition {
        a := b;
      } else {
        a := NextPrimaryKey(applicants.Keys);
        applicants := applicants[a := ApplicantRow(user, edition, {})];
      }
    }
  }

  /** A new applicant has no wishes yet, so it is not locked. */
  lemma {:induction false} NewApplicantHasNoWishes(rows: seq<WishRow>, apps: map<ApplicantId, ApplicantRow>, a: ApplicantId)
    requires forall i :: 0 <= i < |rows| ==> rows[i].applicant in apps
    requires a !in apps
    ensures WishesOf(rows, a) == []
    ensures !IsLocked(WishesOf(rows, a)) && ApplicantStatus(WishesOf(rows, a)) == Incomplete
  {
    if rows != [] {
      assert rows[0].applicant in apps;
      forall i | 0 <= i < |rows[1..]| ensures rows[1..][i].applicant in apps {
        assert rows[1..][i] == rows[i + 1];
      }
      NewApplicantHasNoWishes(rows[1..], apps, a);
    }
  }
}
