/** The profile page's split of one user's rentals into the active ones and
    the past ones, the past ones most recently returned first. */
module ProfileViews {
  import opened Wrappers
  import opened RentalModels
  import Seqs

  /** The ordering key of a returned rental: its end time. */
  function EndKey(r: Rental): int
  {
    if r.endTime.Some? then r.endTime.value else 0
  }

  /** All rentals of `user`. */
  function UserRentals(rows: seq<Rental>, user: UserId): (mine: seq<Rental>)
    ensures forall i :: 0 <= i < |mine| ==> mine[i].user == user && mine[i] in rows
    ensures forall i :: 0 <= i < |rows| && rows[i].user == user ==> rows[i] in mine
    ensures forall r :: multiset(mine)[r] == if r.user == user then multiset(rows)[r] else 0
  {
    var p := (r: Rental) => r.user == user;
    assert forall r :: multiset(Seqs.Filter(rows, p))[r] == if p(r) then multiset(rows)[r] else 0 by {
      forall r ensures multiset(Seqs.Filter(rows, p))[r] == if p(r) then multiset(rows)[r] else 0 {
        Seqs.FilterCount(rows, p, r);
      }
    }
    Seqs.Filter(rows, p)
  }

  /** The rentals of `user` with no end time. */
  function ActiveRentals(rows: seq<Rental>, user: UserId): (active: seq<Rental>)
    ensures forall i :: 0 <= i < |active| ==> active[i] in rows && active[i].user == user && active[i].IsActive()
    ensures forall i :: 0 <= i < |rows| && rows[i].user == user && rows[i].IsActive() ==> rows[i] in active
    ensures forall r :: multiset(active)[r] == if r.user == user && r.IsActive() then multiset(rows)[r] else 0
  {
    var p := (r: Rental) => r.user == user && r.IsActive();
    assert forall r :: multiset(Seqs.Filter(rows, p))[r] == if p(r) then multiset(rows)[r] else 0 by {
      forall r ensures multiset(Seqs.Filter(rows, p))[r] == if p(r) then multiset(rows)[r] else 0 {
        Seqs.FilterCount(rows, p, r);
      }
    }
    Seqs.Filter(rows, p)
  }

  /** The rentals of `user` that have an end time. */
  function EndedRentals(rows: seq<Rental>, user: UserId): (ended: seq<Rental>)
    ensures forall i :: 0 <= i < |ended| ==> ended[i] in rows && ended[i].user == user && !ended[i].IsActive()
    ensures forall i :: 0 <= i < |rows| && rows[i].user == user && !rows[i].IsActive() ==> rows[i] in ended
    ensures forall r :: multiset(ended)[r] == if r.user == user && !r.IsActive() then multiset(rows)[r] else 0
  {
    var p := (r: Rental) => r.user == user && !r.IsActive();
    assert forall r :: multiset(Seqs.Filter(rows, p))[r] == if p(r) then multiset(rows)[r] else 0 by {
      forall r ensures multiset(Seqs.Filter(rows, p))[r] == if p(r) then multiset(rows)[r] else 0 {
        Seqs.FilterCount(rows, p, r);
      }
    }
    Seqs.Filter(rows, p)
  }

  /** The rentals of `user` that have an end time, the most recently ended
      first. Rows with equal end times come in an unspecified order in the
      database; here they keep one fixed order. */
  function PastRentals(rows: seq<Rental>, user: UserId): (past: seq<Rental>)
    ensures multiset(past) == multiset(EndedRentals(rows, user))
    ensures Seqs.SortedDesc(past, EndKey)
    ensures forall i :: 0 <= i < |past| ==> past[i] in rows && past[i].user == user && !past[i].IsActive()
    ensures forall i :: 0 <= i < |past| - 1 ==> past[i].endTime.value >= past[i + 1].endTime.value
  {
    var ended := EndedRentals(rows, user);
    var past := Seqs.SortDesc(ended, EndKey);
    forall i | 0 <= i < |past|
      ensures past[i] in rows && past[i].user == user && !past[i].IsActive()
    {
      var x := past[i];
      assert x in multiset(past);
      assert multiset(ended)[x] > 0;
      assert x.user == user && !x.IsActive() && multiset(rows)[x] > 0;
    }
    past
  }

  /** The user's active and ended rentals together are exactly the user's
      rentals, each row counted once. */
  lemma {:induction false} ActiveAndEndedPartition(rows: seq<Rental>, user: UserId)
    ensures multiset(ActiveRentals(rows, user)) + multiset(EndedRentals(rows, user))
            == multiset(UserRentals(rows, user))
  {
    if rows != [] {
      ActiveAndEndedPartition(rows[1..], user);
    }
  }

  /** What the profile page shows. */
  datatype ProfilePage = ProfilePage(active: seq<Rental>, past: seq<Rental>)

  /** The profile page of `user` over the rental table `rows`: the active and
      past lists are disjoint, together hold every rental of the user once,
      and hold no other user's rental; the past list is newest first. */
  function ProfileView(rows: seq<Rental>, user: UserId): (page: ProfilePage)
    ensures page.active == ActiveRentals(rows, user)
    ensures page.past == PastRentals(rows, user)
    ensures multiset(page.active) + multiset(page.past) == multiset(UserRentals(rows, user))
    ensures |page.active| + |page.past| == |UserRentals(rows, user)|
    ensures forall r :: r in page.active ==> r !in page.past
  {
    ActiveAndEndedPartition(rows, user);
    ProfilePage(ActiveRentals(rows, user), PastRentals(rows, user))
  }
}
