# Bike rental: a Dafny model of the rental lifecycle and its small rules

This project models the core of a Django bike-rental application. The centre is
the rental lifecycle:

- A user rents a bike (`create_rental`). The bike must exist, the user must not
  already be riding, and the bike must be available. Renting inserts an active
  rental and marks the bike unavailable.
- The user returns it (`return_bike`). The rental must exist and belong to the
  user, and it must not have been returned already. Returning stamps the end
  time, bills the rental and makes the bike available again.

The store holds the bike table and the rental table. It keeps two invariants,
proved preserved by every operation of `RentalStore`; the source's user delete
breaks the second one (see Findings):

- each user has at most one active rental;
- a bike is unavailable exactly when an active rental references it.

Around the lifecycle sit the smaller rules of the application:

- the profile page's split of a user's rentals into active and past rentals;
- the signup form's age check (14 to 90 years, both inclusive);
- the star-rating widget of the review form;
- the review rating validators, review ordering, and the string forms of
  rentals and reviews.

Files:

| file | module | models |
|---|---|---|
| `seqs.dfy` | `Wrappers`, `Seqs`, `Decimal` | Option; filtering and newest-first ordering of query results; decimal rendering of ids |
| `rentals_models.dfy` | `RentalModels` | the `Bike` and `Rental` rows, the "active" predicate, the string form of a rental |
| `rentals_views.dfy` | `RentalViews` | billing, the store and its invariant, create/return/cascade-delete steps, the `RentalStore` class |
| `profiles_views.dfy` | `ProfileViews` | active and past rentals on the profile page |
| `profiles_forms.dfy` | `SignupForms` | age computation and the date-of-birth check |
| `star_rating.dfy` | `StarRating` | the `StarWidget` class: `setRating`, click, mouseover, mouseout, initialisation |
| `reviews_models.dfy` | `ReviewModels` | rating validators, listing order, cascade deletes, the string form of a review |

Representation choices:

- Time is an integer number of microseconds (`Instant`), the resolution of a
  Django `DateTimeField`.
- Money is an integer number of cents (`Cents`), since prices and costs are
  `DecimalField`s with two decimal places.
- Users and bikes are identified by natural-number primary keys.
- Python's `//` on a positive divisor floors, and so does Dafny's `/`. So
  `elapsed / MicrosPerHour + 1` is the source's
  `int(duration.total_seconds() // 3600) + 1` for every elapsed time, negative
  ones included.
- The current time (`timezone.now()`, `date.today()`) is a parameter of each
  operation.

The rental operations exist in two forms:

- Step functions on a `Store` value (`CreateRentalStep`, `ReturnBikeStep`, ...)
  give the new tables and the outcome of a request. The invariant lemmas are
  stated about them.
- The class `RentalStore` keeps the tables in fields and updates them in place.
  Each method promises the invariant `Valid()`. Each also promises that its new
  state and answer are those of the matching step function applied to the old
  state.

The billing rule is modelled as the code computes it. The code's own comment
(rentals/views.py:75) speaks of rounding up to the next full hour, but line 76
bills the whole hours elapsed plus one, so exactly one hour bills two.
`BilledHours` is the code's rule; `CeilingHours` is rounding up with a minimum
of one hour; `BilledHoursVersusCeiling` proves that the two agree exactly when
the elapsed time is zero or not a multiple of an hour. The rule is kept as
written rather than listed as a finding, since nothing else in the repository
says which of the two the authors meant.

## Model

`Rental.IsActive` (rentals/models.py:29-31), `HasActiveRental`
(rentals/views.py:25-27) and `RentalCost` (rentals/views.py:78) are helpers
without contracts of their own. Their meaning is stated by the contracts of
`CreateRentalStep`, `ReturnBikeStep` and `ReturnBillsAtLeastOneHour`, which use them.

| member | source | states |
|---|---|---|
| `RentalModels.NewRental` | rentals/models.py:27-35 | a new rental references the given user and bike, has its start stamped at creation, and is active with no cost |
| `RentalModels.RentalLabel` | rentals/models.py:37-41 | the string form is "Rental ", then digits that read back as the rental's id, then " by ", then the username |
| `Decimal.ParseNatToString` | rentals/models.py:41 | the decimal rendering of an id reads back as the id |
| `RentalViews.BilledHours` | rentals/views.py:73-76 | billable hours h satisfy (h-1) hours <= elapsed < h hours, i.e. whole hours elapsed plus one; at least one hour for a non-negative elapsed time |
| `RentalViews.BillingBoundaries` | rentals/views.py:76 | 0 and just under an hour bill 1 hour; exactly an hour and just over bill 2 hours |
| `RentalViews.BilledHoursVersusCeiling` | rentals/views.py:75-76 | the implemented rule equals "round up, minimum one hour" iff the elapsed time is 0 or not a multiple of an hour; otherwise it bills exactly one hour more |
| `RentalViews.EmptyStore` | rentals/models.py:8-35 | an empty store satisfies the store invariant |
| `RentalViews.AddBikeStep` | bikes/models.py:31 | a new bike gets a fresh id, is available, and no rental changes |
| `RentalViews.AddBikeKeepsConsistent` | bikes/models.py:31 | adding an available bike keeps the store invariant |
| `RentalViews.CreateRentalStep` | rentals/views.py:23-52 | not-found iff the bike is missing; active-rental iff the bike exists and the user has an active rental; unavailable iff it exists, the user has none, and the flag is false; success iff all three checks pass; every error leaves the store unchanged; success adds exactly one fresh active rental for (user, bike) with no cost and clears only that bike's flag |
| `RentalViews.CreateRentalKeepsConsistent` | rentals/views.py:25-37 | renting keeps: one active rental per user, one per bike, flag false iff an active rental references the bike, foreign keys, and cost set iff ended |
| `RentalViews.ReturnBikeStep` | rentals/views.py:68-92 | not-found iff the rental is missing or owned by another user; already-completed iff it is the user's and has ended; success iff it is the user's and still active; errors change nothing; success sets the end time to now and the cost to BilledHours(now - start) times the hourly price, answers that cost, and sets only that bike available |
| `RentalViews.ReturnBikeKeepsConsistent` | rentals/views.py:70-82 | returning keeps the store invariant, both rental invariants included |
| `RentalViews.ReturnTwiceIsNoOp` | rentals/views.py:68-92 | after a successful return, a second return of the same rental answers already-completed and leaves the end time and cost of the first return unchanged |
| `RentalViews.ReturnBillsAtLeastOneHour` | rentals/views.py:74-78 | a return at or after the start bills at least one hour's price |
| `RentalViews.RentRefuseReturnScenario` | rentals/views.py:25-82 | renting X at 5.00/h, then being refused Y, then returning X after 90 minutes costs 10.00; X becomes available again and Y is untouched |
| `RentalViews.DeleteBikeStep` | rentals/models.py:24-26 | deleting a bike removes it and exactly the rentals that reference it |
| `RentalViews.DeleteBikeKeepsConsistent` | rentals/models.py:24-26 | a cascading bike delete keeps the store invariant |
| `RentalViews.CascadeDeleteUser` | rentals/models.py:20-22 | the database cascade removes every rental of the user and leaves the bike table as it was |
| `RentalViews.CascadeDeleteUserStrandsBike` | rentals/models.py:20-22 | a consistent store whose user is deleted while renting becomes inconsistent: the bike stays unavailable with no active rental |
| `RentalViews.DeleteUserStep` | rentals/models.py:20-22 | deleting a user removes exactly the user's rentals and makes the bike the user was riding available |
| `RentalViews.DeleteUserKeepsConsistent` | rentals/models.py:20-22 | the corrected user delete keeps the store invariant |
| `RentalViews.RentalStore.constructor` | rentals/models.py:8-35 | a new store is empty and valid |
| `RentalViews.RentalStore.AddBike` | bikes/models.py:31 | keeps `Valid()`, and the new tables are those of `AddBikeStep` |
| `RentalViews.RentalStore.CreateRental` | rentals/views.py:11-52 | keeps `Valid()`; the new tables and the answer are those of `CreateRentalStep` |
| `RentalViews.RentalStore.ReturnBike` | rentals/views.py:55-93 | keeps `Valid()`; the new tables and the answer are those of `ReturnBikeStep` |
| `RentalViews.RentalStore.DeleteBike` | rentals/models.py:24-26 | keeps `Valid()`; the new tables are those of `DeleteBikeStep` |
| `RentalViews.RentalStore.DeleteUser` | rentals/models.py:20-22 | the corrected delete; the source's cascade is `CascadeDeleteUser`. Keeps `Valid()`; the new tables are those of `DeleteUserStep` |
| `ProfileViews.UserRentals` | profiles/views.py:20-27 | exactly the rows belonging to the user, each as many times as in the table |
| `ProfileViews.ActiveRentals` | profiles/views.py:20-22 | exactly the user's rows with no end time, each as many times as in the table |
| `ProfileViews.EndedRentals` | profiles/views.py:25-26 | exactly the user's rows with an end time, each as many times as in the table |
| `Seqs.FilterCount` | profiles/views.py:20-27 | a filter keeps each matching row as many times as it occurs and drops every other row |
| `ProfileViews.PastRentals` | profiles/views.py:25-28 | a permutation of the user's ended rows, ordered by end time, most recent first |
| `ProfileViews.ActiveAndEndedPartition` | profiles/views.py:20-28 | as multisets, active plus ended rows equal all the user's rows |
| `ProfileViews.ProfileView` | profiles/views.py:7-34 | the active and past lists are disjoint, hold no other user's rental, and together hold each of the user's rentals once |
| `SignupForms.Age` | profiles/forms.py:56-59 | the age is the number of birthdays by today: the age-th birthday is on or before today and the next one is after it |
| `SignupForms.AgeRisesOnBirthday` | profiles/forms.py:56-59 | on the birthday the age is one more than on any day from the previous birthday to the day before, including across the new year |
| `SignupForms.AgeMonotone` | profiles/forms.py:56-59 | the age never decreases as today moves forward |
| `SignupForms.CleanDateOfBirth` | profiles/forms.py:40-67 | a missing date of birth is accepted unchecked; a present one is accepted iff 14 <= age <= 90; what is accepted is returned unchanged; a rejection carries the form's message |
| `SignupForms.AcceptedBetweenBirthdays` | profiles/forms.py:56-65 | a date of birth is accepted iff the 14th birthday has come and the 91st has not |
| `SignupForms.FutureBirthRejected` | profiles/forms.py:56-65 | a date of birth after today gives a negative age and is rejected |
| `StarRating.Highlight` | static/js/star-rating.js:11-21 | after `setRating(v)` the star valued i+1 is selected iff i+1 <= v |
| `StarRating.HighlightCount` | static/js/star-rating.js:11-21 | after `setRating(v)`, exactly v stars are selected, clamped to 0..n, and they are the first ones |
| `StarRating.StarWidget.constructor` | static/js/star-rating.js:45-48 | initialising with a value selects that many stars; with no value, none are selected |
| `StarRating.StarWidget.SetRating` | static/js/star-rating.js:11-21 | the loop leaves each star's mark set iff its value is at most v |
| `StarRating.StarWidget.Click` | static/js/star-rating.js:26-32 | clicking star k sets the input to k and leaves exactly the first k stars selected |
| `StarRating.StarWidget.MouseOver` | static/js/star-rating.js:35-37 | hovering over star k selects exactly the first k stars and leaves the input unchanged |
| `StarRating.StarWidget.MouseOut` | static/js/star-rating.js:39-42 | leaving a star restores the selection to the input's value |
| `StarRating.ClickHoverLeave` | static/js/star-rating.test.js:86-105 | clicking star c, hovering over another star and leaving it ends with exactly c stars selected and the input at c |
| `ReviewModels.RatingErrors` | reviews/models.py:28-32 | no validation error iff 1 <= rating <= 5; below 1 reports the minimum error; above 5 reports the maximum error |
| `ReviewModels.ListReviews` | reviews/models.py:38-42 | a permutation of the reviews, ordered by creation time, newest first |
| `ReviewModels.DeleteBikeReviews` | reviews/models.py:20-23 | deleting a bike removes exactly that bike's reviews and keeps each other review as many times as it occurred |
| `ReviewModels.DeleteUserReviews` | reviews/models.py:24-27 | deleting a user removes exactly that user's reviews and keeps each other review as many times as it occurred |
| `ReviewModels.ReviewLabel` | reviews/models.py:44-48 | the string form is "Review by ", then the username, then " for ", then the bike's name |

## Findings

| source | as written | input that shows it | evidently intended | confidence | as-written member | corrected member |
|---|---|---|---|---|---|---|
| rentals/models.py:20-22 | the rental's user foreign key cascades, so deleting a user deletes their active rental but leaves the bike's `is_available` false | user 1 rents bike 0 and is then deleted: no active rental references bike 0, yet it stays unavailable until staff reset it | a bike is unavailable exactly when an active rental references it, so deleting a rider frees the bike | medium, not executed | `RentalViews.CascadeDeleteUser` (`RentalViews.CascadeDeleteUserStrandsBike`) | `RentalViews.DeleteUserStep` (`RentalViews.DeleteUserKeepsConsistent`) |

## Left out

- HTTP plumbing. `login_required`, `redirect` targets (profile or home), the
  `messages` texts, the `strftime` start-time message and the euro formatting of
  the cost are left out. Each request's visible effect is reduced to an outcome:
  `Ok`, `NotFound`, `ActiveRentalExists`, `BikeUnavailable` or
  `AlreadyCompleted`.
- Transactions and concurrency. The code makes two separate saves per request
  with no transaction. Each request is modelled as one atomic step, and races
  between requests are not modelled.
- Clocks. `timezone.now()` and `date.today()` are parameters. Nothing forces a
  return's time to be later than the start. The at-least-one-hour lemma assumes
  it is.
- `RentalViews.BilledHours`: works on exact integer microseconds.
  `total_seconds()` is a float, and its rounding near hour boundaries is not
  modelled.
- The 8-digit limit of `total_cost` and the 6-digit limit of `price_per_hour`. A
  database would refuse a cost that overflows; the model's integers are
  unbounded.
- Bike fields and queries the lifecycle does not use. Type, description, size
  and image are left out, as are `Bike.average_rating` (a floating-point
  database aggregate) and the catalog list and detail views.
- Administrative edits. Staff can set `is_available` by hand, and the tests
  create a bike that is unavailable with no rental. Both fall outside the store
  invariant. `AddBike` only creates bikes with the default flag, available.
- The users table. Users are bare ids, and a username is passed to the label
  functions.
- `RentalViews.ReturnBikeStep`: requires every rental's bike to exist. The
  database's foreign key guarantees this.
- `RentalViews.DeleteUserStep`: follows the corrected behaviour (see Findings).
  The as-written cascade is `RentalViews.CascadeDeleteUser`.
- Ties in the orderings. The database gives no order for rentals with the same
  end time or reviews with the same creation time. The model fixes one order.
  The active list keeps table order, where the database gives none.
- `Seqs.Filter`: does not state that the filtered lists keep the table's order.
  Its contract and `Seqs.FilterCount` state membership in both directions and
  that each kept element occurs as often as in the input, but not the order.
- Signup form. Parsing of the dd/mm/yyyy input is left out; `Date` needs no
  calendar validity. `CustomSignupForm.signup`, the profile signals and the
  `Profile` record are left out, since they only copy fields.
- Star widget. Stars are valued 1..n by position, as in the template's
  `data-value` attributes. The input is read as a number, with an empty value
  as 0. Non-numeric values (NaN in JavaScript) are not modelled. Several
  widgets on one page are not modelled; each container is independent.
- Review views and forms. The edit/delete views, `ReviewForm`, admin classes,
  URL configuration and the 404 handler are left out. The rating validators run
  only on full validation. A save that skips validation is not modelled.
