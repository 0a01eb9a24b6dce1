/** Short request sequences against a fresh store, each stating what the
    application must do for them. The ids the database would assign are parameters. */
module Scenarios {
  import Text
  import opened Options
  import opened ObjectIds
  import opened Documents
  import opened Validation
  import opened Responses
  import opened App

  /** A one-digit rating with a text that needs no stripping: accepted when the
      digit is 1 to 5, refused as out of range otherwise. */
  lemma OneDigitReview(rating: string, text: string)
    requires |rating| == 1 && Text.IsDigit(rating[0])
    requires text != [] && Text.Stripped(text)
    ensures var n := rating[0] as int - '0' as int;
            CheckReview(rating, text) == if 1 <= n <= 5 then Accepted(ReviewInput(n, text)) else Refused(RatingOutOfRange)
  {
    Text.TrimFixedIff(text);
    Text.SingleDigit(rating);
  }

  /** A rating 1 to 5 with an empty text is refused for the text. */
  lemma EmptyTextReview(rating: string)
    requires |rating| == 1 && '1' <= rating[0] <= '5'
    ensures CheckReview(rating, "") == Refused(TextEmpty)
  {
    Text.SingleDigit(rating);
  }

  /** A rating of digits only, longer than `int()` converts (4300 zeros then "3", say),
      makes the check raise rather than accept or refuse, whatever the text. */
  lemma OverlongRatingRaises(rating: string, text: string)
    requires Text.IsDigits(rating) && |rating| > Text.MaxIntDigits
    ensures CheckReview(rating, text) == RatingRaises
  {
    Text.TrimFixedIff(rating);
  }

  /** Sign up with a name and an email that are already trimmed (the email also lower
      case) and a password of at least six characters, on an empty users table, then
      choose "owner": the account is created with that name and email and no role, the
      user is sent to role selection, and the role then reads as owner. */
  method SignupThenChooseOwner(name: string, email: string, password: string, hash: Hash, aliceId: ObjectId)
    returns (created: UserDoc, afterSelect: Option<Role>, next: Page)
    requires name != [] && Text.Trim(name) == name
    requires email != [] && NormalizeEmail(email) == email
    requires |password| >= 6
    ensures created.username == Present(name) && created.email == email
    ensures UserRole(created) == None && afterSelect == Some(Owner) && next == SelectRolePage
  {
    var store := new Store(map[], map[], map[]);
    var resp, session := store.Signup(false, name, email, password, hash, aliceId);
    next := resp.to;
    created := store.users[aliceId];
    var chosen := store.SelectRole(aliceId, Some("owner"));
    afterSelect := UserRole(store.users[aliceId]);
  }

  /** Posting a review rated "6", then one rated "4" with an empty text, then one
      rated "4" with a text that needs no stripping: the first two leave the reviews
      table empty, the third stores one review rated 4 with that text. */
  method PostReviews(alice: UserDoc, aliceId: ObjectId, cafeId: ObjectId, link: string,
                     reviewId: ObjectId, text: string)
    returns (afterFirst: map<ObjectId, ReviewDoc>, afterSecond: map<ObjectId, ReviewDoc>,
             afterThird: map<ObjectId, ReviewDoc>)
    requires alice.username.Present?
    requires ParseObjectId(link) == Some(cafeId)
    requires text != [] && Text.Stripped(text)
    ensures afterFirst == afterSecond == map[]
    ensures afterThird == map[reviewId := ReviewDoc(cafeId, aliceId, Some(alice.username.value), 4, text)]
  {
    var store := new Store(map[aliceId := alice], map[cafeId := Cafe("Sips")], map[]);
    OneDigitReview("6", text);
    var tooHigh := store.AddReview(aliceId, link, "6", text, reviewId);
    afterFirst := store.reviews;
    EmptyTextReview("4");
    var noText := store.AddReview(aliceId, link, "4", "", reviewId);
    afterSecond := store.reviews;
    OneDigitReview("4", text);
    var posted := store.AddReview(aliceId, link, "4", text, reviewId);
    afterThird := store.reviews;
  }

  /** Whatever review Alice posts survives Bob's attempt to delete it, which is
      refused as not his, and is gone after Alice's own attempt. */
  method OnlyAuthorDeletes(aliceId: ObjectId, bobId: ObjectId, cafeId: ObjectId, reviewId: ObjectId,
                           rating: string, text: string)
    returns (afterBob: bool, afterAlice: bool, bobFlash: Option<Flash>)
    requires aliceId != bobId && CheckReview(rating, text).Accepted?
    ensures afterBob && !afterAlice
    ensures bobFlash == ErrorFlash(NotYourReviewToDelete)
  {
    var users := map[aliceId := NewUser("alice", "a@x.com", "h1"), bobId := NewUser("bob", "b@x.com", "h2")];
    var store := new Store(users, map[cafeId := Cafe("Sips")], map[]);
    ParseIdString(cafeId);
    var posted := store.AddReview(aliceId, IdString(cafeId), rating, text, reviewId);
    assert reviewId in store.reviews && store.reviews[reviewId].userId == aliceId;
    ParseIdString(reviewId);
    var link := IdString(reviewId);
    var refused := store.DeleteReview(bobId, link);
    assert reviewId in store.reviews && store.reviews[reviewId].userId == aliceId;
    afterBob := reviewId in store.reviews;
    bobFlash := refused.flash;
    var deleted := store.DeleteReview(aliceId, link);
    afterAlice := reviewId in store.reviews;
  }
}
