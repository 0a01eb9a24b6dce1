/** The input checks inside the request handlers: the signup chain, the shared
    rating/text check of the review handlers, and the normalisation of inputs. */
module Validation {
  import opened Options
  import Text
  import opened ObjectIds
  import opened Documents

  /** `.strip().lower()` as signup and login apply it to the email field. */
  function NormalizeEmail(raw: string): string {
    Text.Lower(Text.Trim(raw))
  }

  /** An email that is already normalised (as every stored one is) normalises to itself,
      so logging in with the address as stored finds the account. */
  lemma NormalizeEmailIdempotent(raw: string)
    ensures NormalizeEmail(NormalizeEmail(raw)) == NormalizeEmail(raw)
  {
    var t := Text.Trim(raw);
    Text.TrimIdempotent(raw);
    Text.TrimLowerCommute(t);
    Text.LowerIdempotent(t);
  }

  datatype SignupFailure =
    | UsernameMissing
    | EmailMissing
    | PasswordMissing
    | PasswordTooShort
    | EmailInUse
    | UsernameInUse

  /** The signup checks on already normalised input, first failure wins. */
  function SignupError(users: map<ObjectId, UserDoc>, username: string, email: string, password: string)
    : (r: Option<SignupFailure>)
    ensures r.None? <==> username != [] && email != [] && |password| >= 6
                         && !EmailTaken(users, email) && !UsernameTaken(users, username)
    ensures |password| < 6 ==> r.Some?
  {
    if username == [] then Some(UsernameMissing)
    else if email == [] then Some(EmailMissing)
    else if password == [] then Some(PasswordMissing)
    else if |password| < 6 then Some(PasswordTooShort)
    else if EmailTaken(users, email) then Some(EmailInUse)
    else if UsernameTaken(users, username) then Some(UsernameInUse)
    else None
  }

  /** The signup checks in their order, each paired with whether the input passes it. */
  function SignupChecks(users: map<ObjectId, UserDoc>, username: string, email: string, password: string)
    : seq<(SignupFailure, bool)>
  {
    [ (UsernameMissing, username != []),
      (EmailMissing, email != []),
      (PasswordMissing, password != []),
      (PasswordTooShort, |password| >= 6),
      (EmailInUse, !EmailTaken(users, email)),
      (UsernameInUse, !UsernameTaken(users, username)) ]
  }

  /** The position of the first check that fails, if any. */
  function FirstFailing(checks: seq<(SignupFailure, bool)>): (r: Option<nat>)
    ensures r.None? <==> forall k :: 0 <= k < |checks| ==> checks[k].1
    ensures r.Some? ==> r.value < |checks| && !checks[r.value].1
                        && forall k :: 0 <= k < r.value ==> checks[k].1
  {
    if checks == [] then None
    else if !checks[0].1 then Some(0)
    else match FirstFailing(checks[1..])
         case None => None
         case Some(k) => Some(k + 1)
  }

  /** Signup reports exactly one error: the first check that fails. */
  lemma SignupReportsFirstFailure(users: map<ObjectId, UserDoc>, username: string, email: string, password: string)
    ensures var checks := SignupChecks(users, username, email, password);
            SignupError(users, username, email, password) ==
              match FirstFailing(checks)
              case None => None
              case Some(k) => Some(checks[k].0)
  {
    var checks := SignupChecks(users, username, email, password);
    var first := FirstFailing(checks);
    if first.Some? {
      var k := first.value;
      if k == 0 {
      } else if k == 1 {
        assert checks[0].1;
      } else if k == 2 {
        assert checks[0].1 && checks[1].1;
      } else if k == 3 {
        assert checks[0].1 && checks[1].1 && checks[2].1;
      } else if k == 4 {
        assert checks[0].1 && checks[1].1 && checks[2].1 && checks[3].1;
      } else {
        assert checks[0].1 && checks[1].1 && checks[2].1 && checks[3].1 && checks[4].1;
      }
    } else {
      assert checks[0].1 && checks[1].1 && checks[2].1 && checks[3].1 && checks[4].1 && checks[5].1;
    }
  }

  /** A successful signup keeps emails and usernames unique. */
  lemma SignupKeepsUnique(users: map<ObjectId, UserDoc>, id: ObjectId, username: string, email: string,
                          password: string, hash: Hash)
    requires Unique(users) && id !in users
    requires SignupError(users, username, email, password).None?
    ensures Unique(users[id := NewUser(username, email, hash)])
  {
    var after := users[id := NewUser(username, email, hash)];
    forall a, b | a in after && b in after && a != b
      ensures after[a].email != after[b].email
    {
      if a == id { assert users[b].email != email; }
      else if b == id { assert users[a].email != email; }
    }
    forall a, b | a in after && b in after && a != b && after[a].username.Present?
      ensures after[a].username != after[b].username
    {
      if a == id { assert users[b].username != Present(username); }
      else if b == id { assert users[a].username != Present(username); }
    }
  }

  datatype ReviewFailure = RatingNotANumber | RatingOutOfRange | TextEmpty

  datatype ReviewInput = ReviewInput(rating: int, text: string)

  /** How the review checks end: the input is accepted, refused with a flashed failure,
      or `int()` raises on a rating with too many digits, which nothing catches. */
  datatype ReviewCheck =
    | Accepted(input: ReviewInput)
    | Refused(failure: ReviewFailure)
    | RatingRaises

  /** The rating and text checks shared by posting and editing a review, in the
      handlers' order, on the raw form values (`request.form.get(key, "")`): the
      stripped rating must be digits, `int()` must convert it, its value must be in
      [1, 5], and the stripped text must be non-empty. */
  function CheckReview(ratingRaw: string, textRaw: string): ReviewCheck {
    var rating := Text.Trim(ratingRaw);
    var text := Text.Trim(textRaw);
    if !Text.IsDigits(rating) then Refused(RatingNotANumber)
    else
      match Text.IntValue(rating)
      case None => RatingRaises
      case Some(n) =>
        if n < 1 || n > 5 then Refused(RatingOutOfRange)
        else if text == [] then Refused(TextEmpty)
        else Accepted(ReviewInput(n, text))
  }

  /** Why the review check refuses or raises: a rating that is not digits (so also an
      empty one), one with more digits than `int()` converts, one outside [1, 5], a text
      that is only whitespace, in that order. */
  lemma CheckReviewRejects(ratingRaw: string, textRaw: string)
    ensures CheckReview(ratingRaw, textRaw) == Refused(RatingNotANumber) <==> !Text.IsDigits(Text.Trim(ratingRaw))
    ensures CheckReview(ratingRaw, textRaw) == RatingRaises <==>
              Text.IsDigits(Text.Trim(ratingRaw)) && |Text.Trim(ratingRaw)| > Text.MaxIntDigits
    ensures CheckReview(ratingRaw, textRaw) == Refused(RatingOutOfRange) <==>
              && Text.IsDigits(Text.Trim(ratingRaw)) && |Text.Trim(ratingRaw)| <= Text.MaxIntDigits
              && !(1 <= Text.DigitsValue(Text.Trim(ratingRaw)) <= 5)
    ensures CheckReview(ratingRaw, textRaw) == Refused(TextEmpty) <==>
              Text.IsStarRating(Text.Trim(ratingRaw)) && Text.AllSpace(textRaw)
  {
    Text.StarRatingIff(Text.Trim(ratingRaw));
    Text.TrimEmptyIff(textRaw);
  }

  /** What the review check accepts: a star rating "1".."5" (leading zeros allowed, up to
      the digits `int()` converts) and a text that is not all whitespace; it yields the
      rating's value and the stripped text. */
  lemma CheckReviewAccepts(ratingRaw: string, textRaw: string)
    ensures CheckReview(ratingRaw, textRaw).Accepted? <==>
              Text.IsStarRating(Text.Trim(ratingRaw)) && !Text.AllSpace(textRaw)
    ensures var r := CheckReview(ratingRaw, textRaw);
            r.Accepted? ==>
              && r.input.rating == Text.DigitsValue(Text.Trim(ratingRaw)) && 1 <= r.input.rating <= 5
              && r.input.text == Text.Trim(textRaw) && r.input.text != []
              && Text.Trim(r.input.text) == r.input.text
  {
    Text.StarRatingIff(Text.Trim(ratingRaw));
    Text.TrimEmptyIff(textRaw);
    Text.TrimIdempotent(textRaw);
  }

  /** What the review check accepted, stored with any ids and author name, is a
      well-formed review. */
  lemma CheckedReviewWellFormed(rawRating: string, rawText: string, cafeId: ObjectId,
                                userId: ObjectId, username: Option<string>)
    requires CheckReview(rawRating, rawText).Accepted?
    ensures var input := CheckReview(rawRating, rawText).input;
            WellFormedReview(ReviewDoc(cafeId, userId, username, input.rating, input.text))
  {
    CheckReviewAccepts(rawRating, rawText);
    Text.TrimIsTrimOf(rawText);
  }

  /** Storing a well-formed review keeps every stored review well formed. */
  lemma StoreKeepsWellFormed(reviews: map<ObjectId, ReviewDoc>, id: ObjectId, r: ReviewDoc)
    requires ReviewsWellFormed(reviews) && WellFormedReview(r)
    ensures ReviewsWellFormed(reviews[id := r])
  {
  }
}
