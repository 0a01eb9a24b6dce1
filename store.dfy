/** The request handlers, as methods on the three collections they read and write. */
module App {
  import opened Options
  import opened ObjectIds
  import opened Documents
  import opened Validation
  import opened Responses
  import Text

  /** `@login_required` with `load_user`: a request whose session does not resolve to a
      user is sent to the login page with the requested URL as `next`. */
  function RequireLogin(users: map<ObjectId, UserDoc>, sessionId: Option<string>, url: string)
    : (r: Result<ObjectId, Response>)
    ensures r.Ok? <==> sessionId.Some? && LoadUser(users, sessionId.value).Some?
    ensures r.Ok? ==> r.value in users && Some(r.value) == LoadUser(users, sessionId.value)
    ensures r.Err? ==> r.error == Redirect(LoginPage(url), Some(Flash(PleaseLogIn, Info)))
  {
    if sessionId.None? then Err(Redirect(LoginPage(url), Some(Flash(PleaseLogIn, Info))))
    else
      match LoadUser(users, sessionId.value)
      case None => Err(Redirect(LoginPage(url), Some(Flash(PleaseLogIn, Info))))
      case Some(id) => Ok(id)
  }

  /** Some user has this email and the password matches that user's hash. */
  ghost predicate CredentialsMatch(users: map<ObjectId, UserDoc>, email: string, password: string,
                                   passwordMatches: (Hash, string) -> bool) {
    exists id :: id in users && users[id].email == email && passwordMatches(users[id].passwordHash, password)
  }

  /** The reviews of one cafe, each exactly once, as stored. */
  ghost predicate ListsReviewsOf(vs: seq<ReviewView>, reviews: map<ObjectId, ReviewDoc>, cafeId: ObjectId) {
    && (forall k :: 0 <= k < |vs| ==>
          vs[k].id in reviews && vs[k].review == reviews[vs[k].id] && vs[k].review.cafeId == cafeId)
    && (forall id :: id in reviews && reviews[id].cafeId == cafeId ==> exists k :: 0 <= k < |vs| && vs[k].id == id)
    && (forall k, l :: 0 <= k < l < |vs| ==> vs[k].id != vs[l].id)
  }

  /** On the cafe page the edit and delete controls appear where the annotated author id
      equals the viewer's id: exactly on the viewer's own reviews. */
  lemma ControlsOnlyOnOwnReviews(vs: seq<ReviewView>, k: nat, me: ObjectId)
    requires k < |vs| && vs[k].userIdStr == Some(IdString(vs[k].review.userId))
    ensures vs[k].userIdStr == Some(IdString(me)) <==> vs[k].review.userId == me
  {
    IdStringInjective(vs[k].review.userId, me);
  }

  /** Annotating each listed review with its author's id string keeps the listing. */
  lemma AnnotatedListing(found: seq<ReviewView>, annotated: seq<ReviewView>,
                         reviews: map<ObjectId, ReviewDoc>, cafeId: ObjectId)
    requires ListsReviewsOf(found, reviews, cafeId) && |annotated| == |found|
    requires forall k :: 0 <= k < |found| ==>
      annotated[k] == found[k].(userIdStr := Some(IdString(found[k].review.userId)))
    ensures ListsReviewsOf(annotated, reviews, cafeId)
  {
    forall id | id in reviews && reviews[id].cafeId == cafeId
      ensures exists k :: 0 <= k < |annotated| && annotated[k].id == id
    {
      var k :| 0 <= k < |found| && found[k].id == id;
      assert annotated[k].id == id;
    }
  }

  class Store {
    var users: map<ObjectId, UserDoc>
    var cafes: map<ObjectId, Cafe>
    var reviews: map<ObjectId, ReviewDoc>

    constructor (users: map<ObjectId, UserDoc>, cafes: map<ObjectId, Cafe>, reviews: map<ObjectId, ReviewDoc>)
      ensures this.users == users && this.cafes == cafes && this.reviews == reviews
    {
      this.users := users;
      this.cafes := cafes;
      this.reviews := reviews;
    }

    /** POST /signup. `hash` is what the password hasher returned for the password;
        `newId` is the id the database assigns to the inserted record. */
    method Signup(signedIn: bool, rawUsername: string, rawEmail: string,
                  password: string, hash: Hash, newId: ObjectId)
      returns (resp: Response, session: Option<ObjectId>)
      requires newId !in users
      modifies this`users
      ensures signedIn ==> resp == Redirect(Home, None) && session == None && users == old(users)
      ensures !signedIn ==>
        var username := Text.Trim(rawUsername);
        var email := NormalizeEmail(rawEmail);
        var failure := SignupError(old(users), username, email, password);
        && (failure.Some? ==>
              && resp == Render(SignupForm(username, email), ErrorFlash(SignupRejected(failure.value)))
              && session == None && users == old(users))
        && (failure.None? ==>
              && users == old(users)[newId := NewUser(username, email, hash)]
              && session == Some(newId)
              && resp == Redirect(SelectRolePage, SuccessFlash(Welcome(username))))
      ensures old(Unique(users)) ==> Unique(users)
    {
      if signedIn {
        resp, session := Redirect(Home, None), None;
        return;
      }
      var username := Text.Trim(rawUsername);
      var email := NormalizeEmail(rawEmail);
      var failure := SignupError(users, username, email, password);
      if failure.Some? {
        resp, session := Render(SignupForm(username, email), ErrorFlash(SignupRejected(failure.value))), None;
        return;
      }
      if Unique(users) {
        SignupKeepsUnique(users, newId, username, email, password, hash);
      }
      users := users[newId := NewUser(username, email, hash)];
      session := Some(newId);
      resp := Redirect(SelectRolePage, SuccessFlash(Welcome(username)));
    }

    /** POST /select-role for the signed-in user `me`. */
    method SelectRole(me: ObjectId, roleField: Option<string>) returns (resp: Response)
      requires me in users
      modifies this`users
      ensures ParseRole(roleField).Some? ==>
        && users == old(users)[me := old(users)[me].(role := Present(ParseRole(roleField).value))]
        && resp == Redirect(Home, SuccessFlash(RoleSet(ParseRole(roleField).value)))
      ensures ParseRole(roleField).None? ==> users == old(users) && resp == Render(SelectRoleForm, None)
      ensures old(Unique(users)) ==> Unique(users)
    {
      var role := ParseRole(roleField);
      if role.Some? {
        var id := SessionObjectId(me);
        users := users[id := users[id].(role := Present(role.value))];
        resp := Redirect(Home, SuccessFlash(RoleSet(role.value)));
      } else {
        resp := Render(SelectRoleForm, None);
      }
    }

    /** POST /login. `passwordMatches` stands for the password-hash checker. The user is
        signed in before the welcome message reads `user_doc['username']`, so a record
        without that key signs the user in and then fails with a `KeyError`. */
    method Login(signedIn: bool, rawEmail: string, password: string,
                 next: Option<string>, passwordMatches: (Hash, string) -> bool)
      returns (resp: Response, session: Option<ObjectId>)
      ensures signedIn ==> resp == Redirect(Home, None) && session == None
      ensures !signedIn ==>
        var email := NormalizeEmail(rawEmail);
        && (session.None? ==> resp == Render(LoginForm(email), ErrorFlash(InvalidCredentials)))
        && (session.Some? ==>
              && session.value in users && users[session.value].email == email
              && passwordMatches(users[session.value].passwordHash, password)
              && (users[session.value].username.Absent? ==> resp == Fault)
              && (!users[session.value].username.Absent? ==>
                    resp == Redirect(NextTarget(next),
                                     SuccessFlash(WelcomeBack(Get(users[session.value].username, ""))))))
        && (!EmailTaken(users, email) ==> session.None?)
        && (EmailsUnique(users) ==> (session.Some? <==> CredentialsMatch(users, email, password, passwordMatches)))
    {
      if signedIn {
        resp, session := Redirect(Home, None), None;
        return;
      }
      var email := NormalizeEmail(rawEmail);
      var found: Option<ObjectId> := None;
      if EmailTaken(users, email) {
        var id :| id in users && users[id].email == email;
        found := Some(id);
      }
      if found.None? || !passwordMatches(users[found.value].passwordHash, password) {
        resp, session := Render(LoginForm(email), ErrorFlash(InvalidCredentials)), None;
        return;
      }
      session := found;
      var stored := users[found.value].username;
      if stored.Absent? {
        resp := Fault;
        return;
      }
      resp := Redirect(NextTarget(next), SuccessFlash(WelcomeBack(Get(stored, ""))));
    }

    /** `list(reviews_col.find({"cafe_id": cafeId}))`, in no particular order. */
    method FindReviews(cafeId: ObjectId) returns (found: seq<ReviewView>)
      ensures ListsReviewsOf(found, reviews, cafeId)
      ensures forall k :: 0 <= k < |found| ==> found[k].userIdStr == None
    {
      var pending := reviews.Keys;
      found := [];
      while pending != {}
        invariant pending <= reviews.Keys
        invariant forall k :: 0 <= k < |found| ==>
          found[k].id in reviews && found[k].id !in pending && found[k].review == reviews[found[k].id]
          && found[k].review.cafeId == cafeId && found[k].userIdStr == None
        invariant forall id :: id in reviews && id !in pending && reviews[id].cafeId == cafeId ==>
          exists k :: 0 <= k < |found| && found[k].id == id
        invariant forall k, l :: 0 <= k < l < |found| ==> found[k].id != found[l].id
        decreases pending
      {
        var id :| id in pending;
        if reviews[id].cafeId == cafeId {
          ghost var before := found;
          found := found + [ReviewView(id, reviews[id], None)];
          assert forall k :: 0 <= k < |before| ==> found[k] == before[k];
          assert found[|before|].id == id;
        }
        pending := pending - {id};
      }
    }

    /** `for r in reviews: r["user_id_str"] = str(r["user_id"])`: each review, in place in
        the fetched list, gets its author's id as a string; nothing else changes. */
    static method Annotate(found: seq<ReviewView>) returns (annotated: seq<ReviewView>)
      ensures |annotated| == |found|
      ensures forall k :: 0 <= k < |found| ==>
        annotated[k] == found[k].(userIdStr := Some(IdString(found[k].review.userId)))
    {
      var page := new ReviewView[|found|](i requires 0 <= i < |found| => found[i]);
      for i := 0 to page.Length
        invariant forall k :: 0 <= k < i ==>
          page[k] == found[k].(userIdStr := Some(IdString(found[k].review.userId)))
        invariant forall k :: i <= k < page.Length ==> page[k] == found[k]
      {
        page[i] := page[i].(userIdStr := Some(IdString(page[i].review.userId)));
      }
      annotated := page[..];
    }

    /** GET /cafe/<cafe_id> for the signed-in user `me`: the cafe and its reviews, each
        annotated with its author's id as a string, and the viewer's id as a string. */
    method CafeDetail(me: ObjectId, cafeIdStr: string) returns (resp: Response)
      ensures ParseObjectId(cafeIdStr).None? ==> resp == Redirect(Home, ErrorFlash(InvalidCafeLink))
      ensures ParseObjectId(cafeIdStr).Some? && ParseObjectId(cafeIdStr).value !in cafes ==>
        resp == Redirect(Home, ErrorFlash(CafeNotFound))
      ensures ParseObjectId(cafeIdStr).Some? && ParseObjectId(cafeIdStr).value in cafes ==>
        var cafeId := ParseObjectId(cafeIdStr).value;
        && resp.Render? && resp.flash == None && resp.view.CafePage?
        && resp.view.cafe == cafes[cafeId] && resp.view.currentUserId == IdString(me)
        && ListsReviewsOf(resp.view.reviews, reviews, cafeId)
        && forall k :: 0 <= k < |resp.view.reviews| ==>
             resp.view.reviews[k].userIdStr == Some(IdString(resp.view.reviews[k].review.userId))
    {
      var parsed := ParseObjectId(cafeIdStr);
      if parsed.None? {
        return Redirect(Home, ErrorFlash(InvalidCafeLink));
      }
      var cafeId := parsed.value;
      if cafeId !in cafes {
        return Redirect(Home, ErrorFlash(CafeNotFound));
      }
      var found := FindReviews(cafeId);
      var annotated := Annotate(found);
      AnnotatedListing(found, annotated, reviews, cafeId);
      resp := Render(CafePage(cafes[cafeId], annotated, IdString(me)), None);
    }

    /** POST /cafe/<cafe_id>/review by the signed-in user `me`; `newId` is the id the
        database assigns to the inserted review. */
    method AddReview(me: ObjectId, cafeIdStr: string, rawRating: string, rawText: string,
                     newId: ObjectId)
      returns (resp: Response)
      requires me in users && newId !in reviews
      modifies this`reviews
      ensures ParseObjectId(cafeIdStr).None? ==>
        resp == Redirect(Home, ErrorFlash(InvalidCafeLink)) && reviews == old(reviews)
      ensures ParseObjectId(cafeIdStr).Some? && ParseObjectId(cafeIdStr).value !in cafes ==>
        resp == Redirect(Home, ErrorFlash(CafeNotFound)) && reviews == old(reviews)
      ensures ParseObjectId(cafeIdStr).Some? && ParseObjectId(cafeIdStr).value in cafes ==>
        var check := CheckReview(rawRating, rawText);
        && (check.Refused? ==>
              && resp == Redirect(CafeDetailPage(cafeIdStr), ErrorFlash(ReviewRejected(check.failure, false)))
              && reviews == old(reviews))
        && (check.RatingRaises? ==> resp == Fault && reviews == old(reviews))
        && (check.Accepted? ==>
              && reviews == old(reviews)[newId := ReviewDoc(ParseObjectId(cafeIdStr).value, me, UserName(users[me]),
                                                            check.input.rating, check.input.text)]
              && resp == Redirect(CafeDetailPage(cafeIdStr), SuccessFlash(ReviewPosted)))
      ensures old(ReviewsWellFormed(reviews)) ==> ReviewsWellFormed(reviews)
    {
      var parsed := ParseObjectId(cafeIdStr);
      if parsed.None? {
        return Redirect(Home, ErrorFlash(InvalidCafeLink));
      }
      var cafeId := parsed.value;
      if cafeId !in cafes {
        return Redirect(Home, ErrorFlash(CafeNotFound));
      }
      var check := CheckReview(rawRating, rawText);
      if check.Refused? {
        return Redirect(CafeDetailPage(cafeIdStr), ErrorFlash(ReviewRejected(check.failure, false)));
      }
      if check.RatingRaises? {
        return Fault;
      }
      var author := SessionObjectId(me);
      var name := UserName(users[me]);
      var review := ReviewDoc(cafeId, author, name, check.input.rating, check.input.text);
      CheckedReviewWellFormed(rawRating, rawText, cafeId, author, name);
      if ReviewsWellFormed(reviews) {
        StoreKeepsWellFormed(reviews, newId, review);
      }
      reviews := reviews[newId := review];
      resp := Redirect(CafeDetailPage(cafeIdStr), SuccessFlash(ReviewPosted));
    }

    /** POST /review/<review_id>/delete by the signed-in user `me`. */
    method DeleteReview(me: ObjectId, reviewIdStr: string) returns (resp: Response)
      modifies this`reviews
      ensures ParseObjectId(reviewIdStr).None? ==>
        resp == Redirect(Home, ErrorFlash(InvalidReview)) && reviews == old(reviews)
      ensures ParseObjectId(reviewIdStr).Some? && ParseObjectId(reviewIdStr).value !in old(reviews) ==>
        resp == Redirect(Home, ErrorFlash(ReviewNotFound)) && reviews == old(reviews)
      ensures ParseObjectId(reviewIdStr).Some? && ParseObjectId(reviewIdStr).value in old(reviews) ==>
        var rid := ParseObjectId(reviewIdStr).value;
        var back := CafeDetailPage(IdString(old(reviews)[rid].cafeId));
        && (old(reviews)[rid].userId != me ==>
              resp == Redirect(back, ErrorFlash(NotYourReviewToDelete)) && reviews == old(reviews))
        && (old(reviews)[rid].userId == me ==>
              resp == Redirect(back, SuccessFlash(ReviewDeleted)) && reviews == old(reviews) - {rid})
    {
      var parsed := ParseObjectId(reviewIdStr);
      if parsed.None? {
        return Redirect(Home, ErrorFlash(InvalidReview));
      }
      var rid := parsed.value;
      if rid !in reviews {
        return Redirect(Home, ErrorFlash(ReviewNotFound));
      }
      var review := reviews[rid];
      var back := CafeDetailPage(IdString(review.cafeId));
      IsAuthorIff(review, me);
      if !IsAuthor(review, me) {
        return Redirect(back, ErrorFlash(NotYourReviewToDelete));
      }
      reviews := reviews - {rid};
      resp := Redirect(back, SuccessFlash(ReviewDeleted));
    }

    /** POST /review/<review_id>/edit by the signed-in user `me`: authorship is checked
        before the new rating and text are. */
    method EditReview(me: ObjectId, reviewIdStr: string, rawRating: string, rawText: string)
      returns (resp: Response)
      modifies this`reviews
      ensures ParseObjectId(reviewIdStr).None? ==>
        resp == Redirect(Home, ErrorFlash(InvalidReview)) && reviews == old(reviews)
      ensures ParseObjectId(reviewIdStr).Some? && ParseObjectId(reviewIdStr).value !in old(reviews) ==>
        resp == Redirect(Home, ErrorFlash(ReviewNotFound)) && reviews == old(reviews)
      ensures ParseObjectId(reviewIdStr).Some? && ParseObjectId(reviewIdStr).value in old(reviews) ==>
        var rid := ParseObjectId(reviewIdStr).value;
        var review := old(reviews)[rid];
        var back := CafeDetailPage(IdString(review.cafeId));
        var check := CheckReview(rawRating, rawText);
        && (review.userId != me ==>
              resp == Redirect(back, ErrorFlash(NotYourReviewToEdit)) && reviews == old(reviews))
        && (review.userId == me && check.Refused? ==>
              resp == Redirect(back, ErrorFlash(ReviewRejected(check.failure, true))) && reviews == old(reviews))
        && (review.userId == me && check.RatingRaises? ==> resp == Fault && reviews == old(reviews))
        && (review.userId == me && check.Accepted? ==>
              && reviews == old(reviews)[rid := review.(rating := check.input.rating, text := check.input.text)]
              && resp == Redirect(back, SuccessFlash(ReviewUpdated)))
      ensures old(ReviewsWellFormed(reviews)) ==> ReviewsWellFormed(reviews)
    {
      var parsed := ParseObjectId(reviewIdStr);
      if parsed.None? {
        return Redirect(Home, ErrorFlash(InvalidReview));
      }
      var rid := parsed.value;
      if rid !in reviews {
        return Redirect(Home, ErrorFlash(ReviewNotFound));
      }
      var review := reviews[rid];
      var back := CafeDetailPage(IdString(review.cafeId));
      IsAuthorIff(review, me);
      if !IsAuthor(review, me) {
        return Redirect(back, ErrorFlash(NotYourReviewToEdit));
      }
      var check := CheckReview(rawRating, rawText);
      if check.Refused? {
        return Redirect(back, ErrorFlash(ReviewRejected(check.failure, true)));
      }
      if check.RatingRaises? {
        return Fault;
      }
      var edited := review.(rating := check.input.rating, text := check.input.text);
      CheckedReviewWellFormed(rawRating, rawText, review.cafeId, review.userId, review.username);
      if ReviewsWellFormed(reviews) {
        StoreKeepsWellFormed(reviews, rid, edited);
      }
      reviews := reviews[rid := edited];
      resp := Redirect(back, SuccessFlash(ReviewUpdated));
    }

    /** POST /profile for the signed-in user `me`. */
    method UpdateProfile(me: ObjectId, usernameField: Option<string>, phoneField: Option<string>,
                         shopLocationField: Option<string>, operationHoursField: Option<string>)
      returns (resp: Response)
      requires me in users
      modifies this`users
      ensures users == old(users)[me := ProfileUpdate(old(users)[me], usernameField, phoneField,
                                                      shopLocationField, operationHoursField)]
      ensures resp == Redirect(SettingsPage, SuccessFlash(ProfileUpdated))
    {
      var id := SessionObjectId(me);
      users := users[id := ProfileUpdate(users[me], usernameField, phoneField, shopLocationField, operationHoursField)];
      resp := Redirect(SettingsPage, SuccessFlash(ProfileUpdated));
    }
  }
}
