/** What a handler answers with: a page to render or a redirect, each with the
    one-shot status message it flashes. */
module Responses {
  import opened Options
  import opened Documents
  import opened Validation

  datatype Category = Error | Success | Info

  datatype Message =
    | PleaseLogIn
    | SignupRejected(signupFailure: SignupFailure)
    | Welcome(username: string)
    | RoleSet(role: Role)
    | InvalidCredentials
    | WelcomeBack(storedName: Option<string>)
    | InvalidCafeLink
    | CafeNotFound
    | ReviewRejected(reviewFailure: ReviewFailure, onEdit: bool)
    | ReviewPosted
    | InvalidReview
    | ReviewNotFound
    | NotYourReviewToDelete
    | NotYourReviewToEdit
    | ReviewDeleted
    | ReviewUpdated
    | ProfileUpdated

  datatype Flash = Flash(message: Message, category: Category)

  datatype Page =
    | Home
    | LoginPage(next: string)
    | SelectRolePage
    | CafeDetailPage(cafeId: string)
    | SettingsPage
    | Url(target: string)

  datatype View =
    | SignupForm(username: string, email: string)
    | SelectRoleForm
    | LoginForm(email: string)
    | CafePage(cafe: Cafe, reviews: seq<ReviewView>, currentUserId: string)

  /** `Fault` is an exception that escapes the handler: the framework answers with a
      server error and no flash is set. */
  datatype Response =
    | Redirect(to: Page, flash: Option<Flash>)
    | Render(view: View, flash: Option<Flash>)
    | Fault

  function ErrorFlash(m: Message): Option<Flash> {
    Some(Flash(m, Error))
  }

  function SuccessFlash(m: Message): Option<Flash> {
    Some(Flash(m, Success))
  }

  /** `next_page or url_for("home")`: a missing or empty `next` means home. */
  function NextTarget(next: Option<string>): Page {
    if next.Some? && next.value != "" then Url(next.value) else Home
  }

  /** The text each message is flashed with; none is blank. */
  function MessageText(m: Message): (r: string)
    ensures r != []
  {
    match m
    case PleaseLogIn => "Please log in to access that page."
    case SignupRejected(UsernameMissing) => "Username is required."
    case SignupRejected(EmailMissing) => "Email is required."
    case SignupRejected(PasswordMissing) => "Password is required."
    case SignupRejected(PasswordTooShort) => "Password must be at least 6 characters."
    case SignupRejected(EmailInUse) => "An account with that email already exists."
    case SignupRejected(UsernameInUse) => "That username is already taken."
    case Welcome(name) => "Welcome to Sips, " + name + "!"
    case RoleSet(Customer) => "Account set up as Customer!"
    case RoleSet(Owner) => "Account set up as Owner!"
    case InvalidCredentials => "Invalid email or password."
    case WelcomeBack(Some(name)) => "Welcome back, " + name + "!"
    case WelcomeBack(None) => "Welcome back, None!"
    case InvalidCafeLink => "Invalid cafe link."
    case CafeNotFound => "Cafe not found."
    case ReviewRejected(RatingNotANumber, false) => "Rating must be a number from 1 to 5."
    case ReviewRejected(RatingNotANumber, true) => "Rating must be a number 1\U{00E2}\U{20AC}\U{201C}5."
    case ReviewRejected(RatingOutOfRange, _) => "Rating must be between 1 and 5."
    case ReviewRejected(TextEmpty, _) => "Review text cannot be empty."
    case ReviewPosted => "Review posted!"
    case InvalidReview => "Invalid review."
    case ReviewNotFound => "Review not found."
    case NotYourReviewToDelete => "You can only delete your own review."
    case NotYourReviewToEdit => "You can only edit your own review."
    case ReviewDeleted => "Review deleted."
    case ReviewUpdated => "Review updated."
    case ProfileUpdated => "Profile updated successfully!"
  }

  /** The messages a handler flashes when it refuses a request. */
  predicate IsRefusal(m: Message) {
    || m.SignupRejected? || m == InvalidCredentials || m == InvalidCafeLink || m == CafeNotFound
    || m.ReviewRejected? || m == InvalidReview || m == ReviewNotFound
    || m == NotYourReviewToDelete || m == NotYourReviewToEdit
  }

  /** `a` and `b` are the same refusal, up to whether an out-of-range or empty-text
      rejection came from posting or from editing a review. */
  predicate SameRefusal(a: Message, b: Message) {
    || a == b
    || (a.ReviewRejected? && b.ReviewRejected? && a.reviewFailure == b.reviewFailure
        && a.reviewFailure != RatingNotANumber)
  }

  // The refusals split into small groups, each compared with every refusal in a
  // proof of its own: comparing the long texts is costly for the solver.

  lemma MissingFieldTextDistinct(a: Message, b: Message)
    requires a == SignupRejected(UsernameMissing) || a == SignupRejected(EmailMissing) || a == SignupRejected(PasswordMissing)
    requires IsRefusal(b) && MessageText(a) == MessageText(b)
    ensures SameRefusal(a, b)
  { }

  lemma PasswordTooShortTextDistinct(a: Message, b: Message)
    requires a == SignupRejected(PasswordTooShort)
    requires IsRefusal(b) && MessageText(a) == MessageText(b)
    ensures SameRefusal(a, b)
  { }

  lemma EmailInUseTextDistinct(a: Message, b: Message)
    requires a == SignupRejected(EmailInUse)
    requires IsRefusal(b) && MessageText(a) == MessageText(b)
    ensures SameRefusal(a, b)
  { }

  lemma UsernameInUseTextDistinct(a: Message, b: Message)
    requires a == SignupRejected(UsernameInUse)
    requires IsRefusal(b) && MessageText(a) == MessageText(b)
    ensures SameRefusal(a, b)
  { }

  lemma LookupTextDistinct(a: Message, b: Message)
    requires a == InvalidCredentials || a == InvalidCafeLink || a == CafeNotFound || a == InvalidReview || a == ReviewNotFound
    requires IsRefusal(b) && MessageText(a) == MessageText(b)
    ensures SameRefusal(a, b)
  { }

  lemma NotYourReviewToDeleteTextDistinct(a: Message, b: Message)
    requires a == NotYourReviewToDelete
    requires IsRefusal(b) && MessageText(a) == MessageText(b)
    ensures SameRefusal(a, b)
  { }

  lemma NotYourReviewToEditTextDistinct(a: Message, b: Message)
    requires a == NotYourReviewToEdit
    requires IsRefusal(b) && MessageText(a) == MessageText(b)
    ensures SameRefusal(a, b)
  { }

  lemma RatingNotANumberTextDistinct(a: Message, b: Message)
    requires a.ReviewRejected? && a.reviewFailure == RatingNotANumber
    requires IsRefusal(b) && MessageText(a) == MessageText(b)
    ensures SameRefusal(a, b)
  { }

  lemma RatingOutOfRangeTextDistinct(a: Message, b: Message)
    requires a.ReviewRejected? && a.reviewFailure == RatingOutOfRange
    requires IsRefusal(b) && MessageText(a) == MessageText(b)
    ensures SameRefusal(a, b)
  { }

  lemma TextEmptyTextDistinct(a: Message, b: Message)
    requires a.ReviewRejected? && a.reviewFailure == TextEmpty
    requires IsRefusal(b) && MessageText(a) == MessageText(b)
    ensures SameRefusal(a, b)
  { }

  /** Each refusal has its own text: two refusals read alike only when they are the
      same message, or the same out-of-range or empty-text rejection of a review,
      which posting and editing word identically. Both login failure causes share
      the one message InvalidCredentials. */
  lemma RefusalTextsDistinct(a: Message, b: Message)
    requires IsRefusal(a) && IsRefusal(b)
    ensures MessageText(a) == MessageText(b) <==> SameRefusal(a, b)
  {
    if MessageText(a) != MessageText(b) {
    } else if a.SignupRejected? {
      match a.signupFailure
      case UsernameMissing | EmailMissing | PasswordMissing => MissingFieldTextDistinct(a, b);
      case PasswordTooShort => PasswordTooShortTextDistinct(a, b);
      case EmailInUse => EmailInUseTextDistinct(a, b);
      case UsernameInUse => UsernameInUseTextDistinct(a, b);
    } else if a.ReviewRejected? {
      match a.reviewFailure
      case RatingNotANumber => RatingNotANumberTextDistinct(a, b);
      case RatingOutOfRange => RatingOutOfRangeTextDistinct(a, b);
      case TextEmpty => TextEmptyTextDistinct(a, b);
    } else if a == NotYourReviewToDelete {
      NotYourReviewToDeleteTextDistinct(a, b);
    } else if a == NotYourReviewToEdit {
      NotYourReviewToEditTextDistinct(a, b);
    } else {
      LookupTextDistinct(a, b);
    }
  }
}
