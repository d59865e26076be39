# AstroWellness Hub: accounts, sessions and page routing in Dafny

This project models the account logic of the `AstroWellnessHub` browser application in
`app.js`. The model covers:

- the four input validators: password, email format, phone format and password strength;
- the signup-form validator, which builds a map from field to message;
- the signup, login, profile-update and logout handlers;
- the restore of a stored session when the application starts;
- the routing decision `showPage` makes.

Everything is written as pure functions over an explicit application state. The properties
the application relies on are proved about those functions.

Modules, one per concern:

| module | file | what it models |
|---|---|---|
| `Optional` | optional.dfy | `undefined` / `null` as `None` |
| `Seqs` | seqs.dfy | `Array.prototype.find` / `findIndex` as `FindFirst` |
| `Text` | text.dfy | the ECMAScript white-space class, `trim()`, `replace(/\s/g, '')`, `.length` in UTF-16 units |
| `EmailFormat` | email.dfy | `/^[^\s@]+@[^\s@]+\.[^\s@]+$/` as a scanner proved equal to a shape predicate |
| `PhoneFormat` | phone.dfy | `/^[+]?[1-9]\d{1,14}$/` after white space is deleted, likewise |
| `PasswordRules` | password.dfy | `validatePassword` and the strength indicator |
| `SignupForm` | signup_form.dfy | `validateSignupForm`, and the copy of the form entries into an object |
| `Router` | router.dfy | the page `showPage` makes current |
| `Auth` | auth.dfy | the state machine of the account and session handlers |

## Modelling decisions

**State.** The browser code keeps `currentUser` as a reference to one of the objects in
`authData.users`, and the profile update edits that object in place. `Auth.AppState`
therefore holds:

- a heap of user objects;
- the user list as references into that heap;
- the current user as a reference;
- the session record;
- the current page.

`Auth.StoredUsers` is the list as `JSON.stringify` writes it. Each handler writes the list
to storage after it changes it, so one list stands for both the in-memory copy and the
stored copy.

**Delays.** The handlers' `setTimeout` callbacks run at once. A handler is one transition
from the state before the submit to the state after its last callback.

**Environment values.** `Date.now()` and `new Date().toISOString()` are parameters (`id`,
`joinDate`, `loginTime`). The set of page elements present in the document is the
parameter `known`.

**White space.** It is the ECMAScript class that both `\s` and `trim()` use: TAB, LF, VT,
FF, CR, SPACE, U+00A0, U+1680, U+2000-U+200A, U+2028, U+2029, U+202F, U+205F, U+3000 and
U+FEFF.

**Length.** `.length` counts UTF-16 code units, so a character above U+FFFF counts twice
(`Text.Utf16Length`).

**Regular expressions.** Each regex is a small scanner over the string. Its scanning loop
is proved to keep an invariant (`RunSound`). The accepting state is proved to be reached
exactly for strings of the stated shape.

**Signup validation.** The model follows the source's check order. Later checks overwrite
earlier messages for the same field, and `isValid` is cleared by every check that records
a message. The form map `Auth.Signup` takes is the object `handleSignup` builds from the
submitted entries, that is `SignupForm.FromEntries` of them (app.js:306-312).

## Model

| member | source | states |
|---|---|---|
| Seqs.FindFirst | app.js:266 | Returns the first index whose element satisfies the predicate, or None exactly when no element does (`Array.prototype.find`/`findIndex`, also at app.js:60, 326 and 395). |
| Text.Trim | app.js:248 | `trim()`, applied to the login email and, at app.js:383-385, to the profile fields. The result is a contiguous piece of the input with only white space removed before and after it. The result does not start or end with white space. |
| Text.TrimEmptyIff | app.js:418 | `value.trim() === ''` holds exactly when the value consists only of white space. |
| Text.TrimIdempotent | app.js:248 | Trimming an already trimmed value changes nothing. |
| Text.TrimNoSpace | app.js:248 | A value without white space is its own trim. |
| Text.StripSpaces | app.js:487 | `replace(/\s/g, '')` leaves no white space and never lengthens the value. It returns a value that had none unchanged. |
| Text.StripSpacesAppend | app.js:487 | Deleting white space from a concatenation is the concatenation of the deletions. |
| Text.Utf16Length | app.js:461 | `.length` lies between the number of characters and twice that. It equals the number of characters when none is above U+FFFF. |
| EmailFormat.ValidateEmailFormat | app.js:480-483 | True exactly when the address has the following shape. Some `@` splits it into a non-empty local part and a domain. Neither part contains white space or `@`. The domain has a `.` with at least one character on each side. |
| EmailFormat.RunSound | app.js:481-482 | After every prefix, the scanner's state describes that prefix: still possible, already ruled out, or a complete match. |
| EmailFormat.NotCompleteRejects | app.js:481-482 | A scan that does not end in the accepting state means the address does not have the shape. |
| EmailFormat.AcceptedHasOneAt | app.js:481 | An accepted address contains exactly one `@`, with white-space-free parts around it. |
| EmailFormat.AcceptedHasNoSpace | app.js:481 | An accepted address is non-empty and has no white space. |
| PhoneFormat.ValidatePhoneFormat | app.js:485-488 | True exactly when the number matches this shape after white space is deleted: an optional `+`, then 2 to 15 digits whose first digit is 1-9. |
| PhoneFormat.RunSound | app.js:486-487 | After every prefix, the digit scanner's state describes that prefix: sign seen, digits counted up to 15, or ruled out. |
| PhoneFormat.AcceptSound | app.js:486 | Ending the scan with at least two digits means the number has the shape. |
| PhoneFormat.SpaceIgnored | app.js:487 | Inserting a white-space character anywhere in a number never changes the verdict. |
| PhoneFormat.AcceptedLength | app.js:486 | An accepted number has 2 to 16 characters once white space is deleted. |
| PasswordRules.ValidatePassword | app.js:460-478 | Valid exactly when the password has at least 8 UTF-16 units, an uppercase letter, a lowercase letter and a digit. A valid password carries "Strong password". An invalid one carries the message of the first rule it fails, in source order. |
| PasswordRules.ComplaintNamesRule | app.js:461-475 | The message of a rejected password names a rule the password fails, and no other rule has that message. |
| PasswordRules.ValidMeansRules | app.js:460-478 | The validity flag is exactly the conjunction of the four rules. |
| PasswordRules.PasswordStrength | app.js:490-512 | The indicator shows nothing exactly for an empty password. It shows weak exactly for a non-empty invalid one. It shows very strong exactly for a valid one of at least 12 units containing one of ``!@#$%^&*(),.?":{}\|<>``. It shows strong otherwise. |
| PasswordRules.Caption | app.js:494-511 | The indicator text is empty exactly for the blank label, and the strong label shows the same text `validatePassword` returns for a valid password. |
| SignupForm.CheckRequired | app.js:414-422 | The required-field loop adds "This field is required." for exactly the listed fields that are blank. It keeps earlier entries and clears the flag exactly when it adds one. |
| SignupForm.ValidateSignupForm | app.js:410-458 | `isValid` holds exactly when the error map is empty. It also holds exactly when the form is acceptable: all required fields non-blank, a well-formed email, a valid password equal to the confirmation, a well-formed phone if one is given, and the terms box ticked. Every field's message is the one from the last check that objects to it. |
| SignupForm.AcceptableIffNoErrors | app.js:410-458 | A form is acceptable exactly when no check objects to any field. |
| SignupForm.RequiredFieldsFlagged | app.js:414-422 | Each of the eight required fields that is missing or blank after trimming gets an entry. |
| SignupForm.NameFieldErrors | app.js:417-420 | Names, organization, user type and experience have an entry exactly when blank, and it says the field is required. |
| SignupForm.EmailError | app.js:417-428 | The email entry is present exactly when the email is missing or malformed. It reads "Please enter a valid email address." for a malformed non-empty email. Otherwise it reads "This field is required.". |
| SignupForm.PhoneError | app.js:430-434 | The phone entry is present exactly when a non-empty phone is malformed. |
| SignupForm.PasswordError | app.js:417-443 | The password entry is present exactly when the password is missing, empty or invalid. For a non-empty password it is `validatePassword`'s message. Otherwise it is the required message. |
| SignupForm.ConfirmError | app.js:417-449 | The confirmation entry is present exactly when the confirmation is blank or differs from the password. A difference gives "Passwords do not match.", which overrides the required message. |
| SignupForm.TermsError | app.js:451-455 | The `terms` entry is present exactly when `termsAccepted` is missing or empty. |
| SignupForm.FromEntries | app.js:307-312 | Every submitted name becomes a key, and a name submitted twice keeps its last value. |
| SignupForm.PutLast | app.js:310-312 | Assigning one more entry keeps both properties of the copy. |
| Router.ShowPage | app.js:715-746 | The result is a page that exists or the page that was current. A protected page is never made current while signed out. A page that exists and is allowed is shown. A missing page falls back to home. A signed-out request for `profile` shows login, or home when login is missing. When neither the page to show nor home exists, the page stays. |
| Router.ShowPageStaysKnown | app.js:730-745 | With home and login present, the current page always names a page that exists. |
| Router.ShowPageIdempotent | app.js:715-746 | Asking again for the same page changes nothing. |
| Router.ProfileNeedsUser | app.js:719-723 | Signed out, asking for `profile` shows the login page. |
| Auth.FindEmail | app.js:266 | Returns the first stored user whose email is exactly the given string, or None exactly when none has it (the same lookup signup makes at app.js:326). |
| Auth.Login | app.js:245-302 | A blank trimmed email or an empty password is refused. An email no stored user has is refused as unknown. If the first user with that email has a different password, the login is refused as a wrong password. All refusals leave the state unchanged. Success makes that user current, records a session with its id, time and remember-me flag, and shows the dashboard. |
| Auth.Register | app.js:352-364 | Appends one new user object to the heap and a reference to it to the list, so every existing slot keeps its object. That object becomes the current user, with the given session. |
| Auth.Signup | app.js:304-376 | An unacceptable form is refused with the validator's non-empty error map. An acceptable form whose email some stored user already has is refused as taken. Both refusals change nothing. Otherwise one new user object is added and a reference to it is appended to the list. Existing slots keep their objects. The new object becomes current, with a session that does not remember, and the dashboard is shown. |
| Auth.UpdateProfile | app.js:378-408 | Without a current user nothing changes. Otherwise only the current user's object changes: names and phone are trimmed, the specialization is kept as typed. Stored entries with a different id are untouched. The session and page stay the same. |
| Auth.Logout | app.js:702-713 | Nobody is signed in and no session remains. The stored list is unchanged, and home is shown when it exists. |
| Auth.Startup | app.js:3-68 | The stored list is loaded unchanged, each entry as its own object, and home is shown. A session whose id matches a stored user makes the first such slot's object current. A session whose id matches no user is cleared. The result is consistent. |
| Auth.LoginKeepsConsistent | app.js:281-290 | Login keeps the invariant that a user is signed in exactly when a session exists and that the session names a stored user's id. |
| Auth.SignupKeepsConsistent | app.js:354-365 | Signup keeps that invariant. |
| Auth.UpdateProfileKeepsConsistent | app.js:389-399 | The profile update keeps that invariant. |
| Auth.LogoutKeepsConsistent | app.js:702-705 | Logout establishes that invariant. |
| Auth.LogoutIdempotent | app.js:702-713 | Logging out twice is logging out once. |
| Auth.UpdateProfileEditsOwnEntry | app.js:389-399 | When ids are unique, the stored list after a profile update is the old list with the current user's entry replaced by the edited object. |
| Auth.UpdateProfileWrites | app.js:389-397 | For every state, ids repeated or not: the current user's object is edited in place, and the first slot whose user has its id is pointed at it (every other reference is kept). A stored slot therefore shows the edited object when it refers to the current user's object or is the first slot whose user has the current user's id. Every other slot is unchanged. |
| Auth.SignupKeepsUniqueEmails | app.js:325-352 | If no two stored accounts share an email, the same holds after a signup, because an account is stored only when its email is new. |
| Auth.UpdateProfileKeepsUniqueEmails | app.js:389-397 | With unique ids, a profile update keeps stored emails unique: it edits one entry and never its email. |
| Auth.ReloadRestoresSession | app.js:57-65 | When ids are unique, starting from what a consistent state stored gives back the same list, session and current user. |
| Auth.SignedUpUserCanLogIn | app.js:265-290 | For an accepted form whose address no stored account has (exactly the signups that succeed), after the signup and a logout, logging in with that address and password succeeds as the new account. |
| Auth.SecondSignupRejected | app.js:326-330 | For an accepted form whose address no stored account has, submitting the same form again after the signup is refused as an existing email and changes nothing. The account is stored once. |
| Auth.WrongPasswordAfterSignup | app.js:274-278 | For an accepted form whose address no stored account has, after the signup and a logout, that address with any other non-empty password is refused as a wrong password, and nobody is signed in. |
| Auth.SharedIdOverwritesFirst | app.js:395-399 | With two stored accounts sharing an id, editing the second account's profile writes it over the first one's slot. The first account is then gone from the list, and the list holds one email twice. |

## Left out

- Everything that touches the document is left out. This covers reading input elements, message and error display, loading indicators, CSS classes, `updateAuthUI`, `updateNavigation`, `updateProfileDisplay`, `toggleProfileEdit` and the live password-match check. The handlers take the field values as parameters.
- `setTimeout` delays are not modelled: each handler's callbacks run at once. A second event that arrives during a delay is not modelled.
- `localStorage` and JSON are represented by the stored list and session in the state. Malformed stored JSON makes `JSON.parse` throw in the constructor; the source does not recover from this, and it is not modelled.
- A page reload gives every stored account a fresh object (`Auth.Startup` gives each its own reference). Aliasing that existed before the reload is not carried over, as in the source.
- After `showPage` finds neither the requested page nor home, every page element has lost its `active` class. Only `currentPage` is modelled, and it keeps its value.
- The `showPage` steps after the choice of page are not modelled: `updateNavigation`, `initializePageSpecific`, scrolling, `history.pushState` and logging.
- Charts, the bone-density projection, the dashboard figures, animations, the back-to-top button and the mobile menu are outside the account core.
- `checkPasswordStrength` returns early when the indicator element is missing. `PasswordRules.Caption` gives the indicator text; its CSS class names are not modelled.
- Login's `rememberMe` flag is stored in the session and has no other effect, in the source as in the model.
- Strings are sequences of Unicode scalar values. Unpaired UTF-16 surrogates cannot be expressed. The regexes and `trim()` work on code units in the source, and for the character classes used here the verdicts coincide.
- Emails are matched by exact, case-sensitive equality, as in the source. No normalisation is modelled.
- Passwords are stored and compared in clear text, as in the source.
- Text.Utf16Length: the contract gives only the bounds and the case with no character above U+FFFF. The exact count comes from its definition: one unit per character, plus one for each character above U+FFFF.
- Auth.UpdateProfile: the contract states a frame, not the whole new list. The new heap, the new references and the whole list, for every state and whether ids repeat or not, are stated by the lemma `Auth.UpdateProfileWrites`. Its unique-id special case is `Auth.UpdateProfileEditsOwnEntry`. Keeping the function's own contract small keeps its proof cheap.
