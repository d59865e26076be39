/**
 * The decision `showPage` makes: which page becomes current, given the page asked for,
 * whether a user is signed in, and which page elements exist.
 */
module Router {

  /** Pages that need a signed-in user. */
  const ProtectedPages: set<string> := {"profile"}

  const Home := "home"
  const Login := "login"

  /**
   * `showPage(pageId)`: a protected page asked for with nobody signed in is replaced by the
   * login page; a page with no element falls back to home; when home has no element either,
   * the current page stays.
   */
  function ShowPage(current: string, signedIn: bool, pageId: string, known: set<string>): (r: string)
    ensures r in known || r == current
    ensures !signedIn && r in ProtectedPages ==> r == current
    ensures pageId in known && (signedIn || pageId !in ProtectedPages) ==> r == pageId
    ensures pageId !in known && Home in known && (signedIn || pageId !in ProtectedPages) ==> r == Home
    ensures pageId in ProtectedPages && !signedIn && Login in known ==> r == Login
    ensures pageId !in known && Home !in known && (signedIn || pageId !in ProtectedPages) ==> r == current
    ensures pageId in ProtectedPages && !signedIn && Login !in known ==> r == (if Home in known then Home else current)
    decreases if pageId in ProtectedPages then 1 else 0
  {
    if pageId in ProtectedPages && !signedIn then
      ShowPage(current, signedIn, Login, known)
    else if pageId in known then
      pageId
    else if Home in known then
      Home
    else
      current
  }

  /** With home and login pages present, the current page always names a page that exists. */
  lemma ShowPageStaysKnown(current: string, signedIn: bool, pageId: string, known: set<string>)
    requires Home in known && Login in known
    ensures ShowPage(current, signedIn, pageId, known) in known
  {
  }

  /** Asking for the same page again changes nothing. */
  lemma ShowPageIdempotent(current: string, signedIn: bool, pageId: string, known: set<string>)
    ensures var p := ShowPage(current, signedIn, pageId, known);
      ShowPage(p, signedIn, pageId, known) == p
  {
  }

  /** Signed out, the profile page is never reached from another page: login is shown instead. */
  lemma ProfileNeedsUser(current: string, known: set<string>)
    requires Login in known
    ensures ShowPage(current, false, "profile", known) == Login
  {
  }
}
