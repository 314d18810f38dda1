/** The access decision of src/components/ProtectedRoute.tsx. */
module ProtectedRoute {
  import opened JsText

  /** What the guard renders. */
  datatype Outcome = Children | RedirectHome | Loading

  /** `PRIVY_APP_ID && PRIVY_APP_ID.trim() !== ''` (the empty string is falsy and
      trims to itself). */
  predicate HasPrivy(privyAppId: string)
  {
    Trim(privyAppId) != ""
  }

  /** The chain of early returns: a demo session always gets through; without a
      Privy app id the user goes to "/"; an unready Privy shows the loading
      screen; an unauthenticated user goes to "/". */
  function Decide(demoAuthenticated: bool, privyAppId: string, ready: bool, authenticated: bool): (r: Outcome)
    ensures r == Children <==> demoAuthenticated || (HasPrivy(privyAppId) && ready && authenticated)
    ensures r == Loading <==> !demoAuthenticated && HasPrivy(privyAppId) && !ready
    ensures r == RedirectHome <==> !demoAuthenticated && (!HasPrivy(privyAppId) || (ready && !authenticated))
  {
    if demoAuthenticated then Children
    else if !HasPrivy(privyAppId) then RedirectHome
    else if !ready then Loading
    else if !authenticated then RedirectHome
    else Children
  }
}
