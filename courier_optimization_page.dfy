/** frontend/src/pages/CourierOptimizationPage.tsx: the courier's list of
    planned routes, the selected route, and the confirmation dialog that
    activates or deactivates a route. Each handler's success path gives the
    next page state; the requests themselves are parameters. */
module CourierOptimizationPage {
  import opened Common
  import AccountModels
  import LogisticsViews

  /** A route as the page holds it. */
  datatype RouteView = RouteView(id: int, isActive: bool, totalDistance: real, totalTime: real, totalProfit: real, stopCount: nat)

  datatype DialogKind = ActivateKind | DeactivateKind

  /** `confirmDialog`. */
  datatype ConfirmDialog = ConfirmDialog(open: bool, kind: DialogKind, route: Option<RouteView>)

  datatype PageState = PageState(
    tab: nat,
    routes: seq<RouteView>,
    selected: Option<RouteView>,
    success: Option<string>,
    dialog: ConfirmDialog)

  const InitialState: PageState := PageState(0, [], None, None, ConfirmDialog(false, ActivateKind, None))

  /** The page is shown only with a non-empty token to a courier. */
  predicate PageOpen(token: Option<string>, user: Option<AccountModels.User>)
  {
    token.Some? && token.value != "" && user.Some? && AccountModels.RoleValue(user.value.role) == "COURIER"
  }

  /** Exactly the couriers of the backend get the page. */
  lemma PageOpenIffCourier(token: string, u: AccountModels.User)
    requires token != ""
    ensures PageOpen(Some(token), Some(u)) <==> AccountModels.IsCourier(u)
    ensures !PageOpen(None, Some(u)) && !PageOpen(Some(token), None)
  {
    AccountModels.IsCourierIffCourierRole(u);
  }

  /** `calculateRoute` on success: the new route goes first, is selected,
      and the list tab opens. */
  function AfterCalculate(p: PageState, newRoute: RouteView): PageState
  {
    p.(routes := [newRoute] + p.routes, selected := Some(newRoute), tab := 1,
       success := Some("Route calculée avec succès ! Cliquez sur \"Activer\" pour démarrer."))
  }

  /** `routes.map(r => r.id === id ? updated : r)`. */
  function ReplaceById(routes: seq<RouteView>, id: int, updated: RouteView): (r: seq<RouteView>)
    ensures |r| == |routes|
    ensures forall k :: 0 <= k < |routes| ==> r[k] == if routes[k].id == id then updated else routes[k]
  {
    Map(routes, (x: RouteView) => if x.id == id then updated else x)
  }

  function RouteId(r: RouteView): int { r.id }

  /** Replacing a route by one with the same id keeps the list's ids, and
      doing it twice is doing it once. */
  lemma ReplaceKeepsIds(routes: seq<RouteView>, updated: RouteView)
    ensures Map(ReplaceById(routes, updated.id, updated), RouteId) == Map(routes, RouteId)
    ensures ReplaceById(ReplaceById(routes, updated.id, updated), updated.id, updated) == ReplaceById(routes, updated.id, updated)
    ensures updated.id in Map(routes, RouteId) ==> updated in ReplaceById(routes, updated.id, updated)
  {
    var r := ReplaceById(routes, updated.id, updated);
    if updated.id in Map(routes, RouteId) {
      var k :| 0 <= k < |routes| && Map(routes, RouteId)[k] == updated.id;
      assert r[k] == updated;
    }
  }

  const ClosedActivate: ConfirmDialog := ConfirmDialog(false, ActivateKind, None)
  const ClosedDeactivate: ConfirmDialog := ConfirmDialog(false, DeactivateKind, None)

  /** `activateRoute` on success: the route answered replaces the one with
      the same id, is selected, and the dialog closes. */
  function AfterActivate(p: PageState, route: RouteView, updated: RouteView): PageState
  {
    p.(routes := ReplaceById(p.routes, route.id, updated), selected := Some(updated),
       dialog := ClosedActivate, success := Some("Route #" + IntText(route.id) + " activée! Les clients ont été notifiés."))
  }

  /** The body of the deactivation answer: with a `route` field, or the
      route itself. */
  datatype DeactivateBody = WithRoute(route: RouteView) | Bare(asRoute: RouteView)

  /** `response.data.route || response.data`. */
  function DeactivatedRoute(body: DeactivateBody): RouteView
  {
    match body
    case WithRoute(r) => r
    case Bare(r) => r
  }

  /** `deactivateRoute` on success: the route is replaced, nothing is
      selected, and the dialog closes. */
  function AfterDeactivate(p: PageState, route: RouteView, body: DeactivateBody): PageState
  {
    p.(routes := ReplaceById(p.routes, route.id, DeactivatedRoute(body)), selected := None,
       dialog := ClosedDeactivate, success := Some("Route #" + IntText(route.id) + " désactivée."))
  }

  /** The decimal text of an id, as a template literal writes it. */
  function IntText(n: int): string
    decreases if n < 0 then 1 - n else n
  {
    if n < 0 then "-" + IntText(-n)
    else if n < 10 then [Digit(n)]
    else IntText(n / 10) + [Digit(n % 10)]
  }

  function Digit(d: int): char
    requires 0 <= d < 10
  {
    "0123456789"[d]
  }

  /** The button on a route card: "Activer" on an inactive route,
      "Désactiver" on an active one; it opens the dialog of that kind. */
  function ButtonLabel(r: RouteView): string
  {
    if !r.isActive then "Activer" else "Désactiver"
  }

  function OpenConfirm(p: PageState, r: RouteView): PageState
  {
    p.(dialog := ConfirmDialog(true, if !r.isActive then ActivateKind else DeactivateKind, Some(r)))
  }

  /** "Annuler" or closing the dialog: only `open` changes. */
  function CancelConfirm(p: PageState): PageState
  {
    p.(dialog := p.dialog.(open := false))
  }

  datatype Action = NoAction | CallActivate(route: RouteView) | CallDeactivate(route: RouteView)

  /** The dialog's confirm button: nothing without a route. */
  function ConfirmAction(d: ConfirmDialog): Action
  {
    if d.route.None? then NoAction
    else if d.kind == ActivateKind then CallActivate(d.route.value)
    else CallDeactivate(d.route.value)
  }

  /** A card's button leads, through the dialog, to the request its label
      names; cancelling changes nothing else; once a request has succeeded
      the dialog holds no route, so confirming again does nothing. */
  lemma ConfirmFlow(p: PageState, r: RouteView, updated: RouteView, body: DeactivateBody)
    ensures ConfirmAction(OpenConfirm(p, r).dialog) == if ButtonLabel(r) == "Activer" then CallActivate(r) else CallDeactivate(r)
    ensures CancelConfirm(OpenConfirm(p, r)).routes == p.routes && !CancelConfirm(OpenConfirm(p, r)).dialog.open
    ensures ConfirmAction(AfterActivate(OpenConfirm(p, r), r, updated).dialog) == NoAction
    ensures ConfirmAction(AfterDeactivate(OpenConfirm(p, r), r, body).dialog) == NoAction
  {
  }

  /** A freshly calculated route can be activated from the list: activating
      it replaces the first entry only when no older route shares its id. */
  lemma {:induction false} CalculateThenActivate(p: PageState, newRoute: RouteView, updated: RouteView)
    requires forall k :: 0 <= k < |p.routes| ==> p.routes[k].id != newRoute.id
    ensures AfterActivate(AfterCalculate(p, newRoute), newRoute, updated).routes == [updated] + p.routes
    ensures AfterActivate(AfterCalculate(p, newRoute), newRoute, updated).selected == Some(updated)
  {
    var r := ReplaceById([newRoute] + p.routes, newRoute.id, updated);
    assert r == [updated] + p.routes by {
      forall k | 0 <= k < |r| ensures r[k] == ([updated] + p.routes)[k] {
        if k > 0 {
          assert ([newRoute] + p.routes)[k] == p.routes[k - 1];
        }
      }
    }
  }

  /** `Erreur lors du calcul: ${err.response?.data?.error || err.message}`. */
  function CalculateError(backendError: Option<string>, message: string): string
  {
    "Erreur lors du calcul: " + if backendError.Some? && backendError.value != "" then backendError.value else message
  }

  /** The backend's refusal reaches the courier word for word: when the
      service raises a value error, the page shows its message after the
      prefix. */
  lemma BackendRefusalShown(m: string, message: string)
    requires m != ""
    ensures var resp := LogisticsViews.CalculateRouteResponse(LogisticsViews.RaisedValueError(m));
      resp.Error? && CalculateError(Some(resp.error), message) == "Erreur lors du calcul: " + m
  {
  }
}
