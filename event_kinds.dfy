/**
 * How the events view treats each kind of swap event: the colours of its card
 * (getEventColor) and which kinds offer the Unlock and Decline actions.
 */
module EventKinds {

  const LockBuy := "LockBuy"
  const LockSell := "LockSell"
  const Unlock := "Unlock"
  const Retrieve := "Retrieve"
  const Decline := "Decline"

  /** The event kinds the view knows by name. */
  const KnownKinds: set<string> := {LockBuy, LockSell, Unlock, Retrieve, Decline}

  /** The colours of a card of an unknown kind. */
  const DefaultColor := "bg-gray-50 border-gray-200"

  /** getEventColor(type): the card's background and border classes. */
  function EventColor(kind: string): (r: string)
    ensures r == DefaultColor <==> kind !in KnownKinds
  {
    if kind == LockBuy then "bg-blue-50 border-blue-200"
    else if kind == LockSell then "bg-green-50 border-green-200"
    else if kind == Unlock then "bg-purple-50 border-purple-200"
    else if kind == Retrieve then "bg-yellow-50 border-yellow-200"
    else if kind == Decline then "bg-red-50 border-red-200"
    else DefaultColor
  }

  /** Each known kind gets a colour of its own. */
  lemma ColorsDistinguishKinds(k1: string, k2: string)
    requires k1 in KnownKinds && k2 in KnownKinds && k1 != k2
    ensures EventColor(k1) != EventColor(k2)
  {
  }

  /** The card shows Unlock and Decline buttons: the kind is one of the two lock-creation kinds. */
  predicate OffersActions(kind: string)
    ensures OffersActions(kind) <==> kind in KnownKinds && kind !in {Unlock, Retrieve, Decline}
  {
    kind == LockBuy || kind == LockSell
  }

  /**
   * The cards that offer actions are exactly the blue and the green ones: the two
   * lock-creation kinds, whose locks may still be live.
   */
  lemma ActionsOnlyOnCreation(kind: string)
    ensures OffersActions(kind) <==> EventColor(kind) in {"bg-blue-50 border-blue-200", "bg-green-50 border-green-200"}
  {
  }
}
