/**
 * The events shown to the connected account: of all swap events, those whose
 * recipient is that account, compared without regard to letter case.
 */
module RecipientFilter {
  import opened Wrappers
  import opened JsText
  import ValueFormat

  /** One swap event as the view receives it; every field may be absent. */
  datatype SwapEvent = SwapEvent(
    kind: string,
    token: Option<string>,
    creator: Option<string>,
    recipient: Option<string>,
    hashedSecret: Option<string>,
    value: ValueFormat.RawValue,
    lockId: Option<string>)

  /**
   * The filter's test: the event has a non-empty recipient, and its lower-case form
   * equals the lower-case form of the account; with no account the optional call
   * yields undefined, which no string equals.
   */
  predicate IsForAccount(e: SwapEvent, account: Option<string>)
    ensures account.None? ==> !IsForAccount(e, account)
    ensures IsForAccount(e, account) <==>
      && e.recipient.Some? && account.Some? && e.recipient.value != ""
      && |e.recipient.value| == |account.value|
      && forall i | 0 <= i < |account.value| :: LowerChar(e.recipient.value[i]) == LowerChar(account.value[i])
  {
    && e.recipient.Some? && e.recipient.value != ""
    && account.Some? && Lower(e.recipient.value) == Lower(account.value)
  }

  /** a is b with some elements left out, the rest in their order. */
  predicate IsSubsequence<T(==)>(a: seq<T>, b: seq<T>)
    decreases |b|
  {
    if a == [] then true
    else if b == [] then false
    else (a[0] == b[0] && IsSubsequence(a[1..], b[1..])) || IsSubsequence(a, b[1..])
  }

  /** recipientEvents: the events that pass IsForAccount, in their original order. */
  function RecipientEvents(events: seq<SwapEvent>, account: Option<string>): (r: seq<SwapEvent>)
    ensures forall e :: e in r <==> e in events && IsForAccount(e, account)
    ensures IsSubsequence(r, events)
    ensures |r| <= |events|
    decreases |events|
  {
    if events == [] then []
    else
      var head, tail := events[0], events[1..];
      var rest := RecipientEvents(tail, account);
      assert events == [head] + tail;
      if IsForAccount(head, account) then
        var r := [head] + rest;
        assert r[1..] == rest;
        r
      else
        SkipHead(rest, events);
        rest
  }

  /** Every occurrence of a kept event is kept, and no occurrence of a dropped one. */
  lemma {:induction false} RecipientEventsCount(events: seq<SwapEvent>, account: Option<string>)
    ensures forall e ::
      multiset(RecipientEvents(events, account))[e] == if IsForAccount(e, account) then multiset(events)[e] else 0
    decreases |events|
  {
    if events != [] {
      var head, tail := events[0], events[1..];
      RecipientEventsCount(tail, account);
      assert events == [head] + tail;
      assert multiset(events) == multiset([head]) + multiset(tail);
      var rest := RecipientEvents(tail, account);
      if IsForAccount(head, account) {
        assert RecipientEvents(events, account) == [head] + rest;
        assert multiset([head] + rest) == multiset([head]) + multiset(rest);
      }
    }
  }

  /** A subsequence of a list's tail is a subsequence of the list. */
  lemma {:induction false} SkipHead<T>(a: seq<T>, b: seq<T>)
    requires b != [] && IsSubsequence(a, b[1..])
    ensures IsSubsequence(a, b)
  {
  }

  /** With no connected account nothing is shown, and an empty account string matches nothing. */
  lemma NoAccountNoEvents(events: seq<SwapEvent>)
    ensures RecipientEvents(events, None) == []
    ensures RecipientEvents(events, Some("")) == []
  {
    if events != [] {
      assert !IsForAccount(events[0], Some(""));
      NoAccountNoEvents(events[1..]);
    }
  }

  /** Letter case of the account does not matter: an account and its lower-case form see the same events. */
  lemma {:induction false} AccountCaseIrrelevant(events: seq<SwapEvent>, account: string)
    ensures RecipientEvents(events, Some(account)) == RecipientEvents(events, Some(Lower(account)))
    decreases |events|
  {
    LowerIdempotent(account);
    if events != [] {
      AccountCaseIrrelevant(events[1..], account);
    }
  }

  /** Filtering twice is filtering once. */
  lemma {:induction false} FilterIdempotent(events: seq<SwapEvent>, account: Option<string>)
    ensures RecipientEvents(RecipientEvents(events, account), account) == RecipientEvents(events, account)
    decreases |events|
  {
    if events != [] {
      FilterIdempotent(events[1..], account);
      var rest := RecipientEvents(events[1..], account);
      if IsForAccount(events[0], account) {
        assert ([events[0]] + rest)[1..] == rest;
      }
    }
  }

  /** Filtering a concatenation is concatenating the filtered parts: each event is judged on its own. */
  lemma {:induction false} FilterAppend(a: seq<SwapEvent>, b: seq<SwapEvent>, account: Option<string>)
    ensures RecipientEvents(a + b, account) == RecipientEvents(a, account) + RecipientEvents(b, account)
    decreases |a|
  {
    if a == [] {
      assert a + b == b;
    } else {
      assert (a + b)[1..] == a[1..] + b;
      FilterAppend(a[1..], b, account);
    }
  }
}
