/**
 * The catalog loop of `getSubscriptions`: for each message the mailbox listed,
 * in the order listed, an entry with the message id, the first `From` value and
 * the parse of the first `List-Unsubscribe` value, when the message has both.
 */
module Subscriptions {
  import opened Wrappers
  import opened Headers
  import opened UnsubscribeHeader

  /** A listed message with the headers `messages.get` returned for it (none when the payload is missing). */
  datatype Fetched = Fetched(id: string, headers: seq<Header>)

  datatype Subscription = Subscription(id: string, from: string, methods: Methods)

  const FromName: string := "From"
  const ListUnsubscribeName: string := "List-Unsubscribe"

  /** The message has a `From` and a `List-Unsubscribe` header, names matched exactly. */
  predicate Listed(m: Fetched) {
    Lookup(m.headers, FromName).Some? && Lookup(m.headers, ListUnsubscribeName).Some?
  }

  /** The entry the loop pushes for a message that has both headers. */
  function EntryFor(m: Fetched): Subscription
    requires Listed(m)
  {
    Subscription(m.id, Lookup(m.headers, FromName).value, Parse(Lookup(m.headers, ListUnsubscribeName).value))
  }

  /** The subscriptions array after the loop has seen `ms`. */
  function Catalog(ms: seq<Fetched>): seq<Subscription>
    decreases |ms|
  {
    if |ms| == 0 then []
    else
      var last := ms[|ms| - 1];
      Catalog(ms[..|ms| - 1]) + (if Listed(last) then [EntryFor(last)] else [])
  }

  /** The positions of the messages that have both headers, in ascending order. */
  function Kept(ms: seq<Fetched>): seq<nat>
    decreases |ms|
  {
    if |ms| == 0 then []
    else Kept(ms[..|ms| - 1]) + (if Listed(ms[|ms| - 1]) then [|ms| - 1] else [])
  }

  /** `for (const message of messages) { ... if (fromHeader && listUnsubscribeHeader) subscriptions.push(...) }` */
  method GetSubscriptions(messages: seq<Fetched>) returns (subscriptions: seq<Subscription>)
    ensures subscriptions == Catalog(messages)
  {
    subscriptions := [];
    for i := 0 to |messages|
      invariant subscriptions == Catalog(messages[..i])
    {
      var message := messages[i];
      assert messages[..i + 1][..i] == messages[..i];
      var fromHeader := Find(message.headers, FromName);
      var listUnsubscribeHeader := Find(message.headers, ListUnsubscribeName);
      if fromHeader.Some? && listUnsubscribeHeader.Some? {
        var methods := ParseUnsubscribeHeader(message.headers[listUnsubscribeHeader.value].value);
        subscriptions := subscriptions + [Subscription(message.id, message.headers[fromHeader.value].value, methods)];
      }
    }
    assert messages[..|messages|] == messages;
  }

  /** Entry `j` of the catalog is the entry for message `Kept(ms)[j]`. */
  lemma {:induction false} CatalogKept(ms: seq<Fetched>)
    ensures |Catalog(ms)| == |Kept(ms)|
    ensures forall j :: 0 <= j < |Kept(ms)| ==>
      Kept(ms)[j] < |ms| && Listed(ms[Kept(ms)[j]]) && Catalog(ms)[j] == EntryFor(ms[Kept(ms)[j]])
    decreases |ms|
  {
    if |ms| > 0 {
      var init := ms[..|ms| - 1];
      CatalogKept(init);
      forall j | 0 <= j < |Kept(init)|
        ensures Kept(ms)[j] < |ms| && Listed(ms[Kept(ms)[j]]) && Catalog(ms)[j] == EntryFor(ms[Kept(ms)[j]])
      {
        assert Kept(ms)[j] == Kept(init)[j];
        assert Catalog(ms)[j] == Catalog(init)[j];
        assert ms[Kept(init)[j]] == init[Kept(init)[j]];
      }
    }
  }

  /** The kept positions are in range and strictly increasing: the catalog follows message order. */
  lemma {:induction false} KeptIncreasing(ms: seq<Fetched>)
    ensures forall j :: 0 <= j < |Kept(ms)| ==> Kept(ms)[j] < |ms|
    ensures forall j, k :: 0 <= j < k < |Kept(ms)| ==> Kept(ms)[j] < Kept(ms)[k]
    decreases |ms|
  {
    if |ms| > 0 {
      KeptIncreasing(ms[..|ms| - 1]);
    }
  }

  /** A position is kept exactly when its message has both headers. */
  lemma {:induction false} KeptExactly(ms: seq<Fetched>)
    ensures forall i :: 0 <= i < |ms| ==> (i in Kept(ms) <==> Listed(ms[i]))
    decreases |ms|
  {
    if |ms| > 0 {
      var init := ms[..|ms| - 1];
      KeptExactly(init);
      KeptIncreasing(init);
      assert |ms| - 1 !in Kept(init);
      forall i | 0 <= i < |init| ensures ms[i] == init[i] {
      }
    }
  }

  /** An entry's id is a listed message's id and its methods are the parse of that message's header. */
  lemma CatalogEntries(ms: seq<Fetched>, j: nat)
    requires j < |Catalog(ms)|
    ensures exists i :: (0 <= i < |ms| && Catalog(ms)[j].id == ms[i].id
      && Lookup(ms[i].headers, ListUnsubscribeName).Some?
      && Catalog(ms)[j].methods == Parse(Lookup(ms[i].headers, ListUnsubscribeName).value))
  {
    CatalogKept(ms);
    var i := Kept(ms)[j];
    assert Catalog(ms)[j] == EntryFor(ms[i]);
  }

  /** A message whose unsubscribe header holds no complete `<…>` span is still catalogued, with no methods. */
  lemma CatalogKeepsEmpty(id: string, from: string, value: string)
    requires forall i, j :: 0 <= i < j < |value| && value[i] == '<' ==> value[j] != '>'
    ensures Catalog([Fetched(id, [Header(FromName, from), Header(ListUnsubscribeName, value)])])
      == [Subscription(id, from, Methods([], []))]
  {
    var hs := [Header(FromName, from), Header(ListUnsubscribeName, value)];
    LookupFirst(hs, FromName, 0);
    LookupFirst(hs, ListUnsubscribeName, 1);
    ParseNoBrackets(value);
    var ms := [Fetched(id, hs)];
    assert ms[..0] == [];
  }
}
