/**
 * The per-message loop of `unsubscribe`: for each requested message id, in
 * order, fetch the message, parse its `List-Unsubscribe` header, try its web
 * links one after another with a POST until one goes through, and otherwise
 * fall back to sending an unsubscribe mail. Every outcome is appended to one
 * shared results list.
 *
 * The network is given as oracles keyed by the position of the id in the
 * batch: what `messages.get` returns or throws, whether each `fetch` throws
 * (attempt `k` of that message's links), and whether `messages.send` throws.
 * The calls the loop makes are recorded in a log so that the order in which
 * it tries things can be stated.
 */
module Unsubscribe {
  import opened Wrappers
  import opened Headers
  import opened UnsubscribeHeader
  import opened RawEmail

  /** A call into the network that returned, or threw an error with this message. */
  datatype Reply = Returned | Threw(message: string)

  /** What `messages.get` gives: the message's headers (none when it has no payload), or an error. */
  datatype GetReply = Got(headers: seq<Header>) | GetThrew(message: string)

  datatype Via = Http | Mailto

  /** `{messageId, status: 'success', method}` or `{messageId, status: 'failed', error}` */
  datatype Outcome = Succeeded(messageId: string, via: Via) | Failed(messageId: string, error: string)

  /** The network calls made for the message at batch position `pos`. */
  datatype Call = GetCall(pos: nat) | PostCall(pos: nat, url: string) | SendCall(pos: nat, raw: string)

  /** The results pushed and the calls made. */
  datatype Log = Log(results: seq<Outcome>, calls: seq<Call>)

  const ListUnsubscribeName: string := "List-Unsubscribe"
  const Subject: string := "Unsubscribe"
  const Body: string := "Please unsubscribe me"
  /** What a template literal writes for `methods.mailto[0]` when the list is empty. */
  const Undefined: string := "undefined"

  /** `results.find(r => r.messageId === messageId)`: the first result recorded for the id. */
  function FirstFor(results: seq<Outcome>, id: string): (r: Option<Outcome>)
    ensures r.None? <==> forall j :: 0 <= j < |results| ==> results[j].messageId != id
    ensures forall j :: (0 <= j < |results| && results[j].messageId == id
                         && forall i :: 0 <= i < j ==> results[i].messageId != id) ==> r == Some(results[j])
  {
    if |results| == 0 then None
    else if results[0].messageId == id then Some(results[0])
    else FirstFor(results[1..], id)
  }

  /** The POSTs to `urls`, in order, for the message at `pos`. */
  function Posts(pos: nat, urls: seq<string>): (r: seq<Call>)
    ensures |r| == |urls| && forall k :: 0 <= k < |urls| ==> r[k] == PostCall(pos, urls[k])
  {
    seq(|urls|, k requires 0 <= k < |urls| => PostCall(pos, urls[k]))
  }

  /** What the HTTP tier did: whether some POST went through, and the POSTs it made. */
  datatype Tier = Tier(ok: bool, posts: seq<Call>)

  /** The HTTP tier from attempt `i` on: POST each link in turn until one does not throw. */
  function HttpFrom(pos: nat, urls: seq<string>, i: nat, post: (nat, nat, string) -> Reply): Tier
    requires i <= |urls|
    decreases |urls| - i
  {
    if i == |urls| then Tier(false, [])
    else if post(pos, i, urls[i]).Returned? then Tier(true, [PostCall(pos, urls[i])])
    else
      var rest := HttpFrom(pos, urls, i + 1, post);
      Tier(rest.ok, [PostCall(pos, urls[i])] + rest.posts)
  }

  /** The HTTP tier POSTs a prefix of the links, in order, and all of them when it fails. */
  lemma {:induction false} HttpFromPosts(pos: nat, urls: seq<string>, i: nat, post: (nat, nat, string) -> Reply)
    requires i <= |urls|
    ensures var r := HttpFrom(pos, urls, i, post);
      i + |r.posts| <= |urls| && r.posts == Posts(pos, urls[i..i + |r.posts|])
    ensures var r := HttpFrom(pos, urls, i, post); !r.ok ==> i + |r.posts| == |urls|
    decreases |urls| - i
  {
    if i < |urls| && post(pos, i, urls[i]).Threw? {
      HttpFromPosts(pos, urls, i + 1, post);
      var rest := HttpFrom(pos, urls, i + 1, post);
      var t := i + 1 + |rest.posts|;
      assert HttpFrom(pos, urls, i, post).posts == [PostCall(pos, urls[i])] + rest.posts;
      assert [PostCall(pos, urls[i])] + Posts(pos, urls[i + 1..t]) == Posts(pos, urls[i..t]);
    } else if i < |urls| {
      assert urls[i..i + 1] == [urls[i]];
    }
  }

  /** Every POST of the tier but the last one threw, and the tier succeeded exactly when that last one returned. */
  lemma {:induction false} HttpFromVerdict(pos: nat, urls: seq<string>, i: nat, post: (nat, nat, string) -> Reply)
    requires i <= |urls|
    ensures i + |HttpFrom(pos, urls, i, post).posts| <= |urls|
    ensures var r := HttpFrom(pos, urls, i, post);
      forall k :: i <= k < i + |r.posts| - 1 ==> post(pos, k, urls[k]).Threw?
    ensures var r := HttpFrom(pos, urls, i, post);
      r.ok <==> |r.posts| > 0 && post(pos, i + |r.posts| - 1, urls[i + |r.posts| - 1]).Returned?
    decreases |urls| - i
  {
    if i < |urls| && post(pos, i, urls[i]).Threw? {
      HttpFromVerdict(pos, urls, i + 1, post);
      var rest := HttpFrom(pos, urls, i + 1, post);
      assert HttpFrom(pos, urls, i, post) == Tier(rest.ok, [PostCall(pos, urls[i])] + rest.posts);
    }
  }

  /**
   * The HTTP tier posts a prefix of the links, in order; every POST but the
   * last threw; it succeeded exactly when the last one returned; and when it
   * failed it had tried every link.
   */
  lemma HttpFromShape(pos: nat, urls: seq<string>, i: nat, post: (nat, nat, string) -> Reply)
    requires i <= |urls|
    ensures var r := HttpFrom(pos, urls, i, post);
      i + |r.posts| <= |urls| && r.posts == Posts(pos, urls[i..i + |r.posts|])
    ensures var r := HttpFrom(pos, urls, i, post);
      forall k :: i <= k < i + |r.posts| - 1 ==> post(pos, k, urls[k]).Threw?
    ensures var r := HttpFrom(pos, urls, i, post);
      r.ok <==> |r.posts| > 0 && post(pos, i + |r.posts| - 1, urls[i + |r.posts| - 1]).Returned?
    ensures var r := HttpFrom(pos, urls, i, post);
      !r.ok ==> i + |r.posts| == |urls|
  {
    HttpFromPosts(pos, urls, i, post);
    HttpFromVerdict(pos, urls, i, post);
  }

  /** `for (const url of methods.http) { try { await fetch(url, ...); ...; break } catch { } }` */
  method TryHttp(pos: nat, urls: seq<string>, post: (nat, nat, string) -> Reply) returns (ok: bool, calls: seq<Call>)
    ensures Tier(ok, calls) == HttpFrom(pos, urls, 0, post)
  {
    ok, calls := false, [];
    var j := 0;
    assert calls + HttpFrom(pos, urls, 0, post).posts == HttpFrom(pos, urls, 0, post).posts;
    while j < |urls|
      invariant j <= |urls|
      invariant HttpFrom(pos, urls, 0, post)
        == Tier(HttpFrom(pos, urls, j, post).ok, calls + HttpFrom(pos, urls, j, post).posts)
      invariant !ok
      decreases |urls| - j
    {
      var rest := HttpFrom(pos, urls, j + 1, post);
      calls := calls + [PostCall(pos, urls[j])];
      if post(pos, j, urls[j]).Returned? {
        ok := true;
        break;
      }
      assert calls + rest.posts == (calls[..|calls| - 1]) + ([PostCall(pos, urls[j])] + rest.posts);
      j := j + 1;
    }
    assert calls + [] == calls;
  }

  /** The recipient of the fallback mail: the first mailto candidate, or `undefined` when there is none. */
  function Recipient(mailto: seq<string>): string {
    if |mailto| > 0 then mailto[0] else Undefined
  }

  /** What a turn learns from `messages.get`: an error, no unsubscribe header, or its methods and the fallback mail. */
  datatype Fetch = FetchThrew(message: string) | NoHeader | Found(methods: Methods, raw: string)

  /** Finds `List-Unsubscribe`, parses it, and composes the mail the fallback would send. */
  function Examine(reply: GetReply): Fetch {
    match reply
    case GetThrew(msg) => FetchThrew(msg)
    case Got(headers) =>
      match Lookup(headers, ListUnsubscribeName)
      case None => NoHeader
      case Some(value) =>
        var m := Parse(value);
        Found(m, CreateRawEmail(Recipient(m.mailto), Subject, Body))
  }

  /**
   * How the fallback decides whether the message was already handled.
   * `AsWritten` is line 102: it looks up the FIRST result recorded anywhere
   * in the batch for the id, which for a repeated id can be an earlier turn's
   * failure. `PerMessage` is the evidently intended test: it asks whether
   * this message's own HTTP tier succeeded.
   */
  datatype Check = AsWritten | PerMessage

  /** Whether the mailto tier runs once the HTTP tier has pushed `httpPushed`. */
  function NeedsMail(check: Check, acc: seq<Outcome>, id: string, httpPushed: seq<Outcome>): bool {
    match check
    case AsWritten =>
      var earlier := FirstFor(acc + httpPushed, id);
      !(earlier.Some? && earlier.value.Succeeded?)
    case PerMessage => httpPushed == []
  }

  /** One turn of the loop for the id at `pos`, with `acc` the results pushed so far. */
  function Turn(check: Check, acc: seq<Outcome>, pos: nat, id: string, fetch: Fetch,
                post: (nat, nat, string) -> Reply, send: (nat, string) -> Reply): Log {
    match fetch
    case FetchThrew(msg) => Log([Failed(id, msg)], [GetCall(pos)])
    case NoHeader => Log([], [GetCall(pos)])
    case Found(m, raw) =>
      var tier := HttpFrom(pos, m.http, 0, post);
      var httpPushed := if tier.ok then [Succeeded(id, Http)] else [];
      if !NeedsMail(check, acc, id, httpPushed) then
        Log(httpPushed, [GetCall(pos)] + tier.posts)
      else
        match send(pos, raw)
        case Returned => Log(httpPushed + [Succeeded(id, Mailto)], [GetCall(pos)] + tier.posts + [SendCall(pos, raw)])
        case Threw(msg) => Log(httpPushed + [Failed(id, msg)], [GetCall(pos)] + tier.posts + [SendCall(pos, raw)])
  }

  /**
   * What every turn learns from `messages.get`: `Examined(get)(pos, id)` is the
   * fetch of the id at `pos`.
   */
  function Examined(get: (nat, string) -> GetReply): (nat, string) -> Fetch {
    (pos: nat, id: string) => Examine(get(pos, id))
  }

  /** A loop body: what it pushes and calls for the id at `pos`, given the results pushed so far. */
  type Step = (seq<Outcome>, nat, string) -> Log

  /** The body of `unsubscribe`'s loop, with fallback test `check` and the given network. */
  function TurnStep(check: Check, fetch: (nat, string) -> Fetch,
                    post: (nat, nat, string) -> Reply, send: (nat, string) -> Reply): Step {
    (acc: seq<Outcome>, pos: nat, id: string) => Turn(check, acc, pos, id, fetch(pos, id), post, send)
  }

  /** The results and the calls after a loop with body `step` has handled the first `n` ids. */
  function Run(step: Step, ids: seq<string>, n: nat): Log
    requires n <= |ids|
  {
    if n == 0 then Log([], [])
    else
      var prev := Run(step, ids, n - 1);
      var turn := step(prev.results, n - 1, ids[n - 1]);
      Log(prev.results + turn.results, prev.calls + turn.calls)
  }

  /**
   * The body of the loop (its `try` block and `catch`) for the id at `pos`;
   * `acc` holds the results so far and `check` is the fallback test.
   */
  method HandleMessage(check: Check, acc: seq<Outcome>, pos: nat, messageId: string, get: (nat, string) -> GetReply,
                       post: (nat, nat, string) -> Reply, send: (nat, string) -> Reply)
    returns (pushed: seq<Outcome>, calls: seq<Call>)
    ensures Log(pushed, calls) == Turn(check, acc, pos, messageId, Examine(get(pos, messageId)), post, send)
  {
    pushed, calls := [], [GetCall(pos)];
    var reply := get(pos, messageId);
    match reply {
      case GetThrew(msg) =>
        pushed := [Failed(messageId, msg)];
      case Got(headers) =>
        var listUnsubscribeHeader := Find(headers, ListUnsubscribeName);
        if listUnsubscribeHeader.Some? {
          var value := headers[listUnsubscribeHeader.value].value;
          assert Lookup(headers, ListUnsubscribeName) == Some(value);
          var methods := ParseUnsubscribeHeader(value);
          var raw := CreateRawEmail(Recipient(methods.mailto), Subject, Body);
          assert Examine(reply) == Found(methods, raw);
          var made;
          pushed, made := TryMethods(check, acc, pos, messageId, methods, raw, post, send);
          calls := calls + made;
        }
    }
  }

  /**
   * The two tiers, for a message whose header parsed to `methods` and whose
   * fallback mail is `raw`: the results, and the calls after the fetch.
   */
  method TryMethods(check: Check, acc: seq<Outcome>, pos: nat, messageId: string, methods: Methods, raw: string,
                    post: (nat, nat, string) -> Reply, send: (nat, string) -> Reply)
    returns (pushed: seq<Outcome>, calls: seq<Call>)
    ensures Log(pushed, [GetCall(pos)] + calls) == Turn(check, acc, pos, messageId, Found(methods, raw), post, send)
  {
    ghost var turn := Turn(check, acc, pos, messageId, Found(methods, raw), post, send);
    pushed := [];
    var ok;
    ok, calls := TryHttp(pos, methods.http, post);
    ghost var tried := [GetCall(pos)] + calls;
    if ok {
      pushed := pushed + [Succeeded(messageId, Http)];
    }
    assert pushed == if ok then [Succeeded(messageId, Http)] else [];
    if !NeedsMail(check, acc, messageId, pushed) {
      assert turn == Log(pushed, tried);
    } else {
      calls := calls + [SendCall(pos, raw)];
      assert [GetCall(pos)] + calls == tried + [SendCall(pos, raw)];
      match send(pos, raw) {
        case Returned =>
          assert turn == Log(pushed + [Succeeded(messageId, Mailto)], tried + [SendCall(pos, raw)]);
          pushed := pushed + [Succeeded(messageId, Mailto)];
        case Threw(msg) =>
          assert turn == Log(pushed + [Failed(messageId, msg)], tried + [SendCall(pos, raw)]);
          pushed := pushed + [Failed(messageId, msg)];
      }
    }
  }

  /**
   * The `for (const messageId of messageIds)` loop of `unsubscribe`, with the
   * fallback test `AsWritten` as in the code, or the corrected `PerMessage`.
   */
  method UnsubscribeAll(check: Check, messageIds: seq<string>, get: (nat, string) -> GetReply,
                        post: (nat, nat, string) -> Reply, send: (nat, string) -> Reply)
    returns (results: seq<Outcome>, calls: seq<Call>)
    ensures Log(results, calls) == Run(TurnStep(check, Examined(get), post, send), messageIds, |messageIds|)
  {
    ghost var step := TurnStep(check, Examined(get), post, send);
    results, calls := [], [];
    for pos := 0 to |messageIds|
      invariant Log(results, calls) == Run(step, messageIds, pos)
    {
      assert step(results, pos, messageIds[pos])
        == Turn(check, results, pos, messageIds[pos], Examine(get(pos, messageIds[pos])), post, send);
      var pushed, made := HandleMessage(check, results, pos, messageIds[pos], get, post, send);
      results := results + pushed;
      calls := calls + made;
    }
  }

  // ---- properties of one turn ----

  /** Searching a concatenation finds the first list's entry if it has one, else the second's. */
  lemma {:induction false} FirstForAppend(a: seq<Outcome>, b: seq<Outcome>, id: string)
    ensures FirstFor(a + b, id) == if FirstFor(a, id).Some? then FirstFor(a, id) else FirstFor(b, id)
    decreases |a|
  {
    if |a| == 0 {
      assert a + b == b;
    } else {
      assert (a + b)[0] == a[0];
      assert (a + b)[1..] == a[1..] + b;
      FirstForAppend(a[1..], b, id);
    }
  }

  /** For an id with no earlier result, the as-written check and the per-message check agree. */
  lemma NeedsMailFresh(acc: seq<Outcome>, id: string, httpPushed: seq<Outcome>)
    requires FirstFor(acc, id).None?
    requires httpPushed == [] || httpPushed == [Succeeded(id, Http)]
    ensures NeedsMail(AsWritten, acc, id, httpPushed) == NeedsMail(PerMessage, acc, id, httpPushed)
  {
    FirstForAppend(acc, httpPushed, id);
  }

  /** A turn pushes at most two results, all for its own id. */
  lemma TurnIds(check: Check, acc: seq<Outcome>, pos: nat, id: string, fetch: Fetch,
                post: (nat, nat, string) -> Reply, send: (nat, string) -> Reply)
    ensures var turn := Turn(check, acc, pos, id, fetch, post, send);
      |turn.results| <= 2 && forall j :: 0 <= j < |turn.results| ==> turn.results[j].messageId == id
  {
  }

  /** Under the per-message check, or when no earlier result carries the id, a turn pushes at most one result. */
  lemma TurnSingle(check: Check, acc: seq<Outcome>, pos: nat, id: string, fetch: Fetch,
                   post: (nat, nat, string) -> Reply, send: (nat, string) -> Reply)
    requires check == PerMessage || FirstFor(acc, id).None?
    ensures |Turn(check, acc, pos, id, fetch, post, send).results| <= 1
  {
    if fetch.Found? {
      var tier := HttpFrom(pos, fetch.methods.http, 0, post);
      var httpPushed := if tier.ok then [Succeeded(id, Http)] else [];
      if check == AsWritten {
        NeedsMailFresh(acc, id, httpPushed);
      }
    }
  }

  /** A turn's calls start with the fetch of its message and all concern its position. */
  lemma TurnCalls(check: Check, acc: seq<Outcome>, pos: nat, id: string, fetch: Fetch,
                  post: (nat, nat, string) -> Reply, send: (nat, string) -> Reply)
    ensures var turn := Turn(check, acc, pos, id, fetch, post, send);
      |turn.calls| >= 1 && turn.calls[0] == GetCall(pos) && forall j :: 0 <= j < |turn.calls| ==> turn.calls[j].pos == pos
  {
    if fetch.Found? {
      var tier := HttpFrom(pos, fetch.methods.http, 0, post);
      HttpFromPosts(pos, fetch.methods.http, 0, post);
      assert forall j :: 0 <= j < |tier.posts| ==> tier.posts[j].pos == pos;
    }
  }

  /** A message without a `List-Unsubscribe` header pushes nothing: it is only fetched. */
  lemma NoHeaderNoResult(check: Check, acc: seq<Outcome>, pos: nat, id: string, headers: seq<Header>,
                         post: (nat, nat, string) -> Reply, send: (nat, string) -> Reply)
    requires Lookup(headers, ListUnsubscribeName).None?
    ensures Turn(check, acc, pos, id, Examine(Got(headers)), post, send) == Log([], [GetCall(pos)])
  {
  }

  /**
   * The tier policy, for a message whose methods are `m` and whose fallback
   * mail is `raw`, under the per-message check or for an id with no earlier
   * result: the links are POSTed in order until one returns; a returned POST
   * is the message's one result and nothing further is tried; otherwise every
   * link was POSTed and threw, and exactly one mail is sent, whose outcome is
   * the message's one result.
   */
  lemma TierPolicyFound(check: Check, acc: seq<Outcome>, pos: nat, id: string, m: Methods, raw: string,
                        post: (nat, nat, string) -> Reply, send: (nat, string) -> Reply)
    requires check == PerMessage || FirstFor(acc, id).None?
    ensures var t := |HttpFrom(pos, m.http, 0, post).posts|;
      var turn := Turn(check, acc, pos, id, Found(m, raw), post, send);
      t <= |m.http| && (forall k :: 0 <= k < t - 1 ==> post(pos, k, m.http[k]).Threw?) &&
      if t > 0 && post(pos, t - 1, m.http[t - 1]).Returned? then
        turn == Log([Succeeded(id, Http)], [GetCall(pos)] + Posts(pos, m.http[..t]))
      else
        t == |m.http| && turn.calls == [GetCall(pos)] + Posts(pos, m.http) + [SendCall(pos, raw)] &&
        turn.results == [if send(pos, raw).Returned? then Succeeded(id, Mailto) else Failed(id, send(pos, raw).message)]
  {
    HttpFromShape(pos, m.http, 0, post);
    var tier := HttpFrom(pos, m.http, 0, post);
    var httpPushed := if tier.ok then [Succeeded(id, Http)] else [];
    if check == AsWritten {
      NeedsMailFresh(acc, id, httpPushed);
    }
    assert m.http[0..|tier.posts|] == m.http[..|tier.posts|];
    if !tier.ok {
      assert m.http[..|m.http|] == m.http;
      assert httpPushed + [Succeeded(id, Mailto)] == [Succeeded(id, Mailto)];
      if send(pos, raw).Threw? {
        assert httpPushed + [Failed(id, send(pos, raw).message)] == [Failed(id, send(pos, raw).message)];
      }
    }
  }

  /**
   * The fallback mail goes to the first mailto candidate of the parsed header
   * (`undefined` when there is none), with the fixed subject and body.
   */
  lemma FallbackMail(headers: seq<Header>, value: string)
    requires Lookup(headers, ListUnsubscribeName) == Some(value)
    ensures Examine(Got(headers)) == Found(Parse(value), CreateRawEmail(
      if |Parse(value).mailto| > 0 then Parse(value).mailto[0] else "undefined",
      "Unsubscribe", "Please unsubscribe me"))
  {
  }

  /**
   * As written, when the first result recorded earlier for the same id is a
   * success, a later turn sends no mail. (A success recorded after an earlier
   * failure for that id does not suppress it: `find` returns the failure.)
   */
  lemma EarlierSuccessSuppressesMail(acc: seq<Outcome>, pos: nat, id: string, fetch: Fetch,
                                     post: (nat, nat, string) -> Reply, send: (nat, string) -> Reply)
    requires FirstFor(acc, id).Some? && FirstFor(acc, id).value.Succeeded?
    ensures var turn := Turn(AsWritten, acc, pos, id, fetch, post, send);
      forall j :: 0 <= j < |turn.calls| ==> !turn.calls[j].SendCall?
  {
    if fetch.Found? {
      var tier := HttpFrom(pos, fetch.methods.http, 0, post);
      HttpFromShape(pos, fetch.methods.http, 0, post);
      var httpPushed := if tier.ok then [Succeeded(id, Http)] else [];
      FirstForAppend(acc, httpPushed, id);
    }
  }

  // ---- properties of the whole batch ----

  /** `turn` pushes results only for `id`. */
  predicate Owns(turn: Log, id: string) {
    forall j :: 0 <= j < |turn.results| ==> turn.results[j].messageId == id
  }

  /** `turn` starts by fetching the message at `pos` and makes calls for that position only. */
  predicate FetchesFirst(turn: Log, pos: nat) {
    |turn.calls| >= 1 && turn.calls[0] == GetCall(pos) && forall j :: 0 <= j < |turn.calls| ==> turn.calls[j].pos == pos
  }

  /** Every turn of `step` pushes results only for the id it handles. */
  ghost predicate OwnResults(step: Step) {
    forall acc, pos, id :: Owns(step(acc, pos, id), id)
  }

  /** Every turn of `step` starts by fetching its message and calls only for its position. */
  ghost predicate FetchesEach(step: Step) {
    forall acc, pos, id :: FetchesFirst(step(acc, pos, id), pos)
  }

  /** Every turn of `step` pushes at most one result. */
  ghost predicate AtMostOne(step: Step) {
    forall acc, pos, id :: |step(acc, pos, id).results| <= 1
  }

  /** Every turn of `step` for an id with no earlier result pushes at most one result. */
  ghost predicate AtMostOneWhenFresh(step: Step) {
    forall acc, pos, id :: FirstFor(acc, id).None? ==> |step(acc, pos, id).results| <= 1
  }

  /** The loop body pushes only for its own id and fetches before anything else. */
  lemma TurnStepShape(check: Check, fetch: (nat, string) -> Fetch,
                      post: (nat, nat, string) -> Reply, send: (nat, string) -> Reply)
    ensures OwnResults(TurnStep(check, fetch, post, send))
    ensures FetchesEach(TurnStep(check, fetch, post, send))
  {
    var step := TurnStep(check, fetch, post, send);
    forall acc, pos: nat, id ensures Owns(step(acc, pos, id), id) && FetchesFirst(step(acc, pos, id), pos) {
      assert step(acc, pos, id) == Turn(check, acc, pos, id, fetch(pos, id), post, send);
      TurnIds(check, acc, pos, id, fetch(pos, id), post, send);
      TurnCalls(check, acc, pos, id, fetch(pos, id), post, send);
    }
  }

  /**
   * The loop body pushes at most one result for an id with no earlier
   * result, and, under the per-message check, at most one in every turn.
   */
  lemma TurnStepSingle(check: Check, fetch: (nat, string) -> Fetch,
                       post: (nat, nat, string) -> Reply, send: (nat, string) -> Reply)
    ensures AtMostOneWhenFresh(TurnStep(check, fetch, post, send))
    ensures check == PerMessage ==> AtMostOne(TurnStep(check, fetch, post, send))
  {
    var step := TurnStep(check, fetch, post, send);
    forall acc, pos: nat, id | check == PerMessage || FirstFor(acc, id).None?
      ensures |step(acc, pos, id).results| <= 1
    {
      assert step(acc, pos, id) == Turn(check, acc, pos, id, fetch(pos, id), post, send);
      TurnSingle(check, acc, pos, id, fetch(pos, id), post, send);
    }
  }

  /** For each result, the batch position of the id it was pushed for. */
  function Owners(step: Step, ids: seq<string>, n: nat): seq<nat>
    requires n <= |ids|
  {
    if n == 0 then []
    else
      var prev := Run(step, ids, n - 1);
      var turn := step(prev.results, n - 1, ids[n - 1]);
      Owners(step, ids, n - 1) + seq(|turn.results|, _ => n - 1)
  }

  /**
   * Results appear in input order: result `j` was pushed for position
   * `Owners[j]`, those positions never decrease, and each result carries the
   * id at its position.
   */
  lemma {:induction false} RunOrder(step: Step, ids: seq<string>, n: nat)
    requires n <= |ids| && OwnResults(step)
    ensures var r, o := Run(step, ids, n).results, Owners(step, ids, n);
      |o| == |r| && (forall j :: 0 <= j < |o| ==> o[j] < n && r[j].messageId == ids[o[j]])
      && forall j, k :: 0 <= j < k < |o| ==> o[j] <= o[k]
  {
    if n > 0 {
      RunOrder(step, ids, n - 1);
      var prev := Run(step, ids, n - 1);
      var turn := step(prev.results, n - 1, ids[n - 1]);
      assert Owns(turn, ids[n - 1]);
      var o', o := Owners(step, ids, n - 1), Owners(step, ids, n);
      var r := Run(step, ids, n).results;
      forall j | 0 <= j < |o| ensures o[j] < n && r[j].messageId == ids[o[j]] {
        if j < |o'| {
          assert o[j] == o'[j] && r[j] == prev.results[j];
        } else {
          assert o[j] == n - 1 && r[j] == turn.results[j - |o'|];
        }
      }
      forall j, k | 0 <= j < k < |o| ensures o[j] <= o[k] {
        if k < |o'| {
          assert o[j] == o'[j] && o[k] == o'[k];
        } else {
          assert o[k] == n - 1;
        }
      }
    }
  }

  /** Every result carries one of the batch's ids. */
  lemma RunIds(step: Step, ids: seq<string>, n: nat)
    requires n <= |ids| && OwnResults(step)
    ensures forall j :: 0 <= j < |Run(step, ids, n).results| ==> Run(step, ids, n).results[j].messageId in ids[..n]
  {
    RunOrder(step, ids, n);
    var o := Owners(step, ids, n);
    forall j | 0 <= j < |Run(step, ids, n).results| ensures Run(step, ids, n).results[j].messageId in ids[..n] {
      assert ids[..n][o[j]] == ids[o[j]];
    }
  }

  /** Every id of the batch is fetched, whatever happened to the ids before it. */
  lemma {:induction false} EveryIdFetched(step: Step, ids: seq<string>, n: nat)
    requires n <= |ids| && FetchesEach(step)
    ensures forall k :: 0 <= k < n ==> GetCall(k) in Run(step, ids, n).calls
  {
    if n > 0 {
      EveryIdFetched(step, ids, n - 1);
      var prev := Run(step, ids, n - 1);
      var turn := step(prev.results, n - 1, ids[n - 1]);
      assert FetchesFirst(turn, n - 1);
      assert (prev.calls + turn.calls)[|prev.calls|] == GetCall(n - 1);
      forall k | 0 <= k < n - 1 ensures GetCall(k) in prev.calls + turn.calls {
        assert GetCall(k) in prev.calls;
      }
    }
  }

  /** Later turns only append: the log after `n` ids extends the log after `m`. */
  lemma {:induction false} RunPrefix(step: Step, ids: seq<string>, m: nat, n: nat)
    requires m <= n <= |ids|
    ensures var small, big := Run(step, ids, m), Run(step, ids, n);
      |small.results| <= |big.results| && big.results[..|small.results|] == small.results
      && |small.calls| <= |big.calls| && big.calls[..|small.calls|] == small.calls
    decreases n - m
  {
    if m < n {
      RunPrefix(step, ids, m, n - 1);
      var mid, big, small := Run(step, ids, n - 1), Run(step, ids, n), Run(step, ids, m);
      assert big.results[..|mid.results|] == mid.results;
      assert big.calls[..|mid.calls|] == mid.calls;
      assert big.results[..|small.results|] == mid.results[..|small.results|];
      assert big.calls[..|small.calls|] == mid.calls[..|small.calls|];
    }
  }

  /** A turn that pushes exactly `failure` leaves it in the final results. */
  lemma PushedStays(step: Step, ids: seq<string>, k: nat, failure: Outcome)
    requires k < |ids| && step(Run(step, ids, k).results, k, ids[k]).results == [failure]
    ensures failure in Run(step, ids, |ids|).results
  {
    RunPrefix(step, ids, k + 1, |ids|);
    var after := Run(step, ids, k + 1).results;
    assert after[|after| - 1] == failure;
    var all := Run(step, ids, |ids|).results;
    assert all[|after| - 1] == after[|after| - 1];
  }

  /** A throw from `messages.get` for one message records a failure for it, and the batch goes on with the later ids. */
  lemma FailureRecorded(check: Check, ids: seq<string>, k: nat, get: (nat, string) -> GetReply,
                        post: (nat, nat, string) -> Reply, send: (nat, string) -> Reply)
    requires k < |ids| && get(k, ids[k]).GetThrew?
    ensures Failed(ids[k], get(k, ids[k]).message) in Run(TurnStep(check, Examined(get), post, send), ids, |ids|).results
    ensures forall j :: k < j < |ids| ==> GetCall(j) in Run(TurnStep(check, Examined(get), post, send), ids, |ids|).calls
  {
    var step := TurnStep(check, Examined(get), post, send);
    var msg := get(k, ids[k]).message;
    var acc := Run(step, ids, k).results;
    assert Examined(get)(k, ids[k]) == FetchThrew(msg);
    assert step(acc, k, ids[k]) == Turn(check, acc, k, ids[k], FetchThrew(msg), post, send);
    PushedStays(step, ids, k, Failed(ids[k], msg));
    TurnStepShape(check, Examined(get), post, send);
    EveryIdFetched(step, ids, |ids|);
  }

  predicate Distinct(ids: seq<string>) {
    forall i, j :: 0 <= i < j < |ids| ==> ids[i] != ids[j]
  }

  /** With distinct ids, no result recorded before position `n` carries the id at `n`. */
  lemma FreshId(step: Step, ids: seq<string>, n: nat)
    requires n < |ids| && Distinct(ids) && OwnResults(step)
    ensures FirstFor(Run(step, ids, n).results, ids[n]).None?
  {
    RunOrder(step, ids, n);
    var r, o := Run(step, ids, n).results, Owners(step, ids, n);
    forall j | 0 <= j < |r| ensures r[j].messageId != ids[n] {
      assert r[j].messageId == ids[o[j]] && o[j] < n;
    }
  }

  /**
   * When every turn pushes at most one result, or every turn for a fresh id
   * does and the ids are distinct, each position contributes at most one
   * result: the owners strictly increase, so there are at most as many
   * results as ids.
   */
  lemma {:induction false} AtMostOnePerPosition(step: Step, ids: seq<string>, n: nat)
    requires n <= |ids| && OwnResults(step)
    requires AtMostOne(step) || (AtMostOneWhenFresh(step) && Distinct(ids))
    ensures var o := Owners(step, ids, n); forall j, k :: 0 <= j < k < |o| ==> o[j] < o[k]
    ensures |Run(step, ids, n).results| <= n
  {
    if n > 0 {
      AtMostOnePerPosition(step, ids, n - 1);
      RunOrder(step, ids, n - 1);
      var prev := Run(step, ids, n - 1);
      if !AtMostOne(step) {
        FreshId(step, ids, n - 1);
      }
      var turn := step(prev.results, n - 1, ids[n - 1]);
      assert |turn.results| <= 1;
      var o', o := Owners(step, ids, n - 1), Owners(step, ids, n);
      forall j, k | 0 <= j < k < |o| ensures o[j] < o[k] {
        if k < |o'| {
          assert o[j] == o'[j] && o[k] == o'[k];
        } else {
          assert j < |o'| && o[j] == o'[j] && o'[j] < n - 1 && o[k] == n - 1;
        }
      }
    }
  }

  /**
   * With the per-message check, whatever the ids, each batch position gets at
   * most one result: result `j` belongs to position `o[j]`, carries that
   * position's id, and the positions strictly increase.
   */
  lemma PerMessageAtMostOne(ids: seq<string>, fetch: (nat, string) -> Fetch,
                            post: (nat, nat, string) -> Reply, send: (nat, string) -> Reply)
    ensures var r := Run(TurnStep(PerMessage, fetch, post, send), ids, |ids|).results;
      var o := Owners(TurnStep(PerMessage, fetch, post, send), ids, |ids|);
      |o| == |r| && (forall j :: 0 <= j < |o| ==> o[j] < |ids| && r[j].messageId == ids[o[j]])
      && (forall j, k :: 0 <= j < k < |o| ==> o[j] < o[k])
    ensures |Run(TurnStep(PerMessage, fetch, post, send), ids, |ids|).results| <= |ids|
  {
    var step := TurnStep(PerMessage, fetch, post, send);
    TurnStepShape(PerMessage, fetch, post, send);
    TurnStepSingle(PerMessage, fetch, post, send);
    RunOrder(step, ids, |ids|);
    AtMostOnePerPosition(step, ids, |ids|);
  }

  /**
   * As written, a batch of distinct ids gets at most one result per position,
   * and so no two results carry the same id.
   */
  lemma DistinctAtMostOne(ids: seq<string>, fetch: (nat, string) -> Fetch,
                          post: (nat, nat, string) -> Reply, send: (nat, string) -> Reply)
    requires Distinct(ids)
    ensures var r := Run(TurnStep(AsWritten, fetch, post, send), ids, |ids|).results;
      var o := Owners(TurnStep(AsWritten, fetch, post, send), ids, |ids|);
      |o| == |r| && (forall j :: 0 <= j < |o| ==> o[j] < |ids| && r[j].messageId == ids[o[j]])
      && (forall j, k :: 0 <= j < k < |o| ==> o[j] < o[k])
    ensures var r := Run(TurnStep(AsWritten, fetch, post, send), ids, |ids|).results;
      forall j, k :: 0 <= j < k < |r| ==> r[j].messageId != r[k].messageId
    ensures |Run(TurnStep(AsWritten, fetch, post, send), ids, |ids|).results| <= |ids|
  {
    var step := TurnStep(AsWritten, fetch, post, send);
    TurnStepShape(AsWritten, fetch, post, send);
    TurnStepSingle(AsWritten, fetch, post, send);
    RunOrder(step, ids, |ids|);
    AtMostOnePerPosition(step, ids, |ids|);
    var r, o := Run(step, ids, |ids|).results, Owners(step, ids, |ids|);
    forall j, k | 0 <= j < k < |r| ensures r[j].messageId != r[k].messageId {
      assert o[j] < o[k] && r[j].messageId == ids[o[j]] && r[k].messageId == ids[o[k]];
    }
  }

  /** For an id with no earlier result, a turn is the same under both checks. */
  lemma TurnAgrees(acc: seq<Outcome>, pos: nat, id: string, fetch: Fetch,
                   post: (nat, nat, string) -> Reply, send: (nat, string) -> Reply)
    requires FirstFor(acc, id).None?
    ensures Turn(PerMessage, acc, pos, id, fetch, post, send) == Turn(AsWritten, acc, pos, id, fetch, post, send)
  {
    if fetch.Found? {
      var tier := HttpFrom(pos, fetch.methods.http, 0, post);
      NeedsMailFresh(acc, id, if tier.ok then [Succeeded(id, Http)] else []);
    }
  }

  /** Two loop bodies that agree on every fresh id give the same batch over distinct ids. */
  lemma {:induction false} AgreeOnFresh(step: Step, step': Step, ids: seq<string>, n: nat)
    requires n <= |ids| && Distinct(ids) && OwnResults(step)
    requires forall acc, pos, id :: FirstFor(acc, id).None? ==> step(acc, pos, id) == step'(acc, pos, id)
    ensures Run(step, ids, n) == Run(step', ids, n)
  {
    if n > 0 {
      AgreeOnFresh(step, step', ids, n - 1);
      AgreeAt(step, step', ids, n - 1);
    }
  }

  /** The turn at position `k` of a batch of distinct ids is for a fresh id, so both loop bodies agree on it. */
  lemma AgreeAt(step: Step, step': Step, ids: seq<string>, k: nat)
    requires k < |ids| && Distinct(ids) && OwnResults(step)
    requires forall acc, pos, id :: FirstFor(acc, id).None? ==> step(acc, pos, id) == step'(acc, pos, id)
    ensures var acc := Run(step, ids, k).results; step(acc, k, ids[k]) == step'(acc, k, ids[k])
  {
    FreshId(step, ids, k);
  }

  /** With distinct ids the per-message check changes nothing: the two batches are the same. */
  lemma PerMessageAgrees(ids: seq<string>, fetch: (nat, string) -> Fetch,
                         post: (nat, nat, string) -> Reply, send: (nat, string) -> Reply)
    requires Distinct(ids)
    ensures Run(TurnStep(PerMessage, fetch, post, send), ids, |ids|) == Run(TurnStep(AsWritten, fetch, post, send), ids, |ids|)
  {
    var written, corrected := TurnStep(AsWritten, fetch, post, send), TurnStep(PerMessage, fetch, post, send);
    TurnStepShape(AsWritten, fetch, post, send);
    forall acc, pos: nat, id | FirstFor(acc, id).None? ensures written(acc, pos, id) == corrected(acc, pos, id) {
      TurnAgrees(acc, pos, id, fetch(pos, id), post, send);
    }
    AgreeOnFresh(written, corrected, ids, |ids|);
  }

  // ---- a message id listed twice ----

  /**
   * Oracles for a batch that lists one id twice: the first fetch throws
   * `msg`, the second finds one bracketed web link; every POST and every
   * send returns.
   */
  function RepeatedGet(link: string, msg: string): (nat, string) -> GetReply {
    (pos: nat, id: string) => if pos == 0 then GetThrew(msg) else Got([Header(ListUnsubscribeName, "<" + link + ">")])
  }

  function PostReturns(pos: nat, attempt: nat, url: string): Reply {
    Returned
  }

  function SendReturns(pos: nat, raw: string): Reply {
    Returned
  }

  /** The repeated-id batch, up to the POST of its second turn. */
  lemma RepeatedFetches(link: string, msg: string, id: string)
    requires IsHttp(link) && ',' !in link && '<' !in link && '>' !in link
    ensures Examined(RepeatedGet(link, msg))(0, id) == FetchThrew(msg)
    ensures Examined(RepeatedGet(link, msg))(1, id).Found?
    ensures Examined(RepeatedGet(link, msg))(1, id).methods == Methods([link], [])
    ensures HttpFrom(1, [link], 0, PostReturns) == Tier(true, [PostCall(1, link)])
  {
    var headers := [Header(ListUnsubscribeName, "<" + link + ">")];
    assert RepeatedGet(link, msg)(0, id) == GetThrew(msg);
    assert Examine(GetThrew(msg)) == FetchThrew(msg);
    assert RepeatedGet(link, msg)(1, id) == Got(headers);
    assert Lookup(headers, ListUnsubscribeName) == Some("<" + link + ">");
    ParseSingleLink(link);
  }

  /**
   * As written, `[id, id]` with a failing first fetch and a returning web
   * POST on the second yields three results for two ids: `find` sees the first
   * turn's failure, so the second turn also sends the fallback mail.
   */
  lemma RepeatedIdAsWritten(link: string, msg: string, id: string)
    requires IsHttp(link) && ',' !in link && '<' !in link && '>' !in link
    ensures Run(TurnStep(AsWritten, Examined(RepeatedGet(link, msg)), PostReturns, SendReturns), [id, id], 2).results
      == [Failed(id, msg), Succeeded(id, Http), Succeeded(id, Mailto)]
  {
    RepeatedFetches(link, msg, id);
    var fetch := Examined(RepeatedGet(link, msg));
    var step := TurnStep(AsWritten, fetch, PostReturns, SendReturns);
    var first := Run(step, [id, id], 1);
    assert [id, id][0] == id && [id, id][1] == id;
    assert Run(step, [id, id], 0) == Log([], []);
    assert step([], 0, id) == Turn(AsWritten, [], 0, id, FetchThrew(msg), PostReturns, SendReturns);
    assert first.results == [Failed(id, msg)];
    assert step(first.results, 1, id) == Turn(AsWritten, first.results, 1, id, fetch(1, id), PostReturns, SendReturns);
    assert FirstFor(first.results + [Succeeded(id, Http)], id) == Some(Failed(id, msg));
  }

  /**
   * With the per-message check the same batch yields one result per batch
   * position: the failure of the first fetch and the web success of the second.
   */
  lemma RepeatedIdPerMessage(link: string, msg: string, id: string)
    requires IsHttp(link) && ',' !in link && '<' !in link && '>' !in link
    ensures Run(TurnStep(PerMessage, Examined(RepeatedGet(link, msg)), PostReturns, SendReturns), [id, id], 2).results
      == [Failed(id, msg), Succeeded(id, Http)]
  {
    RepeatedFetches(link, msg, id);
    var fetch := Examined(RepeatedGet(link, msg));
    var step := TurnStep(PerMessage, fetch, PostReturns, SendReturns);
    var first := Run(step, [id, id], 1);
    assert [id, id][0] == id && [id, id][1] == id;
    assert Run(step, [id, id], 0) == Log([], []);
    assert step([], 0, id) == Turn(PerMessage, [], 0, id, FetchThrew(msg), PostReturns, SendReturns);
    assert first.results == [Failed(id, msg)];
    assert step(first.results, 1, id) == Turn(PerMessage, first.results, 1, id, fetch(1, id), PostReturns, SendReturns);
  }
}
