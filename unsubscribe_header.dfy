/**
 * `parseUnsubscribeHeader`: the value of a `List-Unsubscribe` header (section
 * 3.2 of RFC 2369) split into the `http` and the `mailto` candidates, in the
 * order they are written.
 *
 * A header that starts with `<` and ends with `>` is split on commas, each
 * piece trimmed and stripped of its first and last character. Any other header
 * is scanned with the global regular expression `/<([^>]*)>/g`, whose matches
 * run from a `<` to the next `>`. Either way, tokens starting with `http` go to
 * the first list, tokens starting with `mailto` (prefix kept) to the second,
 * and all others are dropped.
 */
module UnsubscribeHeader {
  import opened Wrappers
  import opened Text

  /** The two candidate lists the parser returns. */
  datatype Methods = Methods(http: seq<string>, mailto: seq<string>)

  predicate IsHttp(t: string) {
    StartsWith(t, "http")
  }

  predicate IsMailto(t: string) {
    StartsWith(t, "mailto")
  }

  /** No token has both prefixes: they differ in their first character. */
  lemma PrefixesExclusive(t: string)
    ensures !(IsHttp(t) && IsMailto(t))
  {
    if IsHttp(t) {
      assert t[..4][0] == t[0] == 'h';
    }
  }

  /** Sorting tokens by prefix, as the two `filter` calls (or the `if`/`else if` pushes) do. */
  function Classify(tokens: seq<string>): Methods {
    Methods(Filter(tokens, IsHttp), Filter(tokens, IsMailto))
  }

  /**
   * Each list holds exactly the tokens with its prefix; no token is in both
   * lists and a token with neither prefix is in neither.
   */
  lemma ClassifyMembers(tokens: seq<string>)
    ensures forall t :: t in Classify(tokens).http <==> t in tokens && IsHttp(t)
    ensures forall t :: t in Classify(tokens).mailto <==> t in tokens && IsMailto(t)
    ensures forall t :: !(t in Classify(tokens).http && t in Classify(tokens).mailto)
    ensures |Classify(tokens).http| + |Classify(tokens).mailto| <= |tokens|
  {
    ClassifyCount(tokens);
    FilterMembers(tokens, IsHttp);
    FilterMembers(tokens, IsMailto);
    forall t | t in Classify(tokens).http ensures t !in Classify(tokens).mailto {
      PrefixesExclusive(t);
    }
  }

  lemma {:induction false} ClassifyCount(tokens: seq<string>)
    ensures |Filter(tokens, IsHttp)| + |Filter(tokens, IsMailto)| <= |tokens|
    decreases |tokens|
  {
    if |tokens| > 0 {
      PrefixesExclusive(tokens[0]);
      ClassifyCount(tokens[1..]);
    }
  }

  /** Classifying one token and then the rest. */
  lemma ClassifyCons(t: string, rest: seq<string>)
    ensures Classify([t] + rest).http == (if IsHttp(t) then [t] else []) + Classify(rest).http
    ensures Classify([t] + rest).mailto == (if IsMailto(t) then [t] else []) + Classify(rest).mailto
  {
    assert ([t] + rest)[0] == t;
    assert ([t] + rest)[1..] == rest;
  }

  // ---- the simple shape: split / trim / slice ----

  /** `header.startsWith('<') && header.endsWith('>')` */
  predicate IsSimpleShape(header: string) {
    StartsWith(header, "<") && EndsWith(header, ">")
  }

  /** `header.split(',').map(s => s.trim().slice(1, -1))` */
  function SimpleTokens(header: string): seq<string> {
    var pieces := Split(header, ',');
    seq(|pieces|, i requires 0 <= i < |pieces| => Inner(Trim(pieces[i])))
  }

  // ---- the bracket scan: /<([^>]*)>/g ----

  /** A match of `<([^>]*)>` from position `p` to position `q`. */
  predicate IsSpan(s: string, p: int, q: int) {
    0 <= p < q < |s| && s[p] == '<' && s[q] == '>' && forall k :: p < k < q ==> s[k] != '>'
  }

  /** `s.indexOf(c, from)` */
  function IndexOf(s: string, c: char, from: nat): (r: Option<nat>)
    requires from <= |s|
    ensures r.Some? ==> from <= r.value < |s| && s[r.value] == c
    decreases |s| - from
  {
    if from == |s| then None
    else if s[from] == c then Some(from)
    else IndexOf(s, c, from + 1)
  }

  /** IndexOf finds the first occurrence at or after `from`, and misses only when there is none. */
  lemma {:induction false} IndexOfFirst(s: string, c: char, from: nat)
    requires from <= |s|
    ensures IndexOf(s, c, from).Some? ==> forall k :: from <= k < IndexOf(s, c, from).value ==> s[k] != c
    ensures IndexOf(s, c, from).None? ==> forall k :: from <= k < |s| ==> s[k] != c
    decreases |s| - from
  {
    if from < |s| && s[from] != c {
      IndexOfFirst(s, c, from + 1);
    }
  }

  /**
   * `regex.exec(s)` with `regex.lastIndex == from`: the first `<` at or after
   * `from` and the first `>` after it, or no match when either is missing.
   */
  function Exec(s: string, from: nat): (r: Option<(nat, nat)>)
    requires from <= |s|
    ensures r.Some? ==> from <= r.value.0 < r.value.1 < |s|
  {
    match IndexOf(s, '<', from)
    case None => None
    case Some(p) =>
      match IndexOf(s, '>', p + 1)
      case None => None
      case Some(q) => Some((p, q))
  }

  /**
   * Exec follows the leftmost-match rule of regular expressions: it returns a
   * match, no match starts between `from` and it, and it returns none only
   * when no match starts at or after `from`. (If the first `<` has no `>` after
   * it, no later `<` has one either.)
   */
  lemma ExecLeftmost(s: string, from: nat)
    requires from <= |s|
    ensures Exec(s, from).Some? ==> IsSpan(s, Exec(s, from).value.0, Exec(s, from).value.1)
    ensures Exec(s, from).Some? ==> forall p, q :: from <= p < Exec(s, from).value.0 ==> !IsSpan(s, p, q)
    ensures Exec(s, from).None? ==> forall p, q :: from <= p ==> !IsSpan(s, p, q)
  {
    IndexOfFirst(s, '<', from);
    match IndexOf(s, '<', from)
    case None =>
    case Some(p) => IndexOfFirst(s, '>', p + 1);
  }

  /** For a given start, a match can end only at the first `>` after it. */
  lemma SpanEndUnique(s: string, p: int, q: int, q': int)
    requires IsSpan(s, p, q) && IsSpan(s, p, q')
    ensures q == q'
  {
  }

  /**
   * The capture groups of the successive matches from `from` on, left to
   * right, each search resuming after the previous match's `>`.
   */
  function SpansFrom(s: string, from: nat): seq<string>
    requires from <= |s|
    decreases |s| - from
  {
    match Exec(s, from)
    case None => []
    case Some((p, q)) => [s[p + 1..q]] + SpansFrom(s, q + 1)
  }

  /** All capture groups of the global expression over `s`. */
  function Spans(s: string): seq<string> {
    SpansFrom(s, 0)
  }

  /** No captured token contains `>`. */
  lemma {:induction false} SpansNoClose(s: string, from: nat)
    requires from <= |s|
    ensures forall i :: 0 <= i < |SpansFrom(s, from)| ==> '>' !in SpansFrom(s, from)[i]
    decreases |s| - from
  {
    if Exec(s, from).Some? {
      var (p, q) := Exec(s, from).value;
      assert IndexOf(s, '>', p + 1) == Some(q);
      IndexOfFirst(s, '>', p + 1);
      var t := s[p + 1..q];
      assert forall k :: 0 <= k < |t| ==> t[k] == s[p + 1 + k];
      SpansStep(s, from, p, q);
      SpansNoClose(s, q + 1);
    }
  }

  /** The tokens the header lists, in order, by whichever of the two shapes it takes. */
  function Tokens(header: string): seq<string> {
    if IsSimpleShape(header) then SimpleTokens(header) else Spans(header)
  }

  /** What `parseUnsubscribeHeader` returns. */
  function Parse(header: string): Methods {
    Classify(Tokens(header))
  }

  /**
   * The loop invariant of the scan survives one `regex.exec` step: the
   * tokens seen so far followed by the matches from the new `lastIndex` on
   * are still all the matches of the header.
   */
  lemma ScanAdvance(header: string, lastIndex: nat, p: nat, q: nat, seen: seq<string>)
    requires lastIndex <= |header| && Exec(header, lastIndex) == Some((p, q))
    requires Spans(header) == seen + SpansFrom(header, lastIndex)
    ensures Spans(header) == (seen + [header[p + 1..q]]) + SpansFrom(header, q + 1)
  {
    SpansStep(header, lastIndex, p, q);
    assert seen + ([header[p + 1..q]] + SpansFrom(header, q + 1))
      == (seen + [header[p + 1..q]]) + SpansFrom(header, q + 1);
  }

  /** Classifying one more token appends it to the list of its prefix, if any. */
  lemma ClassifySnoc(seen: seq<string>, t: string)
    ensures Classify(seen + [t]).http == Classify(seen).http + (if IsHttp(t) then [t] else [])
    ensures Classify(seen + [t]).mailto == Classify(seen).mailto + (if IsMailto(t) then [t] else [])
  {
    FilterAppend(seen, [t], IsHttp);
    FilterAppend(seen, [t], IsMailto);
    assert [t][1..] == [];
  }

  /** The `while ((match = regex.exec(header)) !== null)` loop of `parseUnsubscribeHeader`. */
  method Scan(header: string) returns (result: Methods)
    ensures result == Classify(Spans(header))
  {
    var http: seq<string>, mailto: seq<string> := [], [];
    var lastIndex: nat := 0;
    ghost var seen: seq<string> := [];
    var found := Exec(header, lastIndex);
    while found.Some?
      invariant lastIndex <= |header|
      invariant found == Exec(header, lastIndex)
      invariant Spans(header) == seen + SpansFrom(header, lastIndex)
      invariant Methods(http, mailto) == Classify(seen)
      decreases |header| - lastIndex
    {
      var (p, q) := found.value;
      var url := header[p + 1..q];
      ScanAdvance(header, lastIndex, p, q, seen);
      ClassifySnoc(seen, url);
      PrefixesExclusive(url);
      if StartsWith(url, "http") {
        http := http + [url];
        assert mailto + [] == mailto;
      } else if StartsWith(url, "mailto") {
        mailto := mailto + [url];
        assert http + [] == http;
      } else {
        assert http + [] == http && mailto + [] == mailto;
      }
      seen := seen + [url];
      lastIndex := q + 1;
      found := Exec(header, lastIndex);
    }
    assert seen + [] == seen;
    result := Methods(http, mailto);
  }

  /** `parseUnsubscribeHeader` as the controller runs it. */
  method ParseUnsubscribeHeader(header: string) returns (result: Methods)
    ensures result == Parse(header)
  {
    if StartsWith(header, "<") && EndsWith(header, ">") {
      var urls := SimpleTokens(header);
      result := Methods(Filter(urls, IsHttp), Filter(urls, IsMailto));
    } else {
      result := Scan(header);
    }
  }

  // ---- headers written as a comma-separated list of bracketed URLs ----

  predicate IsBlank(s: string) {
    forall k :: 0 <= k < |s| ==> IsJsWhitespace(s[k])
  }

  /** One list element: a bracketed token with optional whitespace around it. */
  datatype Entry = Entry(before: string, token: string, after: string)

  /** The padding is whitespace and the token holds no comma and no angle bracket. */
  predicate WellFormed(e: Entry) {
    IsBlank(e.before) && IsBlank(e.after) && ',' !in e.token && '<' !in e.token && '>' !in e.token
  }

  function Render(e: Entry): string {
    e.before + "<" + e.token + ">" + e.after
  }

  /** The header value listing the entries, separated by commas. */
  function ListHeader(entries: seq<Entry>): string {
    Join(seq(|entries|, i requires 0 <= i < |entries| => Render(entries[i])), ',')
  }

  function TokensOf(entries: seq<Entry>): seq<string> {
    seq(|entries|, i requires 0 <= i < |entries| => entries[i].token)
  }

  /** Whitespace is never an angle bracket or a comma. */
  lemma BlankNoDelimiter(c: char)
    requires IsJsWhitespace(c)
    ensures c != '<' && c != '>' && c != ','
  {
  }

  /** IndexOf stops at the first occurrence. */
  lemma {:induction false} IndexOfAt(s: string, c: char, from: nat, i: nat)
    requires from <= i < |s| && s[i] == c
    requires forall k :: from <= k < i ==> s[k] != c
    ensures IndexOf(s, c, from) == Some(i)
    decreases i - from
  {
    if from < i {
      IndexOfAt(s, c, from + 1, i);
    }
  }

  /** IndexOf skips a stretch free of `c`. */
  lemma {:induction false} IndexOfPast(s: string, c: char, a: nat, b: nat)
    requires a <= b <= |s|
    requires forall k :: a <= k < b ==> s[k] != c
    ensures IndexOf(s, c, a) == IndexOf(s, c, b)
    decreases b - a
  {
    if a < b {
      IndexOfPast(s, c, a + 1, b);
    }
  }

  /** One match of the scan: its token, then the scan after its `>`. */
  lemma SpansStep(s: string, from: nat, p: nat, q: nat)
    requires from <= |s| && Exec(s, from) == Some((p, q))
    ensures SpansFrom(s, from) == [s[p + 1..q]] + SpansFrom(s, q + 1)
  {
  }

  /** Text free of `<` holds no match start: the scan goes on as from its end. */
  lemma SpansPast(s: string, a: nat, b: nat)
    requires a <= b <= |s|
    requires forall k :: a <= k < b ==> s[k] != '<'
    ensures SpansFrom(s, a) == SpansFrom(s, b)
  {
    IndexOfPast(s, '<', a, b);
    assert Exec(s, a) == Exec(s, b);
  }

  /** A scan started at the end of the string finds nothing. */
  lemma SpansAtEnd(s: string)
    ensures SpansFrom(s, |s|) == []
  {
    assert IndexOf(s, '<', |s|) == None;
  }

  lemma Associative(a: string, b: string, c: string)
    ensures a + (b + c) == a + b + c
  {
  }

  /** A list of two or more entries renders as its first entry, a comma and the rest. */
  lemma ListHeaderCons(entries: seq<Entry>)
    requires |entries| >= 2
    ensures ListHeader(entries) == Render(entries[0]) + ([','] + ListHeader(entries[1..]))
  {
    var more := entries[1..];
    var rendered := seq(|entries|, i requires 0 <= i < |entries| => Render(entries[i]));
    assert rendered[1..] == seq(|more|, i requires 0 <= i < |more| => Render(more[i]));
  }

  /**
   * A match from `o`: the first `<` at `p`, the first `>` after it at `q`, and
   * no `<` again before `m`. The scan takes its token and goes on as from `m`.
   */
  lemma ScanToken(s: string, o: nat, p: nat, q: nat, m: nat)
    requires o <= p < q < m <= |s|
    requires s[p] == '<' && s[q] == '>'
    requires forall k :: o <= k < p ==> s[k] != '<'
    requires forall k :: p < k < q ==> s[k] != '>'
    requires forall k :: q < k < m ==> s[k] != '<'
    ensures SpansFrom(s, o) == [s[p + 1..q]] + SpansFrom(s, m)
  {
    IndexOfAt(s, '<', o, p);
    IndexOfAt(s, '>', p + 1, q);
    assert Exec(s, o) == Some((p, q));
    SpansStep(s, o, p, q);
    SpansPast(s, q + 1, m);
  }

  /** Where the brackets of a well-formed entry rendered at offset `|g|` fall. */
  lemma EntryLayout(s: string, g: string, e: Entry, z: string, p: nat, q: nat, m: nat)
    requires WellFormed(e) && s == g + Render(e) + z
    requires p == |g| + |e.before| && q == p + 1 + |e.token| && m == |g| + |Render(e)|
    ensures |g| <= p < q < m <= |s|
    ensures s[p] == '<' && s[q] == '>'
    ensures forall k :: |g| <= k < p ==> s[k] != '<'
    ensures forall k :: p < k < q ==> s[k] != '>'
    ensures forall k :: q < k < m ==> s[k] != '<'
    ensures s[p + 1..q] == e.token
  {
    forall k | |g| <= k < p ensures s[k] != '<' {
      assert s[k] == e.before[k - |g|];
      BlankNoDelimiter(e.before[k - |g|]);
    }
    forall k | p < k < q ensures s[k] != '>' {
      assert s[k] == e.token[k - p - 1];
    }
    forall k | q < k < m ensures s[k] != '<' {
      assert s[k] == e.after[k - q - 1];
      BlankNoDelimiter(e.after[k - q - 1]);
    }
    assert s[p + 1..q] == e.token;
  }

  /** `t` is what `s` holds from offset `o` to its end, stated character by character. */
  predicate Suffix(s: string, o: nat, t: string) {
    o + |t| == |s| && forall k :: 0 <= k < |t| ==> s[o + k] == t[k]
  }

  lemma SuffixSplit(s: string, o: nat, t: string)
    requires Suffix(s, o, t)
    ensures s == s[..o] + t
  {
    forall k | o <= k < |s| ensures s[k] == t[k - o] {
      assert s[o + (k - o)] == t[k - o];
    }
  }

  lemma SplitSuffix(s: string, g: string, t: string)
    requires s == g + t
    ensures Suffix(s, |g|, t)
  {
  }

  /** A suffix made of `r` then `z`: the text is split there, and `z` is the suffix after `r`. */
  lemma SuffixEntry(s: string, o: nat, r: string, z: string)
    requires Suffix(s, o, r + z)
    ensures s == s[..o] + r + z
    ensures Suffix(s, o + |r|, z)
  {
    var g := s[..o];
    SuffixSplit(s, o, r + z);
    Associative(g, r, z);
    SplitSuffix(s, g + r, z);
  }

  /** The same facts for an entry that starts the suffix of `s` at offset `o`. */
  lemma EntryLayoutAt(s: string, o: nat, e: Entry, z: string, p: nat, q: nat, m: nat)
    requires WellFormed(e) && Suffix(s, o, Render(e) + z)
    requires p == o + |e.before| && q == p + 1 + |e.token| && m == o + |Render(e)|
    ensures o <= p < q < m <= |s|
    ensures s[p] == '<' && s[q] == '>'
    ensures forall k :: o <= k < p ==> s[k] != '<'
    ensures forall k :: p < k < q ==> s[k] != '>'
    ensures forall k :: q < k < m ==> s[k] != '<'
    ensures s[p + 1..q] == e.token
    ensures Suffix(s, m, z)
  {
    SuffixEntry(s, o, Render(e), z);
    EntryLayout(s, s[..o], e, z, p, q, m);
  }

  /** A suffix that starts with a comma. */
  lemma CommaThen(s: string, m: nat, rest: string)
    requires Suffix(s, m, [','] + rest)
    ensures m < |s| && s[m] == ',' && Suffix(s, m + 1, rest)
  {
    assert s[m + 0] == ([','] + rest)[0];
    forall k | 0 <= k < |rest| ensures s[m + 1 + k] == rest[k] {
      assert s[m + (k + 1)] == ([','] + rest)[k + 1];
    }
  }

  /** An entry at the start of the suffix from `o`: its token, then the scan of what follows it. */
  lemma EntryScanAt(s: string, o: nat, e: Entry, z: string)
    requires WellFormed(e) && Suffix(s, o, Render(e) + z)
    ensures Suffix(s, o + |Render(e)|, z)
    ensures SpansFrom(s, o) == [e.token] + SpansFrom(s, o + |Render(e)|)
  {
    var p, q, m := o + |e.before|, o + |e.before| + 1 + |e.token|, o + |Render(e)|;
    EntryLayoutAt(s, o, e, z, p, q, m);
    ScanToken(s, o, p, q, m);
  }

  /** A one-entry list header that ends `s` from `o` is scanned into its token. */
  lemma SpansLastAt(s: string, o: nat, e: Entry)
    requires WellFormed(e) && Suffix(s, o, Render(e))
    ensures SpansFrom(s, o) == [e.token]
  {
    assert Render(e) + "" == Render(e);
    EntryScanAt(s, o, e, "");
    SpansAtEnd(s);
  }

  /** An entry and a comma at the start of the suffix from `o`: its token, then the scan after the comma. */
  lemma SpansNextAt(s: string, o: nat, e: Entry, rest: string)
    requires WellFormed(e) && Suffix(s, o, Render(e) + ([','] + rest))
    ensures Suffix(s, o + |Render(e)| + 1, rest)
    ensures SpansFrom(s, o) == [e.token] + SpansFrom(s, o + |Render(e)| + 1)
  {
    var m := o + |Render(e)|;
    EntryScanAt(s, o, e, [','] + rest);
    CommaThen(s, m, rest);
    SpansPast(s, m, m + 1);
  }

  lemma TokensOfCons(entries: seq<Entry>)
    requires |entries| >= 1
    ensures TokensOf(entries) == [entries[0].token] + TokensOf(entries[1..])
  {
  }

  lemma WellFormedTail(entries: seq<Entry>)
    requires |entries| >= 1 && forall i :: 0 <= i < |entries| ==> WellFormed(entries[i])
    ensures forall i :: 0 <= i < |entries| - 1 ==> WellFormed(entries[1..][i])
  {
    forall i | 0 <= i < |entries| - 1 ensures WellFormed(entries[1..][i]) {
      assert entries[1..][i] == entries[i + 1];
    }
  }

  /** A list header that makes up the suffix of `s` from `o` is scanned into its tokens. */
  lemma {:induction false} SpansListAt(s: string, o: nat, entries: seq<Entry>)
    requires |entries| >= 1 && forall i :: 0 <= i < |entries| ==> WellFormed(entries[i])
    requires Suffix(s, o, ListHeader(entries))
    ensures SpansFrom(s, o) == TokensOf(entries)
    decreases |entries|
  {
    var e := entries[0];
    assert WellFormed(e);
    if |entries| == 1 {
      assert ListHeader(entries) == Render(e);
      SpansLastAt(s, o, e);
      assert TokensOf(entries) == [e.token];
    } else {
      ListHeaderCons(entries);
      SpansNextAt(s, o, e, ListHeader(entries[1..]));
      WellFormedTail(entries);
      SpansListAt(s, o + |Render(e)| + 1, entries[1..]);
      TokensOfCons(entries);
    }
  }

  /** The scan of a list header yields the tokens of its entries. */
  lemma SpansList(entries: seq<Entry>)
    requires |entries| >= 1 && forall i :: 0 <= i < |entries| ==> WellFormed(entries[i])
    ensures Spans(ListHeader(entries)) == TokensOf(entries)
  {
    var s := ListHeader(entries);
    assert s == "" + s;
    SplitSuffix(s, "", s);
    SpansListAt(s, 0, entries);
  }

  lemma SplitList(entries: seq<Entry>)
    requires |entries| >= 1 && forall i :: 0 <= i < |entries| ==> WellFormed(entries[i])
    ensures Split(ListHeader(entries), ',')
      == seq(|entries|, i requires 0 <= i < |entries| => Render(entries[i]))
  {
    var rendered := seq(|entries|, i requires 0 <= i < |entries| => Render(entries[i]));
    forall i | 0 <= i < |rendered| ensures ',' !in rendered[i] {
      var e := entries[i];
      forall k | 0 <= k < |e.before| ensures e.before[k] != ',' {
        assert IsJsWhitespace(e.before[k]);
      }
      forall k | 0 <= k < |e.after| ensures e.after[k] != ',' {
        assert IsJsWhitespace(e.after[k]);
      }
    }
    SplitJoin(rendered, ',');
  }

  /** Trimming and un-bracketing a rendered entry gives its token. */
  lemma InnerTrimEntry(e: Entry)
    requires WellFormed(e)
    ensures Inner(Trim(Render(e))) == e.token
  {
    var b := "<" + e.token + ">";
    assert Render(e) == e.before + b + e.after;
    TrimPadding(e.before, b, e.after);
    assert b[1..|b| - 1] == e.token;
  }

  /** The split branch of a list header also yields the tokens of its entries. */
  lemma SimpleList(entries: seq<Entry>)
    requires |entries| >= 1 && forall i :: 0 <= i < |entries| ==> WellFormed(entries[i])
    ensures SimpleTokens(ListHeader(entries)) == TokensOf(entries)
  {
    SplitList(entries);
    forall i | 0 <= i < |entries| ensures SimpleTokens(ListHeader(entries))[i] == entries[i].token {
      InnerTrimEntry(entries[i]);
    }
  }

  /**
   * A header listing bracketed URLs, comma-separated and padded with
   * whitespace, parses to its URLs sorted by scheme, in order, whichever of
   * the two branches it takes.
   */
  lemma ParseList(entries: seq<Entry>)
    requires |entries| >= 1 && forall i :: 0 <= i < |entries| ==> WellFormed(entries[i])
    ensures Tokens(ListHeader(entries)) == TokensOf(entries)
    ensures Parse(ListHeader(entries)) == Classify(TokensOf(entries))
  {
    if IsSimpleShape(ListHeader(entries)) {
      SimpleList(entries);
    } else {
      SpansList(entries);
    }
  }

  /** A header with no complete `<…>` span (no `>` after any `<`) yields no candidates. */
  lemma ParseNoBrackets(header: string)
    requires forall i, j :: 0 <= i < j < |header| && header[i] == '<' ==> header[j] != '>'
    ensures Parse(header) == Methods([], [])
  {
    if |header| > 0 {
      var last := |header| - 1;
      assert header[..1][0] == header[0] && header[last..][0] == header[last];
      if |header| > 1 && header[0] == '<' {
        assert header[last] != '>';
      }
    }
    assert !IsSimpleShape(header);
    ExecLeftmost(header, 0);
    assert Exec(header, 0).None?;
  }

  /**
   * The usual two-element header, a web link and then a mail address after a
   * comma and a space, parses to that link and that address.
   */
  lemma ParseLinkAndAddress(web: string, mail: string)
    requires IsHttp(web) && ',' !in web && '<' !in web && '>' !in web
    requires IsMailto(mail) && ',' !in mail && '<' !in mail && '>' !in mail
    ensures Parse("<" + web + ">, <" + mail + ">") == Methods([web], [mail])
  {
    var e0, e1 := Entry("", web, ""), Entry(" ", mail, "");
    var entries := [e0, e1];
    assert WellFormed(e0) && WellFormed(e1);
    assert Render(e0) == "<" + web + ">";
    assert Render(e1) == " <" + mail + ">";
    ListHeaderCons(entries);
    assert entries[1..] == [e1];
    assert ListHeader([e1]) == Render(e1) by {
      assert seq(1, i requires 0 <= i < 1 => Render([e1][i])) == [Render(e1)];
    }
    assert ListHeader(entries) == "<" + web + ">, <" + mail + ">";
    ParseList(entries);
    assert TokensOf(entries) == [web] + [mail];
    PrefixesExclusive(web);
    PrefixesExclusive(mail);
    ClassifyCons(web, [mail]);
    ClassifyCons(mail, []);
    assert [web] + [] == [web] && [mail] + [] == [mail];
  }

  /** A header holding one bracketed web link parses to that link and no mail address. */
  lemma ParseSingleLink(link: string)
    requires IsHttp(link) && ',' !in link && '<' !in link && '>' !in link
    ensures Parse("<" + link + ">") == Methods([link], [])
  {
    var entry := Entry("", link, "");
    var entries := [entry];
    assert Render(entry) == "<" + link + ">";
    assert seq(|entries|, i requires 0 <= i < |entries| => Render(entries[i])) == [Render(entry)];
    assert WellFormed(entries[0]);
    ParseList(entries);
    assert TokensOf(entries) == [link];
    PrefixesExclusive(link);
    ClassifyCons(link, []);
    assert [link] + [] == [link];
  }
}
