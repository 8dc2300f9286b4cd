/**
 * The request side of the server: `SimpleRequest` and `parseRequest`, which
 * turns the bytes of one receive call into a request and never fails.
 */
module Request {
  import opened Wrappers
  import opened Seqs
  import Utf8
  import Percent

  /** `SimpleRequest`: method (`verb`, as `method` is a Dafny keyword), path (never percent-decoded), query
      dictionary and optional body bytes. */
  datatype Request = Request(verb: string, path: string, query: map<string, string>, bodyData: Option<Utf8.Bytes>)
  {
    /** `bodyString`: the body decoded as UTF-8. */
    function BodyString(): Option<string> {
      match bodyData
      case None => None
      case Some(d) => Utf8.Decode(d)
    }
  }

  /** The empty line that ends the header block. */
  const HeaderEnd: string := "\r\n\r\n"

  /** What every degenerate input parses as. */
  const Fallback: Request := Request("GET", "/", map[], None)

  /** Number of leading `x` characters of `s`. */
  function LeadingCount(s: string, x: char): (n: nat)
    ensures n <= |s|
    ensures forall i :: 0 <= i < n ==> s[i] == x
    ensures n < |s| ==> s[n] != x
  {
    if |s| > 0 && s[0] == x then 1 + LeadingCount(s[1..], x) else 0
  }

  /** `pair.split(separator: "=", maxSplits: 1)` with empty pieces omitted,
      when it yields exactly two pieces. An empty piece does not count as a
      split, so leading "=" characters are skipped; a pair with no "=" after
      its key, or with nothing after that "=", yields fewer than two pieces. */
  function KeyValue(pair: string): (r: Option<(string, string)>)
    ensures r.Some? ==> |r.value.0| > 0 && '=' !in r.value.0 && |r.value.1| > 0
  {
    var rest := pair[LeadingCount(pair, '=')..];
    var k := FirstIndex(rest, '=');
    if 0 < k && k + 1 < |rest| then Some((rest[..k], rest[k + 1..])) else None
  }

  /** `raw.removingPercentEncoding ?? raw`. */
  function DecodedOrRaw(raw: string): string {
    Percent.PercentDecode(raw).GetOr(raw)
  }

  /** The dictionary the loop over the `&`-separated pairs builds: every pair
      that splits into key and value sets that key to the decoded value, a
      later pair overwriting an earlier one. */
  function QueryOf(pairs: seq<string>): (q: map<string, string>)
    ensures forall k :: k in q ==> |k| > 0 && '=' !in k
    decreases |pairs|
  {
    if |pairs| == 0 then map[]
    else
      var q := QueryOf(pairs[..|pairs| - 1]);
      match KeyValue(pairs[|pairs| - 1])
      case None => q
      case Some((k, raw)) => q[k := DecodedOrRaw(raw)]
  }

  /** The path: the target up to its first "?". */
  function PathOf(target: string): (p: string)
    ensures '?' !in p
  {
    target[..FirstIndex(target, '?')]
  }

  /** The query dictionary of a target: empty without a "?", otherwise built
      from the text after the first "?". */
  function QueryMapOf(target: string): map<string, string> {
    var cut := FirstIndex(target, '?');
    if cut < |target| then QueryOf(Tokens(target[cut + 1..], '&')) else map[]
  }

  /** `parseRequest`. Undecodable bytes give the fallback request. Otherwise
      the text is cut at every empty line: the first piece is the head, the
      second (if any) the body. The first line of the head is split at
      spaces, empty pieces omitted: its first two pieces are method and
      target, "GET" and "/" when missing. */
  function Parse(data: Utf8.Bytes): (r: Request)
    ensures |r.verb| > 0 && ' ' !in r.verb
    ensures '?' !in r.path
  {
    match Utf8.Decode(data)
    case None => Fallback
    case Some(s) =>
      var parts := Components(s, HeaderEnd);
      var body := if |parts| > 1 then Some(Utf8.Encode(parts[1])) else None;
      var comps := Tokens(Components(parts[0], CRLF)[0], ' ');
      var verb := if |comps| > 0 then comps[0] else "GET";
      var target := if |comps| > 1 then comps[1] else "/";
      Request(verb, PathOf(target), QueryMapOf(target), body)
  }

  /** The loop of `parseRequest` that fills the query dictionary. */
  method ParseQuery(text: string) returns (query: map<string, string>)
    ensures query == QueryOf(Tokens(text, '&'))
  {
    var pairs := Tokens(text, '&');
    query := map[];
    var i := 0;
    while i < |pairs|
      invariant 0 <= i <= |pairs|
      invariant query == QueryOf(pairs[..i])
    {
      var kv := KeyValue(pairs[i]);
      if kv.Some? {
        query := query[kv.value.0 := DecodedOrRaw(kv.value.1)];
      }
      assert pairs[..i + 1][..i] == pairs[..i];
      i := i + 1;
    }
    assert pairs[..|pairs|] == pairs;
  }

  /** `parseRequest`, step by step. */
  method ParseRequest(data: Utf8.Bytes) returns (req: Request)
    ensures req == Parse(data)
  {
    var decoded := Utf8.Decode(data);
    if decoded.None? {
      return Fallback;
    }
    var s := decoded.value;
    var parts := Components(s, HeaderEnd);
    var head := parts[0];
    var body := if |parts| > 1 then Some(Utf8.Encode(parts[1])) else None;
    var firstLine := Components(head, CRLF)[0];
    var comps := Tokens(firstLine, ' ');
    var verb := if |comps| > 0 then comps[0] else "GET";
    var urlPart := if |comps| > 1 then comps[1] else "/";
    var cut := FirstIndex(urlPart, '?');
    var query: map<string, string>;
    if cut < |urlPart| {
      query := ParseQuery(urlPart[cut + 1..]);
      QueryMapAfterCut(urlPart);
    } else {
      query := map[];
      QueryMapNoCut(urlPart);
    }
    assert urlPart[..cut] == PathOf(urlPart);
    ParseDecoded(data, s);
    req := Request(verb, urlPart[..cut], query, body);
  }

  /** A target with a "?" has the dictionary of the text after it. */
  lemma QueryMapAfterCut(target: string)
    requires FirstIndex(target, '?') < |target|
    ensures QueryMapOf(target) == QueryOf(Tokens(target[FirstIndex(target, '?') + 1..], '&'))
  {
  }

  /** A target without a "?" has an empty dictionary. */
  lemma QueryMapNoCut(target: string)
    requires FirstIndex(target, '?') >= |target|
    ensures QueryMapOf(target) == map[]
  {
  }

  /** Unfolding helper: `Parse` on bytes that decode to `s`, spelled out,
      so that callers need not unfold the decode step themselves. */
  lemma ParseDecoded(data: Utf8.Bytes, s: string)
    requires Utf8.Decode(data) == Some(s)
    ensures var parts := Components(s, HeaderEnd);
            var comps := Tokens(Components(parts[0], CRLF)[0], ' ');
            var target := if |comps| > 1 then comps[1] else "/";
            Parse(data) == Request(if |comps| > 0 then comps[0] else "GET", PathOf(target), QueryMapOf(target),
                                   if |parts| > 1 then Some(Utf8.Encode(parts[1])) else None)
  {
  }

  // ---------------------------------------------------------------------
  // Properties of the parser

  /** Bytes that are not UTF-8 parse as the fallback request. */
  lemma ParseUndecodable(data: Utf8.Bytes)
    requires Utf8.Decode(data).None?
    ensures Parse(data) == Fallback
  {
  }

  /** Empty input, and input whose first line is empty, parse as `GET /`
      with an empty query. */
  lemma ParseEmptyFirstLine(data: Utf8.Bytes, s: string)
    requires Utf8.Decode(data) == Some(s)
    requires |s| == 0 || MatchAt(s, CRLF, 0)
    ensures Parse(data).verb == "GET" && Parse(data).path == "/" && Parse(data).query == map[]
  {
    HeadFirstLine(s, 0);
    assert s[..0] == [];
    assert FirstIndex("/", '?') == 1;
  }

  /** There is no body exactly when the text holds no empty line. */
  lemma ParseNoBody(data: Utf8.Bytes, s: string)
    requires Utf8.Decode(data) == Some(s)
    ensures Parse(data).bodyData.None? <==> forall j: nat :: !MatchAt(s, HeaderEnd, j)
  {
    ComponentsCount(s, HeaderEnd);
  }

  /** The body is the text after the first empty line, up to the next empty
      line (`k`) or to the end (`k == |s|`). */
  lemma ParseBody(data: Utf8.Bytes, s: string, j: nat, k: nat)
    requires Utf8.Decode(data) == Some(s)
    requires MatchAt(s, HeaderEnd, j)
    requires forall i: nat :: i < j ==> !MatchAt(s, HeaderEnd, i)
    requires j + 4 <= k <= |s|
    requires forall i: nat :: j + 4 <= i < k ==> !MatchAt(s, HeaderEnd, i)
    requires k == |s| || MatchAt(s, HeaderEnd, k)
    ensures Parse(data).bodyData == Some(Utf8.Encode(s[j + 4..k]))
  {
    SecondComponent(s, HeaderEnd, j, k);
  }

  /** A parsed body is always UTF-8, so `bodyString` is missing exactly
      when the body is, and then it is the body's text. */
  lemma ParseBodyString(data: Utf8.Bytes)
    ensures Parse(data).BodyString().Some? <==> Parse(data).bodyData.Some?
    ensures Parse(data).bodyData.Some? ==> Utf8.Encode(Parse(data).BodyString().value) == Parse(data).bodyData.value
  {
    match Utf8.Decode(data)
    case None =>
    case Some(s) =>
      var parts := Components(s, HeaderEnd);
      if |parts| > 1 {
        Utf8.DecodeEncode(parts[1]);
      }
  }

  /** The first line of the head is the text up to the first CRLF of the
      whole input (or all of it): cutting at the empty line first does not
      change it. */
  lemma HeadFirstLine(s: string, e: nat)
    requires e <= |s|
    requires forall i: nat :: i < e ==> !MatchAt(s, CRLF, i)
    requires e == |s| || MatchAt(s, CRLF, e)
    ensures Components(Components(s, HeaderEnd)[0], CRLF)[0] == s[..e]
  {
    var r := FindFrom(s, HeaderEnd, 0);
    if r.None? {
      FirstComponent(s, HeaderEnd, |s|);
      assert s[..|s|] == s;
      FirstComponent(s, CRLF, e);
    } else {
      var j := r.value;
      FirstComponent(s, HeaderEnd, j);
      FirstLineBeforeHeaderEnd(s, e, j);
    }
  }

  /** The first CRLF of the whole text comes no later than the first empty line, so it ends the head's first line too. */
  lemma FirstLineBeforeHeaderEnd(s: string, e: nat, j: nat)
    requires e <= |s|
    requires forall i: nat :: i < e ==> !MatchAt(s, CRLF, i)
    requires e == |s| || MatchAt(s, CRLF, e)
    requires MatchAt(s, HeaderEnd, j)
    ensures e <= j
    ensures Components(s[..j], CRLF)[0] == s[..e]
  {
    var head := s[..j];
    FirstCrlfBeforeHeaderEnd(s, e, j);
    PrefixNoMatch(s, j, CRLF, e);
    if e + 2 <= j {
      assert head[e..e + 2] == s[e..e + 2];
    }
    FirstComponent(head, CRLF, e);
    assert head[..e] == s[..e];
  }

  /** The first CRLF is the start of the first empty line or ends before it. */
  lemma FirstCrlfBeforeHeaderEnd(s: string, e: nat, j: nat)
    requires e <= |s|
    requires forall i: nat :: i < e ==> !MatchAt(s, CRLF, i)
    requires e == |s| || MatchAt(s, CRLF, e)
    requires MatchAt(s, HeaderEnd, j)
    ensures e == j || e + 2 <= j
  {
    assert s[j] == '\r' && s[j + 1] == '\n' by {
      assert s[j..j + 4] == HeaderEnd;
    }
    assert MatchAt(s, CRLF, j) by {
      assert s[j..j + 2] == CRLF;
    }
  }

  /** A prefix of `s` has no more occurrences than `s` has. */
  lemma PrefixNoMatch(s: string, n: nat, pat: string, e: nat)
    requires e <= n <= |s|
    requires forall i: nat :: i < e ==> !MatchAt(s, pat, i)
    ensures forall i: nat :: i < e ==> !MatchAt(s[..n], pat, i)
  {
    forall i: nat | i < e && MatchAt(s[..n], pat, i) ensures false {
      assert s[..n][i..i + |pat|] == s[i..i + |pat|];
      assert MatchAt(s, pat, i);
    }
  }

  /** Method and target are the first and second space-separated words of
      the first line, "GET" and "/" when missing; the path is the target up
      to its first "?", never percent-decoded. */
  lemma ParseRequestLine(data: Utf8.Bytes, s: string, e: nat)
    requires Utf8.Decode(data) == Some(s)
    requires e <= |s|
    requires forall i: nat :: i < e ==> !MatchAt(s, CRLF, i)
    requires e == |s| || MatchAt(s, CRLF, e)
    ensures var words := Tokens(s[..e], ' ');
            var target := if |words| > 1 then words[1] else "/";
            && Parse(data).verb == (if |words| > 0 then words[0] else "GET")
            && Parse(data).path == PathOf(target)
            && Parse(data).query == QueryMapOf(target)
  {
    HeadFirstLine(s, e);
  }

  /** A target without "?" is all path and has an empty query. */
  lemma TargetWithoutQuery(target: string)
    requires '?' !in target
    ensures PathOf(target) == target && QueryMapOf(target) == map[]
  {
    assert target[..|target|] == target;
  }

  // --- the query dictionary

  /** `pair` sets key `k`. */
  predicate Sets(pair: string, k: string) {
    KeyValue(pair).Some? && KeyValue(pair).value.0 == k
  }

  /** A key is in the dictionary exactly when some pair sets it. */
  lemma QueryKeys(pairs: seq<string>, k: string)
    ensures k in QueryOf(pairs) <==> exists i :: 0 <= i < |pairs| && Sets(pairs[i], k)
  {
    if k in QueryOf(pairs) {
      var i := QueryKeySource(pairs, k);
    }
    if exists i :: 0 <= i < |pairs| && Sets(pairs[i], k) {
      var i :| 0 <= i < |pairs| && Sets(pairs[i], k);
      QueryKeyKept(pairs, i, k);
    }
  }

  /** Every key of the dictionary comes from a pair that sets it. */
  lemma {:induction false} QueryKeySource(pairs: seq<string>, k: string) returns (i: nat)
    requires k in QueryOf(pairs)
    ensures i < |pairs| && Sets(pairs[i], k)
    decreases |pairs|
  {
    var n := |pairs| - 1;
    QueryStep(pairs, k);
    if Sets(pairs[n], k) {
      i := n;
    } else {
      i := QueryKeySource(pairs[..n], k);
      assert pairs[..n][i] == pairs[i];
    }
  }

  /** Every key a pair sets stays in the dictionary. */
  lemma {:induction false} QueryKeyKept(pairs: seq<string>, i: nat, k: string)
    requires i < |pairs| && Sets(pairs[i], k)
    ensures k in QueryOf(pairs)
    decreases |pairs|
  {
    var n := |pairs| - 1;
    if i < n {
      var prefix := pairs[..n];
      assert prefix[i] == pairs[i];
      QueryKeyKept(prefix, i, k);
      KeyStays(pairs, k);
    } else {
      KeyAdded(pairs, k);
    }
  }

  /** A key already in the dictionary stays after one more pair. */
  lemma KeyStays(pairs: seq<string>, k: string)
    requires |pairs| > 0 && k in QueryOf(pairs[..|pairs| - 1])
    ensures k in QueryOf(pairs)
  {
  }

  /** The key the last pair sets is in the dictionary. */
  lemma KeyAdded(pairs: seq<string>, k: string)
    requires |pairs| > 0 && Sets(pairs[|pairs| - 1], k)
    ensures k in QueryOf(pairs)
  {
  }

  /** The last pair adds its key, if it sets one, and nothing else. */
  lemma QueryStep(pairs: seq<string>, k: string)
    requires |pairs| > 0
    ensures k in QueryOf(pairs) <==> k in QueryOf(pairs[..|pairs| - 1]) || Sets(pairs[|pairs| - 1], k)
    ensures !Sets(pairs[|pairs| - 1], k) && k in QueryOf(pairs) ==>
              QueryOf(pairs)[k] == QueryOf(pairs[..|pairs| - 1])[k]
  {
  }

  /** With duplicate keys the last pair that sets a key gives its value. */
  lemma {:induction false} QueryLastWins(pairs: seq<string>, i: nat, k: string, raw: string)
    requires i < |pairs| && KeyValue(pairs[i]) == Some((k, raw))
    requires forall j :: i < j < |pairs| ==> !Sets(pairs[j], k)
    ensures k in QueryOf(pairs) && QueryOf(pairs)[k] == DecodedOrRaw(raw)
    decreases |pairs|
  {
    var n := |pairs| - 1;
    var prefix := pairs[..n];
    if i < n {
      assert prefix[i] == pairs[i];
      QueryLastWins(prefix, i, k, raw);
      KeyUntouched(pairs, k);
    } else {
      QueryLast(pairs, k, raw);
    }
  }

  /** A last pair that does not set `k` leaves its entry as it was. */
  lemma KeyUntouched(pairs: seq<string>, k: string)
    requires |pairs| > 0 && !Sets(pairs[|pairs| - 1], k)
    requires k in QueryOf(pairs[..|pairs| - 1])
    ensures k in QueryOf(pairs) && QueryOf(pairs)[k] == QueryOf(pairs[..|pairs| - 1])[k]
  {
  }

  /** `n` "=" characters. */
  function Equals(n: nat): (r: string)
    ensures |r| == n && forall i :: 0 <= i < n ==> r[i] == '='
  {
    seq(n, _ => '=')
  }

  /** A pair that splits is its leading "=" characters, the key, "=" and the
      raw value. */
  lemma KeyValueShape(pair: string)
    requires KeyValue(pair).Some?
    ensures var (k, v) := KeyValue(pair).value;
            pair == Equals(LeadingCount(pair, '=')) + k + "=" + v
  {
    var n := LeadingCount(pair, '=');
    var rest := pair[n..];
    var c := FirstIndex(rest, '=');
    var k, v := rest[..c], rest[c + 1..];
    assert KeyValue(pair).value == (k, v);
    LeadingRun(pair, n);
    SplitAt(rest, c);
    calc {
      pair;
      pair[..n] + rest;
      Equals(n) + (k + "=" + v);
      Equals(n) + k + "=" + v;
    }
  }

  /** The first `n` characters, all "=", are `Equals(n)`. */
  lemma LeadingRun(s: string, n: nat)
    requires n <= |s| && forall i :: 0 <= i < n ==> s[i] == '='
    ensures s[..n] == Equals(n)
  {
  }

  /** A text is what precedes an "=" at `c`, that "=", and what follows. */
  lemma SplitAt(s: string, c: nat)
    requires c < |s| && s[c] == '='
    ensures s == s[..c] + "=" + s[c + 1..]
  {
  }

  /** Conversely, such a text splits into that key and value. */
  lemma KeyValueOf(n: nat, k: string, v: string)
    requires |k| > 0 && '=' !in k && |v| > 0
    ensures KeyValue(Equals(n) + k + "=" + v) == Some((k, v))
  {
    var pair := Equals(n) + k + "=" + v;
    var rest := k + ("=" + v);
    assert pair == Equals(n) + rest;
    LeadingCountOf(n, rest);
    assert pair[n..] == rest;
    FirstIndexAfterRun(k, "=" + v, '=');
    assert rest[..|k|] == k;
    assert rest[|k| + 1..] == v;
  }

  /** `n` equals signs before a non-`=` character are a leading run of length `n`. */
  lemma {:induction false} LeadingCountOf(n: nat, rest: string)
    requires |rest| > 0 && rest[0] != '='
    ensures LeadingCount(Equals(n) + rest, '=') == n
  {
    if n > 0 {
      assert (Equals(n) + rest)[1..] == Equals(n - 1) + rest;
      LeadingCountOf(n - 1, rest);
    }
  }

  // --- the query string a client sends

  /** One `key=value` pair with the value as `encodeURIComponent` writes it. */
  function EncodedPair(f: (string, string)): string {
    f.0 + "=" + Percent.PercentEncode(f.1)
  }

  /** The `key=value` pairs a client writes for its fields, one per field. */
  function EncodedPairs(fields: seq<(string, string)>): (r: seq<string>)
    ensures |r| == |fields|
  {
    seq(|fields|, i requires 0 <= i < |fields| => EncodedPair(fields[i]))
  }

  /** The query string for `fields`, pairs joined with "&". */
  function QueryText(fields: seq<(string, string)>): string {
    Join(EncodedPairs(fields), "&")
  }

  /** The dictionary a list of fields denotes when later fields win. */
  function MapOf(fields: seq<(string, string)>): map<string, string>
    decreases |fields|
  {
    if |fields| == 0 then map[]
    else MapOf(fields[..|fields| - 1])[fields[|fields| - 1].0 := fields[|fields| - 1].1]
  }

  /** Keys a client can send: non-empty, with no "=" and no "&". */
  predicate SendableFields(fields: seq<(string, string)>) {
    forall i :: 0 <= i < |fields| ==>
      |fields[i].0| > 0 && '=' !in fields[i].0 && '&' !in fields[i].0 && |fields[i].1| > 0
  }

  /** Sendable fields, percent-encoded, build back the dictionary of the fields. */
  lemma {:induction false} QueryOfEncoded(fields: seq<(string, string)>)
    requires SendableFields(fields)
    ensures QueryOf(EncodedPairs(fields)) == MapOf(fields)
    decreases |fields|
  {
    if |fields| > 0 {
      var n := |fields| - 1;
      var prefix := fields[..n];
      var pairs := EncodedPairs(fields);
      EncodedPrefix(fields);
      QueryOfEncoded(prefix);
      EncodedPairSplits(fields[n]);
      QueryLast(pairs, fields[n].0, Percent.PercentEncode(fields[n].1));
    }
  }

  /** Dropping the last field drops the last pair, and what is left is
      still sendable. */
  lemma EncodedPrefix(fields: seq<(string, string)>)
    requires |fields| > 0 && SendableFields(fields)
    ensures var n := |fields| - 1;
            EncodedPairs(fields)[..n] == EncodedPairs(fields[..n])
            && SendableFields(fields[..n])
  {
    var n := |fields| - 1;
    var prefix := fields[..n];
    var pairs := EncodedPairs(fields);
    forall i | 0 <= i < n ensures pairs[..n][i] == EncodedPairs(prefix)[i] {
      assert prefix[i] == fields[i];
    }
    forall i | 0 <= i < n ensures prefix[i] == fields[i] { }
  }

  /** A field a client can send splits back into its key and its encoded
      value, and that value decodes to the original. */
  lemma EncodedPairSplits(f: (string, string))
    requires |f.0| > 0 && '=' !in f.0 && |f.1| > 0
    ensures KeyValue(EncodedPair(f)) == Some((f.0, Percent.PercentEncode(f.1)))
    ensures DecodedOrRaw(Percent.PercentEncode(f.1)) == f.1
  {
    var e := Percent.PercentEncode(f.1);
    KeyValueOf(0, f.0, e);
    assert Equals(0) + f.0 == f.0;
    Percent.PercentRoundTrip(f.1);
  }

  /** Unfolding helper: the last pair, when it splits, sets its key on top
      of the rest (one step of `QueryOf`). */
  lemma QueryLast(pairs: seq<string>, k: string, raw: string)
    requires |pairs| > 0 && KeyValue(pairs[|pairs| - 1]) == Some((k, raw))
    ensures QueryOf(pairs) == QueryOf(pairs[..|pairs| - 1])[k := DecodedOrRaw(raw)]
  {
  }

  /** Query round trip: the server's dictionary for a query string built by
      the client holds exactly the fields sent, the last one winning. */
  lemma QueryRoundTrip(fields: seq<(string, string)>)
    requires SendableFields(fields)
    ensures QueryOf(Tokens(QueryText(fields), '&')) == MapOf(fields)
  {
    var pairs := EncodedPairs(fields);
    forall i | 0 <= i < |pairs| ensures |pairs[i]| > 0 && '&' !in pairs[i] {
      var e := Percent.PercentEncode(fields[i].1);
      assert pairs[i] == fields[i].0 + "=" + e;
      assert '&' !in e;
    }
    TokensOfJoin(pairs, '&');
    QueryOfEncoded(fields);
  }

  /** A target made of a path and a client's query string splits back into
      them. */
  lemma TargetWithQuery(path: string, fields: seq<(string, string)>)
    requires '?' !in path && SendableFields(fields)
    ensures PathOf(path + "?" + QueryText(fields)) == path
    ensures QueryMapOf(path + "?" + QueryText(fields)) == MapOf(fields)
  {
    var text := QueryText(fields);
    var target := path + "?" + text;
    assert target == path + ("?" + text);
    FirstIndexAfterRun(path, "?" + text, '?');
    assert FirstIndex(target, '?') == |path|;
    assert target[..|path|] == path;
    assert target[|path| + 1..] == text;
    QueryRoundTrip(fields);
  }

  // --- whole requests

  /** An HTTP/1.1 request as a client writes it (section 2.1 of RFC 9112):
      the request line, each header field line, every line ended by CRLF,
      an empty line, then the body. */
  function RequestText(verb: string, target: string, fields: seq<string>, body: string): string {
    Terminated([RequestLine(verb, target)] + fields, CRLF) + CRLF + body
  }

  /** Words with no space and no CR. */
  predicate IsWord(w: string) {
    |w| > 0 && ' ' !in w && '\r' !in w
  }

  /** The request line a client writes. */
  function RequestLine(verb: string, target: string): string {
    verb + " " + target + " HTTP/1.1"
  }

  /** Parsing what a client writes recovers its method, the path and query
      of its target, and its body, provided the header lines hold no CR and
      the body holds no empty line. */
  lemma ParseRequestText(verb: string, target: string, fields: seq<string>, body: string)
    requires IsWord(verb) && IsWord(target)
    requires forall k :: 0 <= k < |fields| ==> |fields[k]| > 0 && '\r' !in fields[k]
    requires forall j: nat :: !MatchAt(body, HeaderEnd, j)
    ensures var r := Parse(Utf8.Encode(RequestText(verb, target, fields, body)));
            && r.verb == verb && r.path == PathOf(target) && r.query == QueryMapOf(target)
            && r.bodyData == Some(Utf8.Encode(body))
  {
    var s := RequestText(verb, target, fields, body);
    Utf8.DecodeEncode(s);
    var head := SplitRequestText(RequestLine(verb, target), fields, body);
    WordsOfRequestLine(verb, target);
  }

  /** The text of a request cuts at its empty line into the head and the
      body, and the head's first line is the request line. */
  lemma SplitRequestText(line0: string, fields: seq<string>, body: string) returns (head: string)
    requires |line0| > 0 && '\r' !in line0
    requires forall k :: 0 <= k < |fields| ==> |fields[k]| > 0 && '\r' !in fields[k]
    requires forall j: nat :: !MatchAt(body, HeaderEnd, j)
    ensures var parts := Components(Terminated([line0] + fields, CRLF) + CRLF + body, HeaderEnd);
            |parts| > 1 && parts[0] == head && parts[1] == body
    ensures Components(head, CRLF)[0] == line0
  {
    var lines := [line0] + fields;
    var t := Terminated(lines, CRLF);
    var s := t + CRLF + body;
    FirstEmptyLine(lines, '\r', '\n', body);
    var n := |t| - 2;
    head := s[..n];
    ComponentsAt(s, HeaderEnd, n);
    assert s[n + 4..] == body;
    ComponentsNone(body, HeaderEnd);
    HeadOfRequestText(line0, fields, head, s);
  }

  /** The head of a client request begins with its request line, up to the first CRLF. */
  lemma HeadOfRequestText(line0: string, fields: seq<string>, head: string, s: string)
    requires |line0| > 0 && '\r' !in line0
    requires forall k :: 0 <= k < |fields| ==> |fields[k]| > 0
    requires |Terminated([line0] + fields, CRLF)| >= 2
    requires head == Terminated([line0] + fields, CRLF)[..|Terminated([line0] + fields, CRLF)| - 2]
    ensures Components(head, CRLF)[0] == line0
  {
    var t := Terminated([line0] + fields, CRLF);
    var tf := Terminated(fields, CRLF);
    assert ([line0] + fields)[1..] == fields;
    assert t == line0 + CRLF + tf;
    if |fields| == 0 {
      assert head == line0;
    } else {
      assert |tf| >= 3 by {
        assert tf == fields[0] + CRLF + Terminated(fields[1..], CRLF);
      }
      assert t[|line0|..|line0| + 2] == CRLF;
      assert head[|line0|..|line0| + 2] == t[|line0|..|line0| + 2];
    }
    assert head[..|line0|] == line0;
    forall i: nat | i < |line0| ensures !MatchAt(head, CRLF, i) {
      assert head[i] == line0[i];
    }
    FirstComponent(head, CRLF, |line0|);
  }

  /** The words of a request line are method, target and version. */
  lemma WordsOfRequestLine(verb: string, target: string)
    requires IsWord(verb) && IsWord(target)
    ensures Tokens(RequestLine(verb, target), ' ') == [verb, target, "HTTP/1.1"]
  {
    var words := [verb, target, "HTTP/1.1"];
    assert Join(words[2..], " ") == "HTTP/1.1";
    assert Join(words[1..], " ") == target + " " + "HTTP/1.1";
    assert RequestLine(verb, target) == Join(words, " ");
    TokensOfJoin(words, ' ');
  }

  /** A client's request for `path` with query `fields` and a body parses
      to exactly that request. */
  lemma ParseClientRequest(verb: string, path: string, query: seq<(string, string)>,
                           fields: seq<string>, body: string)
    requires IsWord(verb) && IsWord(path) && '?' !in path
    requires SendableFields(query)
    requires forall i :: 0 <= i < |query| ==> ' ' !in query[i].0 && '\r' !in query[i].0
    requires forall k :: 0 <= k < |fields| ==> |fields[k]| > 0 && '\r' !in fields[k]
    requires forall j: nat :: !MatchAt(body, HeaderEnd, j)
    ensures Parse(Utf8.Encode(RequestText(verb, path + "?" + QueryText(query), fields, body)))
            == Request(verb, path, MapOf(query), Some(Utf8.Encode(body)))
  {
    var text := QueryText(query);
    QueryTextIsWordy(query);
    var target := path + "?" + text;
    assert IsWord(target);
    TargetWithQuery(path, query);
    ParseRequestText(verb, target, fields, body);
  }

  /** A client's query string holds no space and no CR. */
  lemma QueryTextIsWordy(query: seq<(string, string)>)
    requires forall i :: 0 <= i < |query| ==> ' ' !in query[i].0 && '\r' !in query[i].0
    ensures ' ' !in QueryText(query) && '\r' !in QueryText(query)
  {
    var pairs := EncodedPairs(query);
    forall i | 0 <= i < |pairs| ensures ' ' !in pairs[i] && '\r' !in pairs[i] {
      var e := Percent.PercentEncode(query[i].1);
      assert pairs[i] == query[i].0 + "=" + e;
      assert ' ' !in e && '\r' !in e;
    }
    JoinAvoids(pairs, "&", ' ');
    JoinAvoids(pairs, "&", '\r');
  }
}
