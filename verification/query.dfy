/** The query-string half of link sanitisation (mux.go:110-131): the parameters
    Go's URL.Query() decodes, the allow-list filter, and url.Values.Encode().
    Percent-escaping is not modelled: keys and values pass through unchanged. */
module Query {
  import opened Strings

  /** One key=value pair of a query string. */
  datatype Param = Param(key: string, value: string)

  /** The only query keys a sanitised link keeps (mux.go:110-117). */
  const Whitelist: set<string> := {"v", "fbid", "set", "story_fbid", "id", "multi_permalinks"}

  /** A pair that encodes to one unambiguous `key=value` piece: nothing in it
      separates pieces, and its key holds no '='. */
  predicate Clean(p: Param)
  {
    && '&' !in p.key && ';' !in p.key && '=' !in p.key
    && '&' !in p.value && ';' !in p.value
  }

  /** The values recorded under key k, in order of appearance: url.Values[k]. */
  function ValuesOf(ps: seq<Param>, k: string): seq<string>
  {
    if ps == [] then []
    else (if ps[0].key == k then [ps[0].value] else []) + ValuesOf(ps[1..], k)
  }

  /** url.ParseQuery: split at '&', drop empty pieces and pieces holding ';'
      (modern Go rejects the semicolon separator), split each piece at its first
      '='. A piece without '=' is a key with an empty value. */
  function ParseQuery(q: string): (ps: seq<Param>)
    ensures forall p <- ps :: Clean(p)
    ensures forall c :: c !in q ==> forall p <- ps :: c !in p.key && c !in p.value
    decreases |q|
  {
    if q == [] then []
    else
      var (piece, rest, _) := Cut(q, '&');
      var tail := ParseQuery(rest);
      if ';' in piece || piece == [] then tail
      else
        var (k, v, _) := Cut(piece, '=');
        [Param(k, v)] + tail
  }

  /** One encoded pair. */
  function Pair(p: Param): string
  {
    p.key + "=" + p.value
  }

  /** url.Values.Encode over pairs already in output order: `key=value` pieces
      joined by '&'. */
  function EncodeQuery(ps: seq<Param>): (q: string)
    ensures q == [] <==> ps == []
  {
    if ps == [] then []
    else if |ps| == 1 then Pair(ps[0])
    else Pair(ps[0]) + "&" + EncodeQuery(ps[1..])
  }

  /** Encoding introduces no character but '&' and '=' beyond those of the pairs. */
  lemma {:induction false} EncodeQueryChars(ps: seq<Param>, c: char)
    requires c != '&' && c != '='
    requires forall p <- ps :: c !in p.key && c !in p.value
    ensures c !in EncodeQuery(ps)
  {
    if |ps| > 1 {
      EncodeQueryChars(ps[1..], c);
    }
  }

  /** Decoding an encoded query gives back the pairs, in order. */
  lemma {:induction false} ParseEncode(ps: seq<Param>)
    requires forall p <- ps :: Clean(p)
    ensures ParseQuery(EncodeQuery(ps)) == ps
  {
    if ps != [] {
      var p := ps[0];
      var piece := Pair(p);
      assert p in ps && Clean(p);
      assert '&' !in piece && ';' !in piece && piece != [];
      CutAtFirst(p.key, '=', p.value);
      if |ps| == 1 {
        assert ParseQuery(EncodeQuery(ps)) == [p] + ParseQuery([]);
      } else {
        CutAtFirst(piece, '&', EncodeQuery(ps[1..]));
        ParseEncode(ps[1..]);
        assert ps == [p] + ps[1..];
      }
    }
  }

  /** The deletion loop of mux.go:126-130: every non-allow-listed key goes, with
      all its values; allow-listed keys keep all theirs. */
  function KeepWhitelisted(ps: seq<Param>): (r: seq<Param>)
    ensures forall p <- r :: p.key in Whitelist && p in ps
    ensures forall k :: ValuesOf(r, k) == if k in Whitelist then ValuesOf(ps, k) else []
  {
    if ps == [] then []
    else
      var tail := KeepWhitelisted(ps[1..]);
      if ps[0].key in Whitelist then [ps[0]] + tail else tail
  }

  /** Keys in non-decreasing order, as Encode emits them. */
  predicate Sorted(ps: seq<Param>)
  {
    |ps| < 2 || (LessOrEqual(ps[0].key, ps[1].key) && Sorted(ps[1..]))
  }

  /** Places x before the first pair whose key is not below x's. */
  function Insert(x: Param, s: seq<Param>): (r: seq<Param>)
    ensures Sorted(s) ==> Sorted(r)
    ensures forall k :: ValuesOf(r, k) == if x.key == k then [x.value] + ValuesOf(s, k) else ValuesOf(s, k)
    ensures forall p <- r :: p == x || p in s
    ensures r != [] && (r[0] == x || (s != [] && r[0] == s[0]))
  {
    if s == [] || LessOrEqual(x.key, s[0].key) then
      assert ([x] + s)[1..] == s;
      [x] + s
    else
      LessOrEqualReflexive(x.key);
      LessOrEqualTotal(x.key, s[0].key);
      var t := Insert(x, s[1..]);
      assert ([s[0]] + t)[1..] == t;
      assert s == [s[0]] + s[1..];
      [s[0]] + t
  }

  /** Encode's ordering: keys sorted, the values of one key kept in their order
      (a stable sort by key). */
  function SortByKey(ps: seq<Param>): (r: seq<Param>)
    ensures Sorted(r)
    ensures forall k :: ValuesOf(r, k) == ValuesOf(ps, k)
    ensures forall p <- r :: p in ps
  {
    if ps == [] then []
    else
      assert ps == [ps[0]] + ps[1..];
      Insert(ps[0], SortByKey(ps[1..]))
  }

  /** The pairs the sanitised link carries, in the order Encode writes them. */
  function Sanitise(ps: seq<Param>): (r: seq<Param>)
    ensures forall p <- r :: p.key in Whitelist && p in ps
    ensures Sorted(r)
    ensures forall k :: ValuesOf(r, k) == if k in Whitelist then ValuesOf(ps, k) else []
  {
    SortByKey(KeepWhitelisted(ps))
  }

  lemma {:induction false} KeepWhitelistedFixed(ps: seq<Param>)
    requires forall p <- ps :: p.key in Whitelist
    ensures KeepWhitelisted(ps) == ps
  {
    if ps != [] {
      KeepWhitelistedFixed(ps[1..]);
      assert ps == [ps[0]] + ps[1..];
    }
  }

  lemma {:induction false} SortByKeyFixed(ps: seq<Param>)
    requires Sorted(ps)
    ensures SortByKey(ps) == ps
  {
    if ps != [] {
      SortByKeyFixed(ps[1..]);
      assert ps == [ps[0]] + ps[1..];
    }
  }

  /** Sanitising already-sanitised parameters changes nothing. */
  lemma SanitiseIdempotent(ps: seq<Param>)
    ensures Sanitise(Sanitise(ps)) == Sanitise(ps)
  {
    var s := Sanitise(ps);
    KeepWhitelistedFixed(s);
    SortByKeyFixed(s);
  }
}
