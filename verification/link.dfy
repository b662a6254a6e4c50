/** The matched link and what the handler does with it (mux.go:109-131, 150):
    splitting the link into its parts, sanitising its query, and replacing every
    match of the link pattern in the message text. */
module Link {
  import opened Options
  import opened Strings
  import opened Query

  /** The parts of a parsed link the handler touches (Go's url.URL): the text
      before the query (scheme, host and path), the raw query, the ForceQuery
      flag (a '?' with nothing after it) and the fragment. */
  datatype Url = Url(prefix: string, rawQuery: string, forceQuery: bool, fragment: string)

  /** URL.String(): '?' is written when there is a query or ForceQuery is set,
      '#' only when the fragment is non-empty. */
  function UrlString(u: Url): (s: string)
    ensures u.prefix <= s
    ensures |s| > |u.prefix| && s[|u.prefix|] == '?' <==> u.forceQuery || u.rawQuery != []
    ensures u.fragment != [] ==> |u.fragment| < |s| && s[|s| - |u.fragment| - 1..] == "#" + u.fragment
    ensures !u.forceQuery && u.rawQuery == [] && u.fragment == [] ==> s == u.prefix
  {
    u.prefix
      + (if u.forceQuery || u.rawQuery != [] then "?" + u.rawQuery else [])
      + (if u.fragment != [] then "#" + u.fragment else [])
  }

  /** What url.Parse can produce: the prefix stops at the first '?' and '#', the
      query at the first '#', and ForceQuery only goes with an empty query. */
  predicate WellFormed(u: Url)
  {
    && '#' !in u.prefix && '?' !in u.prefix && '#' !in u.rawQuery
    && (u.forceQuery ==> u.rawQuery == [])
  }

  /** url.Parse (mux.go:122) as far as the handler needs it: the fragment is cut
      at the first '#', then the query at the first '?'. */
  function ParseUrl(s: string): (u: Url)
    ensures WellFormed(u)
    ensures UrlString(u) == s || UrlString(u) + "#" == s
  {
    var (beforeFragment, fragment, hasFragment) := Cut(s, '#');
    var (prefix, rawQuery, hasQuery) := Cut(beforeFragment, '?');
    UrlPartsRejoin(s, beforeFragment, fragment, hasFragment, prefix, rawQuery, hasQuery);
    Url(prefix, rawQuery, hasQuery && rawQuery == [], fragment)
  }

  /** The two cuts of ParseUrl leave well-formed parts that print back to the
      input, except for an empty fragment's '#'. */
  lemma UrlPartsRejoin(s: string, beforeFragment: string, fragment: string, hasFragment: bool,
                       prefix: string, rawQuery: string, hasQuery: bool)
    requires hasFragment ==> s == beforeFragment + ['#'] + fragment && '#' !in beforeFragment
    requires !hasFragment ==> s == beforeFragment && fragment == [] && '#' !in s
    requires hasQuery ==> beforeFragment == prefix + ['?'] + rawQuery && '?' !in prefix
    requires !hasQuery ==> beforeFragment == prefix && rawQuery == [] && '?' !in beforeFragment
    ensures WellFormed(Url(prefix, rawQuery, hasQuery && rawQuery == [], fragment))
    ensures var printed := UrlString(Url(prefix, rawQuery, hasQuery && rawQuery == [], fragment));
            printed == s || printed + "#" == s
  {
    var u := Url(prefix, rawQuery, hasQuery && rawQuery == [], fragment);
    assert '#' !in prefix && '#' !in rawQuery by {
      if hasQuery {
        assert beforeFragment == prefix + (['?'] + rawQuery);
      }
      assert forall c :: c in prefix || c in rawQuery ==> c in beforeFragment;
    }
    assert UrlString(u) == beforeFragment + (if fragment != [] then "#" + fragment else []) by {
      var query := if hasQuery then "?" + rawQuery else [];
      assert beforeFragment == prefix + query;
      assert query == if u.forceQuery || u.rawQuery != [] then "?" + u.rawQuery else [];
    }
  }

  /** Parsing a printed well-formed link gives the same parts back. */
  lemma ParseUrlString(u: Url)
    requires WellFormed(u)
    ensures ParseUrl(UrlString(u)) == u
  {
    var query := if u.forceQuery || u.rawQuery != [] then "?" + u.rawQuery else [];
    var beforeFragment := u.prefix + query;
    assert '#' !in query;
    if u.fragment != [] {
      assert UrlString(u) == beforeFragment + ['#'] + u.fragment;
      CutAtFirst(beforeFragment, '#', u.fragment);
    } else {
      assert UrlString(u) == beforeFragment;
      CutAbsent(beforeFragment, '#');
    }
    assert Cut(UrlString(u), '#').0 == beforeFragment;
    if query != [] {
      assert beforeFragment == u.prefix + ['?'] + u.rawQuery;
      CutAtFirst(u.prefix, '?', u.rawQuery);
    } else {
      assert beforeFragment == u.prefix;
      CutAbsent(u.prefix, '?');
    }
  }

  /** The query pairs a link carries. */
  function Params(s: string): seq<Param>
  {
    ParseQuery(ParseUrl(s).rawQuery)
  }

  /** The sanitised link of mux.go:122-131: the query is replaced by the encoded
      allow-listed pairs; prefix, ForceQuery and fragment are kept. */
  function SanitiseLink(s: string): (r: string)
    ensures ParseUrl(r).prefix == ParseUrl(s).prefix
    ensures ParseUrl(r).forceQuery == ParseUrl(s).forceQuery
    ensures ParseUrl(r).fragment == ParseUrl(s).fragment
    ensures Params(r) == Sanitise(Params(s))
    ensures forall p <- Params(r) :: p.key in Whitelist
    ensures forall k :: ValuesOf(Params(r), k) == if k in Whitelist then ValuesOf(Params(s), k) else []
  {
    var u := ParseUrl(s);
    var ps := Sanitise(Params(s));
    var v := u.(rawQuery := EncodeQuery(ps));
    SanitisedParts(u);
    ParseUrlString(v);
    UrlString(v)
  }

  /** The sanitised pairs survive encoding, and the new query holds no '#'. */
  lemma SanitisedParts(u: Url)
    requires WellFormed(u)
    ensures WellFormed(u.(rawQuery := EncodeQuery(Sanitise(ParseQuery(u.rawQuery)))))
    ensures ParseQuery(EncodeQuery(Sanitise(ParseQuery(u.rawQuery)))) == Sanitise(ParseQuery(u.rawQuery))
  {
    var raw := ParseQuery(u.rawQuery);
    var ps := Sanitise(raw);
    assert forall p <- ps :: p in raw;
    EncodeQueryChars(ps, '#');
    ParseEncode(ps);
  }

  /** Sanitising an already-sanitised link gives the same link. */
  lemma {:induction false} SanitiseLinkIdempotent(s: string)
    ensures SanitiseLink(SanitiseLink(s)) == SanitiseLink(s)
  {
    var u := ParseUrl(s);
    var ps := Sanitise(Params(s));
    var v := u.(rawQuery := EncodeQuery(ps));
    SanitisedParts(u);
    ParseUrlString(v);
    assert ParseUrl(SanitiseLink(s)) == v;
    SanitiseIdempotent(Params(s));
    assert Sanitise(Params(SanitiseLink(s))) == ps;
  }

  /** The message content as the link pattern of mux.go:109 divides it: plain
      text between matches, and each match with its whole text (group 0) and
      its first capture group (the link without its query). Finding the
      matches is the regular-expression engine's work and is not modelled. */
  datatype Segment = Plain(text: string) | Match(whole: string, base: string)

  /** The message text the segments spell out. */
  function Content(segs: seq<Segment>): string
  {
    if segs == [] then []
    else
      (match segs[0] case Plain(t) => t case Match(w, _) => w) + Content(segs[1..])
  }

  /** FindStringSubmatch: the first match, if any. */
  function FirstMatch(segs: seq<Segment>): (r: Option<Segment>)
    ensures r.None? <==> forall i :: 0 <= i < |segs| ==> segs[i].Plain?
    ensures r.Some? ==> r.value.Match?
  {
    if segs == [] then None
    else if segs[0].Match? then Some(segs[0])
    else
      assert forall i :: 1 <= i < |segs| ==> segs[i] == segs[1..][i - 1];
      FirstMatch(segs[1..])
  }

  /** The match found is the earliest one: only plain text comes before it. */
  lemma {:induction false} FirstMatchIsFirst(segs: seq<Segment>)
    ensures FirstMatch(segs).Some? ==>
              exists i :: (0 <= i < |segs| && segs[i] == FirstMatch(segs).value &&
                           forall j :: 0 <= j < i ==> segs[j].Plain?)
  {
    if segs != [] && segs[0].Plain? {
      var tail := segs[1..];
      FirstMatchIsFirst(tail);
      assert FirstMatch(segs) == FirstMatch(tail);
      if FirstMatch(tail).Some? {
        var i :| 0 <= i < |tail| && tail[i] == FirstMatch(tail).value &&
                 forall j :: 0 <= j < i ==> tail[j].Plain?;
        assert segs[i + 1] == tail[i];
        forall j | 0 <= j < i + 1
          ensures segs[j].Plain?
        {
          if j > 0 {
            assert segs[j] == tail[j - 1];
          }
        }
      }
    }
  }

  /** Every match replaced by the text r, plain text kept: ReplaceAllString
      with a replacement that holds no '$' (see ExpandTemplate). */
  function ReplaceAll(segs: seq<Segment>, r: string): string
  {
    if segs == [] then [] else Piece(segs[0], r) + ReplaceAll(segs[1..], r)
  }

  /** Content without a match comes through replacement unchanged. */
  lemma {:induction false} ReplaceAllWithoutMatch(segs: seq<Segment>, r: string)
    ensures FirstMatch(segs).None? ==> ReplaceAll(segs, r) == Content(segs)
  {
    if segs != [] && FirstMatch(segs).None? {
      assert segs[0].Plain?;
      assert FirstMatch(segs[1..]).None?;
      ReplaceAllWithoutMatch(segs[1..], r);
    }
  }

  /** One segment after replacement: plain text stays, a match becomes r. */
  function Piece(seg: Segment, r: string): string
  {
    match seg
    case Plain(t) => t
    case Match(_, _) => r
  }

  /** Replacement works piece by piece: it distributes over joined content. */
  lemma {:induction false} ReplaceAllAppend(a: seq<Segment>, b: seq<Segment>, r: string)
    ensures ReplaceAll(a + b, r) == ReplaceAll(a, r) + ReplaceAll(b, r)
  {
    if a != [] {
      assert (a + b)[0] == a[0];
      assert (a + b)[1..] == a[1..] + b;
      assert ReplaceAll(a + b, r) == Piece(a[0], r) + ReplaceAll(a[1..] + b, r);
      ReplaceAllAppend(a[1..], b, r);
    } else {
      assert a + b == b;
    }
  }

  /** A match between two stretches of content becomes r, and the content on
      either side is replaced on its own. */
  lemma ReplaceAllAroundMatch(before: seq<Segment>, whole: string, base: string, after: seq<Segment>, r: string)
    ensures ReplaceAll(before + [Match(whole, base)] + after, r) == ReplaceAll(before, r) + r + ReplaceAll(after, r)
  {
    var m := [Match(whole, base)];
    ReplaceAllAppend(before, m, r);
    ReplaceAllAppend(before + m, after, r);
    assert ReplaceAll(m, r) == r by {
      assert m[1..] == [];
    }
  }

  /** A character that may appear in a group name after '$'. Go also accepts
      non-ASCII letters and digits here; this model keeps to ASCII. */
  predicate IsNameChar(c: char)
  {
    'a' <= c <= 'z' || 'A' <= c <= 'Z' || '0' <= c <= '9' || c == '_'
  }

  /** The length of the longest leading run of name characters. */
  function NameLength(s: string): (n: nat)
    ensures n <= |s|
    ensures forall i :: 0 <= i < n ==> IsNameChar(s[i])
    ensures n < |s| ==> !IsNameChar(s[n])
  {
    if s == [] || !IsNameChar(s[0]) then 0 else 1 + NameLength(s[1..])
  }

  /** The group reference that follows a '$' in a template, `name` or
      `{name}`, and the text after it; None when it is malformed. */
  function ExtractName(s: string): (r: Option<(string, string)>)
    ensures r.Some? ==> r.value.0 != [] && |r.value.1| < |s|
  {
    if s == [] then None
    else
      var brace := s[0] == '{';
      var t := if brace then s[1..] else s;
      var n := NameLength(t);
      if n == 0 then None
      else if !brace then Some((t[..n], t[n..]))
      else if n == |t| || t[n] != '}' then None
      else Some((t[..n], t[n + 1..]))
  }

  /** What a group reference stands for in a match of the link pattern, which
      has one capture group: `0` is the whole match, `1` the group; any other
      number, a number with a leading zero, or a name stands for nothing. */
  function GroupText(name: string, whole: string, base: string): string
  {
    if name == "0" then whole else if name == "1" then base else []
  }

  /** Regexp.Expand, which ReplaceAllString applies to its replacement for
      each match: `$$` is a '$', `$name` and `${name}` are group references,
      and a '$' starting no valid reference is kept. */
  function ExpandTemplate(t: string, whole: string, base: string): (r: string)
    ensures '$' !in t ==> r == t
    decreases |t|, 1
  {
    if t == [] then []
    else if t[0] != '$' then
      assert t == [t[0]] + t[1..];
      [t[0]] + ExpandTemplate(t[1..], whole, base)
    else ExpandDollar(t[1..], whole, base)
  }

  /** Expansion of what follows a '$'. */
  function ExpandDollar(rest: string, whole: string, base: string): string
    decreases |rest| + 1, 0
  {
    if rest != [] && rest[0] == '$' then "$" + ExpandTemplate(rest[1..], whole, base)
    else
      match ExtractName(rest)
      case None => "$" + ExpandTemplate(rest, whole, base)
      case Some((name, after)) => GroupText(name, whole, base) + ExpandTemplate(after, whole, base)
  }

  /** Text without '$' passes through expansion unchanged in front of the rest. */
  lemma {:induction false} ExpandLiteralPrefix(p: string, q: string, whole: string, base: string)
    requires '$' !in p
    ensures ExpandTemplate(p + q, whole, base) == p + ExpandTemplate(q, whole, base)
  {
    if p != [] {
      assert p[0] in p;
      assert (p + q)[0] == p[0] && (p + q)[1..] == p[1..] + q;
      assert ExpandTemplate(p + q, whole, base) == [p[0]] + ExpandTemplate(p[1..] + q, whole, base);
      ExpandLiteralPrefix(p[1..], q, whole, base);
      assert p == [p[0]] + p[1..];
    } else {
      assert p + q == q;
    }
  }

  /** A reference to a group the link pattern does not have expands to
      nothing: `$5` disappears from the replacement. */
  lemma ExpandDropsMissingGroup(p: string, whole: string, base: string)
    requires '$' !in p
    ensures ExpandTemplate(p + "$5\n", whole, base) == p + "\n"
  {
    ExpandLiteralPrefix(p, "$5\n", whole, base);
    var t := "$5\n";
    assert t[1..] == "5\n";
    assert NameLength("5\n") == 1 by {
      assert "5\n"[1..] == "\n";
      assert NameLength("\n") == 0;
    }
    assert "5\n"[..1] == "5";
    assert ExtractName("5\n") == Some(("5", "\n"));
    assert ExpandTemplate(t, whole, base) == GroupText("5", whole, base) + ExpandTemplate("\n", whole, base);
  }

  /** ReplaceAllString as mux.go:150 calls it: each match is replaced by the
      replacement expanded against that match. */
  function ReplaceAllExpanding(segs: seq<Segment>, template: string): (out: string)
    ensures '$' !in template ==> out == ReplaceAll(segs, template)
  {
    if segs == [] then []
    else
      (match segs[0]
       case Plain(t) => t
       case Match(w, b) => ExpandTemplate(template, w, b))
      + ReplaceAllExpanding(segs[1..], template)
  }
}
