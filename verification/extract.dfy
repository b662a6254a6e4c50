/** Reading a fetched page (mux.go:178-242): choosing the content node by the
    ordered patterns, turning it into excerpt text, and choosing the image.
    HTTP requests are an oracle from URL to outcome. */
module Extract {
  import opened Options
  import opened Strings
  import opened Html

  /** The ids of the content patterns `//div[@id='…']`, in priority order: a
      story view, then a photo view (mux.go:34-37). */
  const Patterns: seq<string> := ["m_story_permalink_view", "MPhotoContent"]

  /** A class containing this marks a profile picture (mux.go:213). */
  const ProfileMarker: string := "profpic"

  /** Only images served from this host are attached (mux.go:217). */
  const TrustedPrefix: string := "https://scontent"

  /** An octet of a response body. */
  newtype byte = x: int | 0 <= x < 256

  /** A response body: the image bytes handed on as the attachment. */
  type Bytes = seq<byte>

  /** A response that arrived: status code, status line and body. */
  datatype Response<B> = Response(code: int, status: string, body: B)

  /** The outcome of an HTTP GET: no response at all (DNS, connection, timeout,
      malformed request), or a response with any status. */
  datatype Fetch<B> = TransportError | Fetched(response: Response<B>)

  /** A page body as the HTML parser leaves it. */
  datatype Page = Document(root: Node) | Malformed

  /** Why parseFacebookPost returned an error. */
  datatype PostError = Transport | BadStatus(status: string) | ParseFailure

  /** What parseFacebookPost hands back: the excerpt runes, the image URLs it
      requested (in order), the image body if one was fetched, and the error. */
  datatype Extraction = Extraction(excerpt: string, tried: seq<string>, image: Option<Bytes>, error: Option<PostError>)

  /** The image URLs extractImage requested and the body it returned. */
  datatype ImagePick = ImagePick(tried: seq<string>, image: Option<Bytes>)

  /** A node the pattern `//div[@id='id']` selects. */
  predicate IsDivWithId(n: Node, id: string)
  {
    IsElement(n, "div") && HasAttr(n, "id", id)
  }

  /** The nodes of ns the pattern selects, in their order. */
  function DivsWithId(ns: seq<Node>, id: string): (r: seq<Node>)
    ensures forall n <- r :: n in ns && IsDivWithId(n, id)
    ensures forall n <- ns :: IsDivWithId(n, id) ==> n in r
  {
    if ns == [] then []
    else
      var tail := DivsWithId(ns[1..], id);
      assert forall n <- ns :: n == ns[0] || n in ns[1..];
      if IsDivWithId(ns[0], id) then [ns[0]] + tail else tail
  }

  /** The first node selected is the first node of ns the pattern accepts. */
  lemma {:induction false} DivsWithIdFirst(ns: seq<Node>, id: string)
    ensures DivsWithId(ns, id) != [] ==>
              exists i :: (0 <= i < |ns| && ns[i] == DivsWithId(ns, id)[0] &&
                           forall j :: 0 <= j < i ==> !IsDivWithId(ns[j], id))
  {
    if ns != [] && !IsDivWithId(ns[0], id) && DivsWithId(ns, id) != [] {
      var tail := ns[1..];
      DivsWithIdFirst(tail, id);
      assert DivsWithId(ns, id) == DivsWithId(tail, id);
      var i :| 0 <= i < |tail| && tail[i] == DivsWithId(tail, id)[0] &&
               forall j :: 0 <= j < i ==> !IsDivWithId(tail[j], id);
      assert ns[i + 1] == tail[i];
      forall j | 0 <= j < i + 1
        ensures !IsDivWithId(ns[j], id)
      {
        if j > 0 {
          assert ns[j] == tail[j - 1];
        }
      }
    }
  }

  /** The matches of one content pattern in the document, in the order the
      library yields them (see Html.DescendantStep). */
  function Matches(root: Node, id: string): seq<Node>
  {
    DivsWithId(DescendantStep(root), id)
  }

  /** The pattern loop of parseFacebookPost (mux.go:199-207): the first
      pattern with any match decides, and its first match is the content. */
  function SelectContent(root: Node, ids: seq<string>): (r: Option<Node>)
    ensures r.None? <==> forall i :: 0 <= i < |ids| ==> Matches(root, ids[i]) == []
    ensures r.Some? ==> exists i :: (0 <= i < |ids| && Matches(root, ids[i]) != [] &&
                                     r.value == Matches(root, ids[i])[0] &&
                                     forall j :: 0 <= j < i ==> Matches(root, ids[j]) == [])
    ensures r.Some? ==> r.value in Descendants(root) && IsElement(r.value, "div")
  {
    if ids == [] then None
    else
      var found := Matches(root, ids[0]);
      if found != [] then
        assert found[0] in found;
        DescendantStepSameNodes(root);
        Some(found[0])
      else
        var r := SelectContent(root, ids[1..]);
        assert forall i :: 1 <= i < |ids| ==> ids[i] == ids[1..][i - 1];
        r
  }

  /** How many children are div elements. */
  function DivCount(cs: seq<Node>): nat
  {
    if cs == [] then 0 else (if IsElement(cs[0], "div") then 1 else 0) + DivCount(cs[1..])
  }

  /** The fallback loop of runeString (mux.go:237-240): " " and the text of
      each child div, in order. */
  function ChildDivText(cs: seq<Node>): (r: string)
    ensures r == [] <==> DivCount(cs) == 0
    ensures (forall i :: 0 <= i < |cs| ==> StringValue(cs[i]) == []) ==>
              |r| == DivCount(cs) && forall i :: 0 <= i < |r| ==> r[i] == ' '
  {
    if cs == [] then []
    else
      assert forall i :: 1 <= i < |cs| ==> cs[i] == cs[1..][i - 1];
      (if IsElement(cs[0], "div") then " " + StringValue(cs[0]) else []) + ChildDivText(cs[1..])
  }

  /** SoupNode.runeString (mux.go:230-242): the node's string value when it has
      one, else the child-div fallback. Because a node's string value already
      holds all the text inside it, the fallback only ever runs on children
      without text, so it yields one space per child div and nothing else. */
  function RuneString(n: Node): (r: string)
    ensures StringValue(n) != [] ==> r == StringValue(n)
    ensures StringValue(n) == [] ==> |r| == DivCount(Children(n)) && forall i :: 0 <= i < |r| ==> r[i] == ' '
    ensures r == [] <==> StringValue(n) == [] && DivCount(Children(n)) == 0
  {
    var text := StringValue(n);
    if text != [] then text
    else
      EmptyStringValues(Children(n));
      ChildDivText(Children(n))
  }

  /** The img elements among ns, in order. */
  function Images(ns: seq<Node>): (r: seq<Node>)
    ensures forall n <- r :: n in ns && IsElement(n, "img")
    ensures forall n <- ns :: IsElement(n, "img") ==> n in r
  {
    if ns == [] then []
    else (if IsElement(ns[0], "img") then [ns[0]] else []) + Images(ns[1..])
  }

  /** A single node is kept exactly when it is an img element. */
  lemma ImagesOne(n: Node)
    ensures Images([n]) == if IsElement(n, "img") then [n] else []
  {
    assert [n][1..] == [];
  }

  /** Images keeps the order of its input: the images of joined runs are the
      joined images. With ImagesOne this fixes Images on every input. */
  lemma {:induction false} ImagesAppend(a: seq<Node>, b: seq<Node>)
    ensures Images(a + b) == Images(a) + Images(b)
  {
    if a != [] {
      assert (a + b)[0] == a[0] && (a + b)[1..] == a[1..] + b;
      ImagesAppend(a[1..], b);
    } else {
      assert a + b == b;
    }
  }

  /** The order `//img` yields is not document order: an image directly under
      the body comes before an earlier image nested one level deeper, because
      the body's children are visited before the link's. */
  lemma ShallowImageFirst(page: Node, link: Node, imgA: Node, imgB: Node)
    requires IsElement(imgA, "img") && IsElement(imgB, "img") && Children(imgA) == [] && Children(imgB) == []
    requires IsElement(link, "a") && link.children == [imgA]
    requires IsElement(page, "body") && page.children == [link, imgB]
    ensures Images(Descendants(page)) == [imgA, imgB]
    ensures Images(DescendantStep(page)) == [imgB, imgA]
  {
    NestedImageOrders(link, imgA, page, imgB);
    ImagesOfLinkThenTwo(link, imgA, imgB);
    ImagesOfLinkThenTwo(link, imgB, imgA);
  }

  /** A non-image followed by two images leaves the two images, in order. */
  lemma ImagesOfLinkThenTwo(link: Node, x: Node, y: Node)
    requires !IsElement(link, "img") && IsElement(x, "img") && IsElement(y, "img")
    ensures Images([link, x, y]) == [x, y]
  {
    ImagesOne(link);
    ImagesOne(x);
    ImagesOne(y);
    ImagesOfThree(link, x, y);
  }

  /** The images of three nodes, one node at a time. */
  lemma ImagesOfThree(x: Node, y: Node, z: Node)
    ensures Images([x, y, z]) == Images([x]) + Images([y]) + Images([z])
  {
    assert [x, y, z] == [x] + [y, z];
    assert [y, z] == [y] + [z];
    ImagesAppend([x], [y, z]);
    ImagesAppend([y], [z]);
  }

  /** Document order and the library's order on a page whose first child holds
      one childless node and whose second child is childless. */
  lemma NestedImageOrders(link: Node, a: Node, page: Node, b: Node)
    requires link.Element? && link.children == [a] && Children(a) == []
    requires page.Element? && page.children == [link, b] && Children(b) == []
    ensures Descendants(page) == [link, a, b]
    ensures DescendantStep(page) == [link, b, a]
  {
    NestedDocumentOrder(link, a, page, b);
    assert [page] + Descendants(page) == [page, link, a, b];
    assert ChildrenOfEach([b]) == [] by {
      assert ChildrenOfEach([b]) == Children(b) + ChildrenOfEach([b][1..]);
      assert [b][1..] == [];
    }
    assert ChildrenOfEach([a, b]) == [] by {
      assert ChildrenOfEach([a, b]) == Children(a) + ChildrenOfEach([a, b][1..]);
      assert [a, b][1..] == [b];
    }
    assert ChildrenOfEach([link, a, b]) == [a] by {
      assert ChildrenOfEach([link, a, b]) == Children(link) + ChildrenOfEach([link, a, b][1..]);
      assert [link, a, b][1..] == [a, b];
    }
    assert ChildrenOfEach([page, link, a, b]) == [link, b] + [a] by {
      assert ChildrenOfEach([page, link, a, b]) == Children(page) + ChildrenOfEach([page, link, a, b][1..]);
      assert [page, link, a, b][1..] == [link, a, b];
    }
  }

  /** Document order on the same page: the link, its image, then the second
      child. */
  lemma NestedDocumentOrder(link: Node, a: Node, page: Node, b: Node)
    requires link.Element? && link.children == [a] && Children(a) == []
    requires page.Element? && page.children == [link, b] && Children(b) == []
    ensures Descendants(page) == [link, a, b]
  {
    assert Descendants(a) == [] && Descendants(b) == [];
    assert Descendants(link) == [a] by {
      assert DescendantsOf([a]) == [a] + Descendants(a) + DescendantsOf([a][1..]);
      assert [a][1..] == [];
    }
    assert DescendantsOf([b]) == [b] + Descendants(b) + DescendantsOf([b][1..]);
    assert [b][1..] == [];
    assert DescendantsOf([link, b]) == [link] + Descendants(link) + DescendantsOf([link, b][1..]);
    assert [link, b][1..] == [b];
  }

  /** The value of `@src` as extractImage reads it: missing is empty. */
  function Src(img: Node): string
  {
    AttrValue(img, "src").ValueOr([])
  }

  /** An image whose class mentions the profile-picture marker. */
  predicate IsProfilePicture(img: Node)
  {
    var classes := AttrValue(img, "class");
    classes.Some? && Contains(classes.value, ProfileMarker)
  }

  /** An image extractImage is willing to fetch. */
  predicate IsCandidate(img: Node)
  {
    !IsProfilePicture(img) && TrustedPrefix <= Src(img)
  }

  /** The sources of the candidates among imgs, in order: every request
      extractImage may make. */
  function CandidateUrls(imgs: seq<Node>): (us: seq<string>)
    ensures forall u <- us :: TrustedPrefix <= u
    ensures forall u <- us :: exists img <- imgs :: !IsProfilePicture(img) && TrustedPrefix <= Src(img) && Src(img) == u
    ensures forall img <- imgs :: IsCandidate(img) ==> Src(img) in us
  {
    if imgs == [] then []
    else (if IsCandidate(imgs[0]) then [Src(imgs[0])] else []) + CandidateUrls(imgs[1..])
  }

  /** None of the requests gets a response. */
  predicate AllFail(urls: seq<string>, fetch: string -> Fetch<Bytes>)
  {
    forall j :: 0 <= j < |urls| ==> fetch(urls[j]).TransportError?
  }

  /** Request i is the first one that gets a response. */
  predicate FirstSuccessAt(urls: seq<string>, fetch: string -> Fetch<Bytes>, i: nat)
  {
    i < |urls| && fetch(urls[i]).Fetched? && AllFail(urls[..i], fetch)
  }

  /** The reference behaviour of the image loop once the candidates are
      known: request them in order and stop at the first response. */
  function FetchFirst(urls: seq<string>, fetch: string -> Fetch<Bytes>): (r: ImagePick)
    ensures r.tried <= urls
  {
    if urls == [] then ImagePick([], None)
    else
      match fetch(urls[0])
      case TransportError =>
        var rest := FetchFirst(urls[1..], fetch);
        assert urls == [urls[0]] + urls[1..];
        ImagePick([urls[0]] + rest.tried, rest.image)
      case Fetched(resp) => ImagePick([urls[0]], Some(resp.body))
  }

  /** No image exactly when every request fails, and then every request was
      made. */
  lemma {:induction false} FetchFirstNoneTriesAll(urls: seq<string>, fetch: string -> Fetch<Bytes>)
    ensures FetchFirst(urls, fetch).image.None? <==> AllFail(urls, fetch)
    ensures FetchFirst(urls, fetch).image.None? ==> FetchFirst(urls, fetch).tried == urls
  {
    if urls != [] {
      var later := urls[1..];
      FetchFirstNoneTriesAll(later, fetch);
      assert forall j :: 1 <= j < |urls| ==> urls[j] == later[j - 1];
      if fetch(urls[0]).TransportError? {
        var rest := FetchFirst(later, fetch);
        assert FetchFirst(urls, fetch) == ImagePick([urls[0]] + rest.tried, rest.image);
        assert urls == [urls[0]] + later;
      }
    }
  }

  /** A failing request followed by failing requests: all fail. */
  lemma AllFailCons(u: string, rest: seq<string>, fetch: string -> Fetch<Bytes>)
    requires fetch(u).TransportError? && AllFail(rest, fetch)
    ensures AllFail([u] + rest, fetch)
  {
    forall j | 0 <= j < |[u] + rest|
      ensures fetch(([u] + rest)[j]).TransportError?
    {
      if j > 0 {
        assert ([u] + rest)[j] == rest[j - 1];
      }
    }
  }

  /** With an image, the requests made are exactly the URLs up to the first
      that got a response (the tried URLs are a prefix of urls), and the image
      is that response's body. */
  lemma {:induction false} FetchFirstStopsAtFirstResponse(urls: seq<string>, fetch: string -> Fetch<Bytes>)
    ensures FetchFirst(urls, fetch).image.Some? ==>
              && FetchFirst(urls, fetch).tried != []
              && FirstSuccessAt(urls, fetch, |FetchFirst(urls, fetch).tried| - 1)
              && FetchFirst(urls, fetch).image.value
                 == fetch(urls[|FetchFirst(urls, fetch).tried| - 1]).response.body
  {
    if urls != [] && fetch(urls[0]).TransportError? {
      var later := urls[1..];
      FetchFirstStopsAtFirstResponse(later, fetch);
      var rest := FetchFirst(later, fetch);
      assert FetchFirst(urls, fetch) == ImagePick([urls[0]] + rest.tried, rest.image);
      if rest.image.Some? {
        var i := |rest.tried| - 1;
        assert urls[i + 1] == later[i];
        assert urls[..i + 1] == [urls[0]] + later[..i];
        AllFailCons(urls[0], later[..i], fetch);
      }
    }
  }

  /** The loop of extractImage (mux.go:211-227): skip profile pictures, skip
      images off the trusted host, request the rest in order, and return the
      body of the first request that gets any response. Because the checks
      never depend on earlier requests, the loop behaves as picking the
      candidates first and then requesting them. */
  function PickImage(imgs: seq<Node>, fetch: string -> Fetch<Bytes>): (r: ImagePick)
    ensures r == FetchFirst(CandidateUrls(imgs), fetch)
  {
    if imgs == [] then ImagePick([], None)
    else
      var img := imgs[0];
      var later := imgs[1..];
      if IsProfilePicture(img) then
        assert CandidateUrls(imgs) == CandidateUrls(later);
        PickImage(later, fetch)
      else if !(TrustedPrefix <= Src(img)) then
        assert CandidateUrls(imgs) == CandidateUrls(later);
        PickImage(later, fetch)
      else
        var urls := CandidateUrls(imgs);
        assert urls == [Src(img)] + CandidateUrls(later);
        assert urls[0] == Src(img) && urls[1..] == CandidateUrls(later);
        match fetch(Src(img))
        case TransportError =>
          var rest := PickImage(later, fetch);
          ImagePick([Src(img)] + rest.tried, rest.image)
        case Fetched(resp) => ImagePick([Src(img)], Some(resp.body))
  }

  /** First response wins: no image exactly when every candidate's request
      fails, and then all candidates were requested; otherwise the requests
      are the candidates up to the first that got a response, whose body is
      the image. */
  lemma PickImageFirstSuccess(imgs: seq<Node>, fetch: string -> Fetch<Bytes>)
    ensures PickImage(imgs, fetch).image.None? <==> AllFail(CandidateUrls(imgs), fetch)
    ensures PickImage(imgs, fetch).image.None? ==> PickImage(imgs, fetch).tried == CandidateUrls(imgs)
    ensures PickImage(imgs, fetch).image.Some? ==>
              && PickImage(imgs, fetch).tried != []
              && PickImage(imgs, fetch).tried <= CandidateUrls(imgs)
              && FirstSuccessAt(CandidateUrls(imgs), fetch, |PickImage(imgs, fetch).tried| - 1)
              && PickImage(imgs, fetch).image.value
                 == fetch(CandidateUrls(imgs)[|PickImage(imgs, fetch).tried| - 1]).response.body
  {
    FetchFirstNoneTriesAll(CandidateUrls(imgs), fetch);
    FetchFirstStopsAtFirstResponse(CandidateUrls(imgs), fetch);
  }

  /** Every URL the loop requests is one of the candidates. */
  lemma PickImageTriesCandidates(imgs: seq<Node>, fetch: string -> Fetch<Bytes>)
    ensures forall u <- PickImage(imgs, fetch).tried :: u in CandidateUrls(imgs)
  {
    var urls := CandidateUrls(imgs);
    var tried := PickImage(imgs, fetch).tried;
    assert tried <= urls;
    assert forall i :: 0 <= i < |tried| ==> tried[i] == urls[i] && urls[i] in urls;
  }

  /** extractImage (mux.go:210-228). Its pattern `//img` is absolute: it starts
      at the document root whatever node it is evaluated on, so every img of
      the page is considered, not only those inside the content node it is
      handed. They come in the order the library walks the path
      (Html.DescendantStep), not in document order. */
  function ExtractImage(page: Node, fetch: string -> Fetch<Bytes>): (r: ImagePick)
    ensures r.tried <= CandidateUrls(Images(DescendantStep(page)))
    ensures forall u <- r.tried :: TrustedPrefix <= u
    ensures forall u <- r.tried :: exists img <- Images(DescendantStep(page)) :: !IsProfilePicture(img) && Src(img) == u
    ensures r.image.None? <==> AllFail(CandidateUrls(Images(DescendantStep(page))), fetch)
    ensures r.image.Some? ==> r.tried != [] && FirstSuccessAt(CandidateUrls(Images(DescendantStep(page))), fetch, |r.tried| - 1)
    ensures r.image.Some? ==> r.tried != [] && r.image.value == fetch(r.tried[|r.tried| - 1]).response.body
  {
    var imgs := Images(DescendantStep(page));
    PickImageFirstSuccess(imgs, fetch);
    PickImageTriesCandidates(imgs, fetch);
    PickImage(imgs, fetch)
  }

  /** parseFacebookPost (mux.go:178-208): fetch the page, give up on a transport
      error, turn a non-200 status into its status line plus an error, give up
      on a parse failure, else read the content node if a pattern matches. The
      image is looked for only once a content node is found, but among all the
      images of the page (see ExtractImage). */
  function ParseFacebookPost(url: string, fetchPage: string -> Fetch<Page>, fetchImage: string -> Fetch<Bytes>): (r: Extraction)
    ensures r.error.Some? ==> r.image.None? && r.tried == []
    ensures forall u <- r.tried :: TrustedPrefix <= u
    ensures r.error.Some? ==> r.excerpt == if r.error.value.BadStatus? then r.error.value.status else []
    ensures r.error.None? <==> fetchPage(url).Fetched? && fetchPage(url).response.code == 200
                                && fetchPage(url).response.body.Document?
    ensures fetchPage(url).TransportError? ==> r.error == Some(Transport)
    ensures fetchPage(url).Fetched? && fetchPage(url).response.code != 200 ==>
              r.error == Some(BadStatus(fetchPage(url).response.status))
    ensures (fetchPage(url).Fetched? && fetchPage(url).response.code == 200 && fetchPage(url).response.body.Malformed?)
            ==> r.error == Some(ParseFailure)
    ensures r.error.None? && SelectContent(fetchPage(url).response.body.root, Patterns).None? ==>
              r.excerpt == [] && r.image.None? && r.tried == []
    ensures r.error.None? && SelectContent(fetchPage(url).response.body.root, Patterns).Some? ==>
              var content := SelectContent(fetchPage(url).response.body.root, Patterns).value;
              r.excerpt == RuneString(content)
              && ImagePick(r.tried, r.image) == ExtractImage(fetchPage(url).response.body.root, fetchImage)
  {
    match fetchPage(url)
    case TransportError => Extraction([], [], None, Some(Transport))
    case Fetched(resp) =>
      if resp.code != 200 then Extraction(resp.status, [], None, Some(BadStatus(resp.status)))
      else
        match resp.body
        case Malformed => Extraction([], [], None, Some(ParseFailure))
        case Document(root) =>
          match SelectContent(root, Patterns)
          case None => Extraction([], [], None, None)
          case Some(content) =>
            var pick := ExtractImage(root, fetchImage);
            Extraction(RuneString(content), pick.tried, pick.image, None)
  }
}
