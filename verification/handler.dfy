/** The message handler (mux.go:72-176): ignore the bot's own messages, find
    the first link, sanitise it, read the linked page, compose the replacement
    text, post it and delete the original. The chat session is reduced to the
    actions the handler asks of it, in order. */
module Handler {
  import opened Options
  import opened Link
  import opened Extract

  /** An inbound chat message as the handler reads it. nick is the member
      nickname of the author, empty when none is set; content is the message
      text as the link pattern divides it. */
  datatype Message = Message(id: string, channelId: string, authorId: string, username: string,
                             nick: string, content: seq<Segment>)

  /** A file attached to a posted message. */
  datatype Attachment = Attachment(name: string, contentType: string, body: Bytes)

  /** What the handler asks of the network and of the chat service. */
  datatype Action =
    | FetchPage(url: string)
    | FetchImage(url: string)
    | Post(channelId: string, text: string, file: Option<Attachment>)
    | Delete(channelId: string, messageId: string)

  /** The longest excerpt, in runes, that goes into a post (mux.go:146). */
  const MaxExcerpt: nat := 200

  /** The name a post is attributed to: the nickname, else the username
      (mux.go:134-137). */
  function AuthorName(m: Message): (name: string)
    ensures m.nick != [] ==> name == m.nick
    ensures m.nick == [] ==> name == m.username
  {
    if m.nick != [] then m.nick else m.username
  }

  /** The first line of every post (mux.go:150). */
  function Header(author: string): string
  {
    "**" + author + "** Says: \n"
  }

  /** The excerpt cut to at most MaxExcerpt runes (mux.go:146-148). */
  function Truncate(s: string): (r: string)
    ensures |r| <= MaxExcerpt
    ensures r <= s
    ensures |s| <= MaxExcerpt ==> r == s
    ensures |s| > MaxExcerpt ==> |r| == MaxExcerpt
  {
    if |s| > MaxExcerpt then s[..MaxExcerpt] else s
  }

  /** The quote marker: ">" before an excerpt, nothing when there is none
      (mux.go:133, 143-145). */
  function QuoteMarker(extracted: string): (q: string)
    ensures q == ">" <==> extracted != []
    ensures q == [] <==> extracted == []
  {
    if |extracted| == 0 then [] else ">"
  }

  /** The text every link match becomes (mux.go:150). The space after the
      marker is there even when the marker is empty. */
  function Replacement(link: string, extracted: string): (r: string)
    ensures "<" + link + "> \n" <= r && r[|r| - 1] == '\n'
    ensures extracted == [] ==> r == "<" + link + "> \n \n"
    ensures extracted != [] ==> r == "<" + link + "> \n> " + Truncate(extracted) + "\n"
  {
    "<" + link + "> \n" + QuoteMarker(extracted) + " " + Truncate(extracted) + "\n"
  }

  /** The posted text as the handler means it: the header, then the message
      with every link match replaced by the replacement, taken literally. */
  function Compose(author: string, content: seq<Segment>, link: string, extracted: string): (text: string)
    ensures Header(author) <= text
    ensures FirstMatch(content).None? ==> text == Header(author) + Content(content)
  {
    ReplaceAllWithoutMatch(content, Replacement(link, extracted));
    Header(author) + ReplaceAll(content, Replacement(link, extracted))
  }

  /** The posted text as mux.go:150 computes it: ReplaceAllString expands '$'
      references in the replacement against each match. */
  function ComposeAsWritten(author: string, content: seq<Segment>, link: string, extracted: string): (text: string)
    ensures Header(author) <= text
    ensures '$' !in Replacement(link, extracted) ==> text == Compose(author, content, link, extracted)
  {
    Header(author) + ReplaceAllExpanding(content, Replacement(link, extracted))
  }

  /** Each link match, wherever it sits, becomes exactly the replacement, and
      the text on either side of it is replaced on its own. */
  lemma ComposeReplacesEachMatch(author: string, before: seq<Segment>, whole: string, base: string,
                                 after: seq<Segment>, link: string, extracted: string)
    ensures Compose(author, before + [Match(whole, base)] + after, link, extracted)
            == Header(author) + (ReplaceAll(before, Replacement(link, extracted))
                                 + Replacement(link, extracted) + ReplaceAll(after, Replacement(link, extracted)))
  {
    ReplaceAllAroundMatch(before, whole, base, after, Replacement(link, extracted));
  }

  /** A '$' in the excerpt is not safe as written: an excerpt "$5" names a
      capture group the link pattern lacks, so the post loses it, while the
      literal replacement keeps it. */
  lemma DollarExcerptIsLost(author: string, link: string, whole: string, base: string)
    requires '$' !in link
    ensures ComposeAsWritten(author, [Match(whole, base)], link, "$5")
            == Header(author) + ("<" + link + "> \n> " + "\n")
    ensures Compose(author, [Match(whole, base)], link, "$5")
            == Header(author) + ("<" + link + "> \n> " + "$5\n")
  {
    var p := "<" + link + "> \n> ";
    var r := Replacement(link, "$5");
    assert Truncate("$5") == "$5";
    assert r == p + "$5\n";
    ExpandDropsMissingGroup(p, whole, base);
    assert ReplaceAll([Match(whole, base)], r) == r + ReplaceAll([], r);
    assert ReplaceAllExpanding([Match(whole, base)], r)
           == ExpandTemplate(r, whole, base) + ReplaceAllExpanding([], r);
  }

  /** The attachment for a fetched image (mux.go:152-159). */
  function Attach(image: Option<Bytes>): (f: Option<Attachment>)
    ensures f.Some? <==> image.Some?
    ensures f.Some? ==> f.value == Attachment("gg.jpeg", "image/jpeg", image.value)
  {
    match image
    case None => None
    case Some(body) => Some(Attachment("gg.jpeg", "image/jpeg", body))
  }

  /** One image request per URL, in order. */
  function FetchImages(urls: seq<string>): (acts: seq<Action>)
    ensures |acts| == |urls|
    ensures forall i :: 0 <= i < |urls| ==> acts[i] == FetchImage(urls[i])
  {
    seq(|urls|, i requires 0 <= i < |urls| => FetchImage(urls[i]))
  }

  /** What a message with a link causes once the page has been read and the
      text composed: the page request, the image requests, the post and the
      delete, in that order. */
  function Respond(m: Message, base: string, text: string, x: Extraction): (acts: seq<Action>)
    requires forall u <- x.tried :: TrustedPrefix <= u
    ensures |acts| == |x.tried| + 3
    ensures acts[0] == FetchPage(base)
    ensures forall i :: 1 <= i < |acts| - 2 ==> acts[i] == FetchImage(x.tried[i - 1]) && TrustedPrefix <= acts[i].url
    ensures acts[|acts| - 2] == Post(m.channelId, text, Attach(x.image))
    ensures acts[|acts| - 1] == Delete(m.channelId, m.id)
    ensures x.tried == [] ==> acts == [FetchPage(base), Post(m.channelId, text, Attach(x.image)), Delete(m.channelId, m.id)]
  {
    assert forall i :: 0 <= i < |x.tried| ==> x.tried[i] in x.tried;
    [FetchPage(base)] + FetchImages(x.tried) + [Post(m.channelId, text, Attach(x.image)), Delete(m.channelId, m.id)]
  }

  /** OnMessageCreate (mux.go:72-176): the actions one message causes. The
      page request uses capture group 1, the link without its query; the post
      is made whatever parseFacebookPost reported, and the delete is asked for
      whatever became of the post. */
  function OnMessageCreate(botId: string, m: Message, fetchPage: string -> Fetch<Page>,
                           fetchImage: string -> Fetch<Bytes>): (acts: seq<Action>)
    ensures m.authorId == botId ==> acts == []
    ensures FirstMatch(m.content).None? ==> acts == []
    ensures m.authorId != botId && FirstMatch(m.content).Some? ==>
              && |acts| >= 3
              && acts[0] == FetchPage(FirstMatch(m.content).value.base)
              && (forall i :: 1 <= i < |acts| - 2 ==> acts[i].FetchImage? && TrustedPrefix <= acts[i].url)
              && acts[|acts| - 2].Post? && acts[|acts| - 2].channelId == m.channelId
              && Header(AuthorName(m)) <= acts[|acts| - 2].text
              && acts[|acts| - 1] == Delete(m.channelId, m.id)
  {
    if m.authorId == botId then []
    else
      match FirstMatch(m.content)
      case None => []
      case Some(link) =>
        var x := ParseFacebookPost(link.base, fetchPage, fetchImage);
        Respond(m, link.base, ComposeAsWritten(AuthorName(m), m.content, SanitiseLink(link.whole), x.excerpt), x)
  }

  /** A page answered with a status other than 200 is still posted: the
      status line is the excerpt, nothing is attached, no image is requested,
      and the original is still deleted. */
  lemma BadStatusStillPosts(botId: string, m: Message, fetchPage: string -> Fetch<Page>,
                            fetchImage: string -> Fetch<Bytes>, whole: string, base: string)
    requires m.authorId != botId
    requires FirstMatch(m.content) == Some(Match(whole, base))
    requires fetchPage(base).Fetched? && fetchPage(base).response.code != 200
    ensures OnMessageCreate(botId, m, fetchPage, fetchImage)
            == [FetchPage(base),
                Post(m.channelId, ComposeAsWritten(AuthorName(m), m.content, SanitiseLink(whole), fetchPage(base).response.status), None),
                Delete(m.channelId, m.id)]
  {
    var x := ParseFacebookPost(base, fetchPage, fetchImage);
    assert x.tried == [] && x.image == None && x.excerpt == fetchPage(base).response.status;
    var text := ComposeAsWritten(AuthorName(m), m.content, SanitiseLink(whole), x.excerpt);
    assert OnMessageCreate(botId, m, fetchPage, fetchImage) == Respond(m, base, text, x);
  }

  /** A page that cannot be reached still yields a post: the link alone, with
      an empty marker and excerpt, followed by the delete. */
  lemma UnreachablePageStillPosts(botId: string, m: Message, fetchPage: string -> Fetch<Page>,
                                  fetchImage: string -> Fetch<Bytes>, whole: string, base: string)
    requires m.authorId != botId
    requires FirstMatch(m.content) == Some(Match(whole, base))
    requires fetchPage(base).TransportError?
    ensures OnMessageCreate(botId, m, fetchPage, fetchImage)
            == [FetchPage(base),
                Post(m.channelId, ComposeAsWritten(AuthorName(m), m.content, SanitiseLink(whole), []), None),
                Delete(m.channelId, m.id)]
  {
    var x := ParseFacebookPost(base, fetchPage, fetchImage);
    assert x.tried == [] && x.image == None && x.excerpt == [];
    var text := ComposeAsWritten(AuthorName(m), m.content, SanitiseLink(whole), x.excerpt);
    assert OnMessageCreate(botId, m, fetchPage, fetchImage) == Respond(m, base, text, x);
  }

  /** The post carries an image exactly when extraction found one, and the
      attachment is that image as gg.jpeg. */
  lemma PostAttachesExtractedImage(botId: string, m: Message, fetchPage: string -> Fetch<Page>,
                                   fetchImage: string -> Fetch<Bytes>, whole: string, base: string)
    requires m.authorId != botId
    requires FirstMatch(m.content) == Some(Match(whole, base))
    ensures |OnMessageCreate(botId, m, fetchPage, fetchImage)| == |ParseFacebookPost(base, fetchPage, fetchImage).tried| + 3
    ensures OnMessageCreate(botId, m, fetchPage, fetchImage)[|ParseFacebookPost(base, fetchPage, fetchImage).tried| + 1]
            == Post(m.channelId,
                    ComposeAsWritten(AuthorName(m), m.content, SanitiseLink(whole), ParseFacebookPost(base, fetchPage, fetchImage).excerpt),
                    Attach(ParseFacebookPost(base, fetchPage, fetchImage).image))
    ensures OnMessageCreate(botId, m, fetchPage, fetchImage)[|ParseFacebookPost(base, fetchPage, fetchImage).tried| + 1].file.Some?
            <==> ParseFacebookPost(base, fetchPage, fetchImage).image.Some?
    ensures '$' !in Replacement(SanitiseLink(whole), ParseFacebookPost(base, fetchPage, fetchImage).excerpt) ==>
              OnMessageCreate(botId, m, fetchPage, fetchImage)[|ParseFacebookPost(base, fetchPage, fetchImage).tried| + 1].text
              == Compose(AuthorName(m), m.content, SanitiseLink(whole), ParseFacebookPost(base, fetchPage, fetchImage).excerpt)
  {
    var x := ParseFacebookPost(base, fetchPage, fetchImage);
    var link := SanitiseLink(whole);
    LinkMessageResponds(botId, m, fetchPage, fetchImage, whole, base);
    assert '$' !in Replacement(link, x.excerpt) ==>
             ComposeAsWritten(AuthorName(m), m.content, link, x.excerpt) == Compose(AuthorName(m), m.content, link, x.excerpt);
  }

  /** A message from someone else that holds a link yields the response to
      what parseFacebookPost read from capture group 1, with the text composed
      as written. */
  lemma LinkMessageResponds(botId: string, m: Message, fetchPage: string -> Fetch<Page>,
                            fetchImage: string -> Fetch<Bytes>, whole: string, base: string)
    requires m.authorId != botId
    requires FirstMatch(m.content) == Some(Match(whole, base))
    ensures var x := ParseFacebookPost(base, fetchPage, fetchImage);
            OnMessageCreate(botId, m, fetchPage, fetchImage)
            == Respond(m, base, ComposeAsWritten(AuthorName(m), m.content, SanitiseLink(whole), x.excerpt), x)
  {
  }
}
