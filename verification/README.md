# discord-embed-supercharger, modelled in Dafny

The bot watches a Discord channel for Facebook links. When a message from
someone other than the bot contains one, the bot does four things:

- It rewrites the link so that only an allow-list of query keys remains.
- It fetches the linked page and finds the post's content node.
- It takes an excerpt of the post's text and the first usable image on the page.
- It posts a replacement message quoting the excerpt, with the image attached, and deletes the original message.

The model covers the message handler and its helpers in `mux.go`:

- `OnMessageCreate`;
- `parseFacebookPost`;
- `extractImage`;
- `SoupNode.runeString`.

Each is a pure function over immutable data:

| module | what it holds |
|---|---|
| `Options` | `Option` |
| `Strings` | Go's `strings.Cut`, `strings.Contains` and the byte order of strings |
| `Query` | the query half of link sanitisation: `url.ParseQuery`, the allow-list deletion loop, and `url.Values.Encode` (a stable sort by key) |
| `Link` | `url.Parse` and `URL.String` as far as the handler touches them; the sanitised link; the message divided by the link pattern into plain text and matches; `ReplaceAllString`, both with literal replacement and with Go's `$`-expansion |
| `Html` | the parsed page as a tree of elements and text, with the string value of a node, document order, the order in which a `//` path visits nodes, and attribute lookup |
| `Extract` | the content patterns, `runeString`, the image loop and `parseFacebookPost`, where HTTP is an oracle from URL to outcome |
| `Handler` | `OnMessageCreate` as the ordered list of actions it asks of the network and of Discord: fetch page, fetch images, post, delete |

Six behaviours of the code are easy to misread, and the model follows the code in each:

- **Errors from the page fetch.** On a transport error or a non-200 status, the handler still posts the replacement. On a non-200 status the status line becomes the excerpt. The handler also deletes the original whether or not the post succeeded.
- **Which link is fetched.** The page is fetched from capture group 1, the link with its query cut off, not from the sanitised link.
- **Failed image fetches.** When an image request fails, `extractImage` moves on to the next candidate (`continue`, mux.go:222-224). It does not give up after one attempt.
- **What counts as a fetched image.** Any response counts, whatever its status. Only a transport error makes the loop skip an image.
- **Which images are considered.** The image pattern `//img` is absolute: an XPath path that starts with `//` selects from the document root (section 2.5 of the XPath 1.0 recommendation). So although `extractImage` is handed the content node (mux.go:203), it looks at every image of the page. It only runs once a content node has been found.
- **In which order paths visit nodes.** The xmlpath library evaluates `//img` one step at a time, as `/descendant-or-self::node()/child::img`. It nests one iterator per step and does not sort the result. So it takes every node from the root down, in document order, and yields that node's matching children left to right. The result is grouped by parent, which is not document order: an image directly under the body comes before an earlier image inside a link. The same holds for the content patterns `//div[@id=…]`. The model walks paths in this order.

## Model

| member | source | states |
|---|---|---|
| Query.ParseQuery | mux.go:124 | Every decoded pair is clean: no '&' or ';' anywhere, and no '=' in a key. No character that is absent from the query appears in any key or value. |
| Query.EncodeQuery | mux.go:131 | The encoded query is empty exactly when no pair is left, so an emptied query prints no '?' unless ForceQuery was set. |
| Query.ParseEncode | mux.go:124-131 | Decoding an encoded list of clean pairs gives back the same pairs in the same order. Encode and Query are inverses. |
| Query.KeepWhitelisted | mux.go:126-130 | Only allow-listed keys remain, and each comes from the input. An allow-listed key keeps all its values in order. Any other key has none left. |
| Query.SortByKey | mux.go:131 | The output is sorted by key. Each key keeps exactly its values, in their original order (a stable sort). No pair is invented. |
| Query.Sanitise | mux.go:124-131 | The sanitised pairs are sorted and allow-listed, and taken from the input. Each allow-listed key keeps every value it had, in order. Every other key is gone. |
| Query.SanitiseIdempotent | mux.go:124-131 | Sanitising twice is the same as sanitising once. |
| Link.UrlString | mux.go:150 | The printed link starts with the scheme, host and path. A '?' follows exactly when there is a query or ForceQuery is set. A non-empty fragment ends the link after a '#'. With neither, the link is the prefix alone. |
| Link.ParseUrl | mux.go:122 | The parts are well formed: the prefix holds no '?' or '#', and the query holds no '#'. Printing the parts gives back the input, except for the '#' of an empty fragment. |
| Link.ParseUrlString | mux.go:150 | Parsing a printed well-formed link gives back the same parts. |
| Link.SanitiseLink | mux.go:122-131 | The sanitised link keeps the scheme, host and path, the ForceQuery flag and the fragment. Its query decodes to exactly the sanitised pairs: only allow-listed keys, each with all its values in order. |
| Link.SanitiseLinkIdempotent | mux.go:122-131 | Sanitising a sanitised link gives the same string. |
| Link.FirstMatch | mux.go:119 | No match is found exactly when the message holds only plain text. A match found is a link match. |
| Link.FirstMatchIsFirst | mux.go:119 | The match found is the earliest one in the message. |
| Link.ReplaceAllWithoutMatch | mux.go:150 | A message without a link comes through replacement unchanged. |
| Link.ReplaceAllAppend | mux.go:150 | Replacement distributes over joined stretches of the message. |
| Link.ReplaceAllAroundMatch | mux.go:150 | Any match, wherever it sits, becomes the replacement. The text before and after it is replaced independently. |
| Link.ExpandTemplate | mux.go:150 | A template without '$' expands to itself. |
| Link.ExpandLiteralPrefix | mux.go:150 | A '$'-free prefix passes through expansion unchanged. |
| Link.ExpandDropsMissingGroup | mux.go:150 | `$5` names a group the link pattern lacks, so expansion removes it. |
| Link.ReplaceAllExpanding | mux.go:150 | With a '$'-free replacement, Go's ReplaceAllString equals literal replacement. |
| Html.DescendantStepSameNodes | mux.go:200 | A path starting with `//` visits exactly the nodes strictly inside the root, only in another order than document order. |
| Html.FirstAttr | mux.go:212-216 | An attribute value that is found belongs to an attribute of that name on the node. |
| Html.FirstAttrIsFirst | mux.go:212-216 | Nothing is found exactly when no attribute has the name. Otherwise the first such attribute's value is returned. |
| Extract.DivsWithId | mux.go:199-200 | A pattern selects exactly the div elements whose id matches, and nothing else. |
| Extract.DivsWithIdFirst | mux.go:200-203 | The first node selected is the earliest matching div in the order the path visits nodes. |
| Extract.SelectContent | mux.go:199-207 | There is no content node exactly when no pattern matches. Otherwise the content is the first match of the first pattern, in priority order, that matches anything. It is a div inside the page. |
| Extract.ChildDivText | mux.go:237-240 | The fallback is empty exactly when there is no child div. When the children hold no text, it is one space per child div. |
| Extract.RuneString | mux.go:230-242 | A node with text yields that text verbatim. A node without text yields one space per child div, because the library's string value already includes all descendant text. The result is empty exactly when there is neither text nor a child div. |
| Extract.CandidateUrls | mux.go:212-219 | Each candidate URL is the source of an image that is not a profile picture and whose source carries the trusted host prefix. Conversely, every image passing both filters contributes its source. |
| Extract.FetchFirst | mux.go:221-227 | The requests made are a prefix of the candidates, taken in order. |
| Extract.FetchFirstNoneTriesAll | mux.go:221-227 | There is no image exactly when every request fails. In that case every candidate was requested. |
| Extract.FetchFirstStopsAtFirstResponse | mux.go:221-225 | With an image, the requests stop at the first URL that got a response. Every earlier request failed, and the image is that response's body. |
| Extract.PickImage | mux.go:210-228 | The interleaved skip-and-fetch loop behaves the same as filtering the candidates first and then fetching them in order. |
| Extract.PickImageFirstSuccess | mux.go:210-228 | There is no image exactly when every candidate's request fails, and then all candidates were tried. Otherwise the tried URLs are the candidates up to the first response, and the image is that response's body. |
| Extract.Images | mux.go:211 | The images are exactly the img elements among the given nodes: every one is listed and nothing else is. |
| Extract.ImagesOne | mux.go:211 | A single node is kept exactly when it is an img element. |
| Extract.ImagesAppend | mux.go:211 | The images of joined runs of nodes are the joined images. With ImagesOne, this keeps the input's order and lists each occurrence once. |
| Extract.ShallowImageFirst | mux.go:211 | On a body holding a link around image A and then image B, document order lists A first. The path `//img` yields B first. |
| Extract.ExtractImage | mux.go:210-228 | Only candidate URLs of the page's images are requested, in the order `//img` yields them. Each carries the trusted host prefix and is the source of an image in the page that is not a profile picture. There is no image exactly when every candidate's request fails. Otherwise the requests stop at the first candidate that got a response, every earlier one failed, and the image is the body of that last response. |
| Extract.ParseFacebookPost | mux.go:178-208 | There is no error exactly when the page was fetched with status 200 and parsed. A non-200 status yields its status line as both the excerpt and the error. A transport error yields the transport error, and a page that does not parse yields the parse error; both come with no excerpt and no image. With no content node, nothing is extracted. Otherwise the excerpt is the content node's runeString and the image is what extractImage picks among all the images of the page. |
| Handler.AuthorName | mux.go:134-137 | The post is attributed to the member nickname when it is set, and to the username otherwise. |
| Handler.Truncate | mux.go:146-148 | The excerpt is a prefix of the extracted text, at most 200 runes long. It is unchanged when the text is short enough, and exactly 200 runes when it is longer. |
| Handler.QuoteMarker | mux.go:133-145 | The marker is ">" exactly when the extracted text is non-empty, and empty exactly when it is empty. |
| Handler.Replacement | mux.go:150 | The replacement starts with the sanitised link in angle brackets and a newline, and ends with a newline. With no excerpt it is the link line followed by " \n": the space stays. With an excerpt, the quote line is "> " and the excerpt cut to 200 runes. |
| Handler.Compose | mux.go:150 | The post starts with the author header. A message without a link is kept verbatim after it. |
| Handler.ComposeAsWritten | mux.go:150 | The post starts with the author header. When the replacement holds no '$', the text equals the literal composition. |
| Handler.ComposeReplacesEachMatch | mux.go:150 | Any link match in the message becomes exactly the replacement, and the text on either side of it is replaced on its own. |
| Handler.DollarExcerptIsLost | mux.go:150 | With the excerpt "$5", the as-written post loses it. The literal composition keeps it. |
| Handler.Attach | mux.go:152-159 | The post has an attachment exactly when an image was fetched. The attachment is that image as gg.jpeg of type image/jpeg. |
| Handler.Respond | mux.go:139-174 | The actions come in the handler's order: the page fetch of the given link, one fetch per requested image URL in order (each from the trusted host), the post of the given text with the image attached when there is one, and then the delete of the original, whatever became of the post. With no image requests, these are exactly the three actions. |
| Handler.OnMessageCreate | mux.go:76-175 | The bot's own messages and messages without a link cause nothing. Otherwise the actions are, in order: the page fetch of capture group 1, image fetches (each from the trusted host), a post to the channel that starts with the author header, and the delete of the original message. The post text is composed as mux.go:150 writes it, with `$`-expansion. |
| Handler.BadStatusStillPosts | mux.go:139-175 | A non-200 page still causes a post whose excerpt is the status line, composed as written, with no image, followed by the delete. No image is requested. |
| Handler.UnreachablePageStillPosts | mux.go:139-175 | An unreachable page still causes a post with an empty marker and excerpt, composed as written, followed by the delete. No image is requested. |
| Handler.PostAttachesExtractedImage | mux.go:150-165 | The post carries the text composed as written, and an attachment exactly when extraction found an image. When the replacement holds no '$', that text is the literal composition. |

## Left out

- Percent-escaping is not modelled in `url.Parse`, `url.ParseQuery`, `Values.Encode` and `URL.String`. Keys, values and link parts pass through unchanged. The escaping rules belong to Go's library, not to this program.
- `url.Parse` errors are not modelled, and neither are its scheme, host and path details. Everything before the query is kept as one opaque prefix. The handler discards the error (mux.go:122), so on a parse error `postLinkURL` is nil and the source panics at `postLinkURL.Query()` (mux.go:124). This can happen: the link pattern also matches '\n', so a message such as "https://m.facebook.com/story.php?id=1" followed by a newline and "look here" is one match that `url.Parse` rejects (a control character). The model assumes the parse succeeds.
- The regular-expression engine is not modelled. The message content is given already divided into plain text and link matches. For each match, the model keeps the whole match (group 0) and group 1.
- The xmlpath library's path evaluator is not part of this model. Html.DescendantStep states the order it yields as a definition. The evaluator also skips a node it has already yielded. Every node has exactly one parent, so the child step never meets a node twice, and the model leaves that check out.
- The HTML parser (`xmlpath.ParseHTML`) is not modelled. A page body is either a parsed tree or malformed. Comment and processing-instruction nodes are not modelled.
- Link.IsNameChar: only ASCII letters, digits and '_' are treated as group-name characters. Go also accepts other Unicode letters and digits after '$'.
- HTTP is an oracle from URL to outcome. The User-Agent header, `http.NewRequest` failures (treated as transport errors), response-body streaming and closing, and timeouts are not modelled.
- The Discord session is reduced to a list of requested actions. Send and delete failures are only logged by the source, so they change nothing.
- Channel lookup and the DM flags of `Context` (mux.go:82-107) are left out because nothing reads them afterwards. The post and the delete go to the message's channel.
- A nil `Member` or a channel lookup that fails makes the source panic at mux.go:120 or mux.go:134. The model assumes both are present.
- `OnReady`, `main.go`, logging and `fmt.Println` are left out. They are start-up code and output only.
- Concurrency between handler invocations is left out. Each message is handled on its own.

## Findings

| source | as written | input that shows it | evidently intended | confidence | as-written member | corrected member |
|---|---|---|---|---|---|---|
| mux.go:150 | The replacement text, including the page excerpt, is passed to `ReplaceAllString`, which expands `$name` and `${name}` references against each match. Handler.OnMessageCreate composes the post this way, as the source does. | A post whose excerpt is `$5`: the link pattern has no group 5, so the post shows an empty quote line. Handler.DollarExcerptIsLost proves this. | The excerpt and link appear verbatim (`ReplaceAllLiteralString`). | not executed | Handler.ComposeAsWritten | Handler.Compose |
