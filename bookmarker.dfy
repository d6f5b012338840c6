/**
 * The bookmark logic of the bookmarker renderer: links are kept in the
 * window's key-value store (localStorage) as `{title, url}` records keyed by
 * url, read back one record per key, rendered as HTML fragments, and a failed
 * request is turned into an error message and then into the notice shown to
 * the user.
 *
 * JSON.stringify / JSON.parse of a record are taken as an identity round trip,
 * so the store maps a url straight to its `Link`. The order in which
 * `Object.keys(localStorage)` enumerates keys is chosen by the host; it is a
 * parameter here, any duplicate-free enumeration of the stored keys.
 */
module Bookmarker {
  import opened JsStrings

  /** The record stored for one bookmark. */
  datatype Link = Link(title: string, url: string)

  /** The parts of a fetch response that `validateResponse` reads. */
  datatype Response = Response(ok: bool, status: nat, statusText: string)

  /** A passed-through value, or the message of the Error thrown instead. */
  datatype Result<T> = Ok(value: T) | Err(message: string)

  type Store = map<string, Link>

  // ---- storeLink, getLinks, the clear-storage handler ----

  /** Every record is filed under its own url, as `storeLink` files it. */
  predicate KeyedByUrl(m: Store) {
    forall k :: k in m ==> m[k].url == k
  }

  /** The store after `storeLink(title, url)`. */
  function WithLink(m: Store, title: string, url: string): (r: Store)
    ensures url in r && r[url] == Link(title, url)
    ensures r.Keys == m.Keys + {url}
    ensures forall k :: k in m && k != url ==> r[k] == m[k]
  {
    m[url := Link(title, url)]
  }

  /** `keys` enumerates each key of `m` exactly once (some order of `Object.keys`). */
  predicate IsKeyOrder(keys: seq<string>, m: Store) {
    (forall i, j :: 0 <= i < j < |keys| ==> keys[i] != keys[j])
    && (forall k :: k in keys ==> k in m) && (forall k :: k in m ==> k in keys)
  }

  /** The records stored under `keys`, in that order. */
  function LinksAt(m: Store, keys: seq<string>): (links: seq<Link>)
    requires forall k :: k in keys ==> k in m
    ensures |links| == |keys|
    ensures forall i :: 0 <= i < |keys| ==> links[i] == m[keys[i]]
  {
    if keys == [] then [] else [m[keys[0]]] + LinksAt(m, keys[1..])
  }

  /** A duplicate-free sequence has as many elements as the set of its elements. */
  lemma {:induction false} DistinctCount(keys: seq<string>)
    requires forall i, j :: 0 <= i < j < |keys| ==> keys[i] != keys[j]
    ensures |set k | k in keys| == |keys|
  {
    if keys != [] {
      var rest := keys[1..];
      assert forall i, j :: 0 <= i < j < |rest| ==> rest[i] != rest[j] by {
        forall i, j | 0 <= i < j < |rest| ensures rest[i] != rest[j] {
          assert rest[i] == keys[i + 1] && rest[j] == keys[j + 1];
        }
      }
      DistinctCount(rest);
      assert keys[0] !in rest by {
        forall i | 0 <= i < |rest| ensures rest[i] != keys[0] {
          assert rest[i] == keys[i + 1];
        }
      }
      assert (set k | k in keys) == (set k | k in rest) + {keys[0]};
    }
  }

  /** `getLinks()`: one record per stored key, each the value stored under that key. */
  function GetLinks(m: Store, keys: seq<string>): (links: seq<Link>)
    requires IsKeyOrder(keys, m)
    ensures |links| == |keys| == |m|
    ensures forall i :: 0 <= i < |links| ==> links[i] == m[keys[i]]
    ensures forall l :: l in links <==> l in m.Values
  {
    DistinctCount(keys);
    assert (set k | k in keys) == m.Keys;
    LinksAt(m, keys)
  }

  /** Storing keeps every record filed under its own url. */
  lemma WithLinkKeyedByUrl(m: Store, title: string, url: string)
    requires KeyedByUrl(m)
    ensures KeyedByUrl(WithLink(m, title, url))
  {
  }

  /** Storing the same url twice leaves one entry holding the last title. */
  lemma WithLinkTwice(m: Store, title1: string, title2: string, url: string)
    ensures WithLink(WithLink(m, title1, url), title2, url) == WithLink(m, title2, url)
  {
  }

  /** A store grows by one entry when a new url is stored, and keeps its size when the url is already there. */
  lemma WithLinkSize(m: Store, title: string, url: string)
    ensures |WithLink(m, title, url)| == if url in m then |m| else |m| + 1
  {
    var r := WithLink(m, title, url);
    if url in m {
      assert r.Keys == m.Keys;
    } else {
      assert r.Keys == m.Keys + {url};
    }
  }

  /** In a store filled by `storeLink`, `getLinks` yields at most one record per url. */
  lemma GetLinksOnePerUrl(m: Store, keys: seq<string>)
    requires KeyedByUrl(m) && IsKeyOrder(keys, m)
    ensures var links := GetLinks(m, keys);
      forall i, j :: 0 <= i < j < |links| ==> links[i].url != links[j].url
  {
    var links := GetLinks(m, keys);
    forall i, j | 0 <= i < j < |links| ensures links[i].url != links[j].url {
      assert links[i].url == keys[i] && links[j].url == keys[j];
    }
  }

  /** After `storeLink(title, url)`, `getLinks` lists exactly one record for `url`, the one just stored. */
  lemma StoredLinkListedOnce(m: Store, title: string, url: string, keys: seq<string>)
    requires KeyedByUrl(m) && IsKeyOrder(keys, WithLink(m, title, url))
    ensures var links := GetLinks(WithLink(m, title, url), keys);
      Link(title, url) in links
      && forall l :: l in links && l.url == url ==> l == Link(title, url)
  {
    var r := WithLink(m, title, url);
    assert Link(title, url) in r.Values by {
      assert r[url] == Link(title, url);
    }
  }

  /** After the clear-storage handler there is no key left, so `getLinks` returns nothing and the
      rendered list is empty. */
  lemma ClearedStoreListsNothing(keys: seq<string>)
    requires IsKeyOrder(keys, map[])
    ensures keys == []
    ensures GetLinks(map[], keys) == []
    ensures LinksHtml(GetLinks(map[], keys)) == ""
  {
    var empty: Store := map[];
    assert |GetLinks(empty, keys)| == |keys| == |empty| == 0;
  }

  /** The window's localStorage as the bookmarker uses it. */
  class LinkStorage {
    var entries: Store

    /** The store as it persisted from earlier sessions. */
    constructor (persisted: Store)
      ensures entries == persisted
    {
      entries := persisted;
    }

    /** `storeLink(title, url)`: file `{title, url}` under `url`; every other key keeps its record. */
    method StoreLink(title: string, url: string)
      modifies this
      ensures entries == WithLink(old(entries), title, url)
      ensures entries[url] == Link(title, url)
      ensures forall k :: k in old(entries) && k != url ==> k in entries && entries[k] == old(entries)[k]
      ensures KeyedByUrl(old(entries)) ==> KeyedByUrl(entries)
    {
      entries := WithLink(entries, title, url);
    }

    /** The clear-storage button handler: `localStorage.clear()`. */
    method Clear()
      modifies this
      ensures entries == map[]
      ensures forall keys :: IsKeyOrder(keys, entries) ==> keys == []
    {
      entries := map[];
      forall keys | IsKeyOrder(keys, entries) ensures keys == [] {
        ClearedStoreListsNothing(keys);
      }
    }
  }

  // ---- convertToElement and renderLinks ----

  const ElementOpen := "<div class=\"link\">\n            <h3>"
  const ElementAfterTitle := "</h3>\n            <p><a href=\""
  const ElementAfterHref := "\">"
  const ElementClose := "</a></p>\n          </div>"

  /** `convertToElement(link)`: the HTML fragment for one link; besides the title and the url (twice) it
      holds the template's fixed text. */
  function ConvertToElement(link: Link): (html: string)
    ensures |html| == TemplateLength + |link.title| + 2 * |link.url|
  {
    ElementOpen + link.title + ElementAfterTitle + link.url + ElementAfterHref + link.url + ElementClose
  }

  /** The fragment's layout: the title sits inside the heading and the url twice, as the anchor's href and
      as its text, each at a position fixed by the template. */
  lemma ConvertToElementLayout(link: Link)
    ensures var html, t := ConvertToElement(link), |ElementOpen|;
      html[..t] == ElementOpen
      && html[t..t + |link.title|] == link.title
      && var h := t + |link.title| + |ElementAfterTitle|;
      html[t + |link.title|..h] == ElementAfterTitle
      && html[h..h + |link.url|] == link.url
      && var a := h + |link.url| + |ElementAfterHref|;
      html[h + |link.url|..a] == ElementAfterHref
      && html[a..a + |link.url|] == link.url
      && html[a + |link.url|..] == ElementClose
  {
  }

  /** The characters every fragment holds besides the title and the url. */
  const TemplateLength := |ElementOpen| + |ElementAfterTitle| + |ElementAfterHref| + |ElementClose|

  /** `getLinks().map(convertToElement).join('')`: the markup `renderLinks` installs. */
  function LinksHtml(links: seq<Link>): (html: string)
    ensures html == "" <==> links == []
    ensures |html| >= |links|
  {
    if links == [] then "" else ConvertToElement(links[0]) + LinksHtml(links[1..])
  }

  /** The markup of a list of links is the markup of its parts, in order. */
  lemma {:induction false} LinksHtmlConcat(a: seq<Link>, b: seq<Link>)
    ensures LinksHtml(a + b) == LinksHtml(a) + LinksHtml(b)
  {
    if a == [] {
      assert a + b == b;
    } else {
      assert (a + b)[0] == a[0];
      assert (a + b)[1..] == a[1..] + b;
      LinksHtmlConcat(a[1..], b);
    }
  }

  // ---- validateResponse ----

  const StatusPrefix := "Status code of "

  /** The message of the Error `validateResponse` throws. */
  function StatusError(response: Response): (msg: string)
    ensures |msg| > |StatusPrefix| + 1 + |response.statusText|
    ensures msg[..|StatusPrefix|] == StatusPrefix
    ensures msg[|msg| - |response.statusText|..] == response.statusText
  {
    StatusPrefix + NatToString(response.status) + " " + response.statusText
  }

  /** `validateResponse(response)`: pass a successful response through unchanged, reject any other with
      the status error. */
  function ValidateResponse(response: Response): (r: Result<Response>)
    ensures r.Ok? <==> response.ok
    ensures r.Ok? ==> r.value == response
    ensures r.Err? ==> r.message == StatusError(response)
  {
    if response.ok then Ok(response) else Err(StatusError(response))
  }

  /** The status error reads back: after the fixed prefix come the decimal digits of the status code,
      one space, and the status text. */
  lemma StatusErrorReadsBack(response: Response)
    ensures var msg := StatusError(response);
      var d := |msg| - |response.statusText| - 1;
      |StatusPrefix| < d < |msg|
      && msg[..|StatusPrefix|] == StatusPrefix
      && (forall i :: |StatusPrefix| <= i < d ==> IsDigit(msg[i]))
      && DecimalValue(msg[|StatusPrefix|..d]) == response.status
      && msg[d] == ' '
      && msg[d + 1..] == response.statusText
  {
    var msg := StatusError(response);
    var digits := NatToString(response.status);
    var d := |msg| - |response.statusText| - 1;
    assert msg[|StatusPrefix|..d] == digits;
    DecimalRoundTrip(response.status);
  }

  /** Proof device for reading the status error back (`validateResponse` in renderer.js never searches the message): the index
      of the first space in `s`, or `|s|` when there is none. */
  function FirstSpace(s: string): (n: nat)
    ensures n <= |s|
  {
    if s == [] || s[0] == ' ' then 0 else 1 + FirstSpace(s[1..])
  }

  /** The first space after a run of digits is the one right after them. */
  lemma {:induction false} FirstSpaceAfterDigits(d: string, t: string)
    requires forall i :: 0 <= i < |d| ==> IsDigit(d[i])
    ensures FirstSpace(d + " " + t) == |d|
  {
    if d != [] {
      assert (d + " " + t)[0] == d[0];
      assert (d + " " + t)[1..] == d[1..] + " " + t;
      FirstSpaceAfterDigits(d[1..], t);
    }
  }

  /** Text of the form prefix, digits, space, rest splits back into its digits and its rest. */
  lemma SplitAfterDigits(p: string, d1: string, t1: string, d2: string, t2: string)
    requires forall i :: 0 <= i < |d1| ==> IsDigit(d1[i])
    requires forall i :: 0 <= i < |d2| ==> IsDigit(d2[i])
    requires p + d1 + " " + t1 == p + d2 + " " + t2
    ensures d1 == d2 && t1 == t2
  {
    var r1, r2 := d1 + " " + t1, d2 + " " + t2;
    assert p + d1 + " " + t1 == p + r1 && p + d2 + " " + t2 == p + r2;
    assert r1 == (p + r1)[|p|..] == r2;
    FirstSpaceAfterDigits(d1, t1);
    FirstSpaceAfterDigits(d2, t2);
    assert d1 == r1[..|d1|] && d2 == r2[..|d2|];
    assert t1 == r1[|d1| + 1..] && t2 == r2[|d2| + 1..];
  }

  /** Two rejected responses with the same message have the same status code and status text. */
  lemma StatusErrorInjective(a: Response, b: Response)
    requires StatusError(a) == StatusError(b)
    ensures a.status == b.status && a.statusText == b.statusText
  {
    SplitAfterDigits(StatusPrefix, NatToString(a.status), a.statusText, NatToString(b.status), b.statusText);
    NatToStringInjective(a.status, b.status);
  }

  // ---- handleError ----

  /** The text of the notice before the error message. */
  function NoticeLead(url: string): string {
    NoticeHead(url) + " "
  }

  /** The lead text up to its colon. */
  function NoticeHead(url: string): string {
    "There was an issue adding \"" + url + "\":"
  }

  /** `handleError(error, url)`: the template literal, with its surrounding line breaks and indentation,
      then `trim()`.
      The notice is the lead text and the message with trailing whitespace removed; the template's own
      line breaks and indentation are gone. */
  function ErrorNotice(url: string, message: string): (notice: string)
    ensures notice == TrimEnd(NoticeLead(url) + message)
  {
    var body := NoticeLead(url) + message;
    assert AllWhitespace("\n      ");
    assert AllWhitespace("\n    ");
    assert "\n      " + NoticeLead(url) + message + "\n    " == "\n      " + (body + "\n    ");
    assert (body + "\n    ")[0] == 'T';
    TrimStartAfterWhitespace("\n      ", body + "\n    ");
    TrimEndBeforeWhitespace(body, "\n    ");
    Trim("\n      " + NoticeLead(url) + message + "\n    ")
  }

  /** A message with some visible character appears in full, less its trailing whitespace, after the lead. */
  lemma ErrorNoticeOfMessage(url: string, message: string, j: nat)
    requires j < |message| && !IsWhitespace(message[j])
    ensures ErrorNotice(url, message) == NoticeLead(url) + TrimEnd(message)
  {
    TrimEndOfSolidTail(NoticeLead(url), message, j);
  }

  /** A blank message leaves the notice ending at the colon: `trim()` also removes the space after it. */
  lemma ErrorNoticeOfBlankMessage(url: string, message: string)
    requires AllWhitespace(message)
    ensures ErrorNotice(url, message) == NoticeHead(url)
  {
    var head := NoticeHead(url);
    assert NoticeLead(url) + message == head + (" " + message);
    assert AllWhitespace(" " + message);
    TrimEndBeforeWhitespace(head, " " + message);
    assert head[|head| - 1] == ':';
  }

  /** Trimming text that ends in a digit only trims what follows the digit. */
  lemma TrimEndAfterDigits(a: string, digits: string, tail: string)
    requires |digits| > 0 && IsDigit(digits[|digits| - 1])
    ensures TrimEnd(a + digits + tail) == a + digits + TrimEnd(tail)
  {
    var head := a + digits;
    assert head[|head| - 1] == digits[|digits| - 1];
    TrimEndAfterSolid(head, tail);
  }

  /** The notice for a rejected response: the lead, the status error's prefix and code, then the status
      text after one space, less any trailing whitespace. */
  lemma FailedResponseNotice(url: string, response: Response)
    requires !response.ok
    ensures ErrorNotice(url, ValidateResponse(response).message)
      == NoticeLead(url) + StatusPrefix + NatToString(response.status) + TrimEnd(" " + response.statusText)
  {
    var lead, digits := NoticeLead(url), NatToString(response.status);
    var tail := " " + response.statusText;
    assert lead + StatusError(response) == (lead + StatusPrefix + digits) + tail;
    TrimEndAfterDigits(lead + StatusPrefix, digits, tail);
  }
}
