# Packing list and bookmark store — a Dafny model

This project models the two pieces of list and key-value logic in the Electron tutorial apps:

- **jetsetter's `Application` component** (`jetsetter.dfy`, module `Jetsetter`). It holds a packing list of items, each with a text `value`, an `id` and a `packed` flag. Its handlers replace the list in three ways: `addItem` prepends an item; `markAsPacked` drops every item with the argument's id and prepends a copy of the argument with `packed` negated; `markAllAsUnpacked` clears every flag. `render` splits the list into an unpacked and a packed sublist. The new lists are computed by pure functions (`WithAdded`, `MarkedAsPacked`, `AllUnpacked`, `Unpacked`, `Packed`; `MarkedAsPacked`, `Unpacked` and `Packed` are built on `Filter`, a model of `Array.prototype.filter`). The class `Application` has the `items` state field, and its methods assign those results to it, as `setState` does.
- **bookmarker's renderer** (`bookmarker.dfy`, module `Bookmarker`). Links are stored in localStorage, modelled as the class `LinkStorage` over a `map<string, Link>` field. `storeLink` files `{title, url}` under its url. `getLinks` reads back one record per key. The clear button empties the store. `validateResponse` passes a successful response through and otherwise fails with `Status code of <status> <statusText>`. `convertToElement` builds the HTML fragment of a link, and `handleError` builds the notice shown for a failed link.
- The JavaScript string behaviour that the renderer relies on (`js_strings.dfy`, module `JsStrings`): `String.prototype.trim`, with the WhiteSpace and LineTerminator code points it strips, and the decimal text of a status code.

Several things become parameters or fixed assumptions:
- The `Date.now()` id of the initial item is a constructor parameter.
- JSON stringify/parse of a record is an identity round trip.
- The order in which `Object.keys(localStorage)` lists keys is chosen by the host. It is a parameter `keys`, which must list every stored key exactly once (`IsKeyOrder`).
- Lists are compared by content: two items with equal fields are equal. JavaScript object identity plays no part in the component's logic.

The code calls an item's text field `value`, and the model follows the code.

## Model

| member | source | states |
|---|---|---|
| `Jetsetter.Application.constructor` | 4.1.jetsetter/src/components/Application.jsx:11-13 | the initial list holds exactly one item: value 'Pants', the given creation time as id, not packed; so its ids are unique |
| `Jetsetter.Application.AddItem` | 4.1.jetsetter/src/components/Application.jsx:22-25 | the new list is the argument followed by the old list: one longer, new item first, old items in their order; ids stay unique when the new item's id is not already listed |
| `Jetsetter.Application.MarkAsPacked` | 4.1.jetsetter/src/components/Application.jsx:27-34 | the new list starts with the argument with `packed` negated and continues with exactly the old items of other ids; unique ids stay unique, whatever the argument |
| `Jetsetter.Application.MarkAllAsUnpacked` | 4.1.jetsetter/src/components/Application.jsx:36-41 | same length; each item keeps its value and id at its place and is not packed; unique ids stay unique |
| `Jetsetter.Application.Render` | 4.1.jetsetter/src/components/Application.jsx:43-47 | the two sublists are the list's unpacked and packed items in list order (`Unpacked` and `Packed` of the list), so they hold exactly the unpacked and exactly the packed items; their lengths add up to the list's length and their multisets add up to the list's multiset |
| `Jetsetter.Filter` | 4.1.jetsetter/src/components/Application.jsx:46-47 | the result is no longer than the input, and a value is in it iff it is in the input and passes the test |
| `Jetsetter.FilterConcat` | 4.1.jetsetter/src/components/Application.jsx:29 | filtering a concatenation is the concatenation of the filtered parts (the kept elements stay in order) |
| `Jetsetter.FilterCount` | 4.1.jetsetter/src/components/Application.jsx:29 | a kept value occurs in the result as often as in the input; a rejected value does not occur at all |
| `Jetsetter.FilterKeepsAll` | 4.1.jetsetter/src/components/Application.jsx:29 | a filter that every element passes returns its input unchanged |
| `Jetsetter.FilterSplit` | 4.1.jetsetter/src/components/Application.jsx:46-47 | two complementary filters split the list: lengths and multisets add up to the whole |
| `Jetsetter.Ids` | 4.1.jetsetter/src/components/Application.jsx:29 | the id sequence has the list's length and holds each item's id at the item's position |
| `Jetsetter.AllUnpacked` | 4.1.jetsetter/src/components/Application.jsx:38 | same length; at every position the value and id are kept and `packed` is false |
| `Jetsetter.WithAdded` | 4.1.jetsetter/src/components/Application.jsx:24 | the new list is one longer, starts with the added item and continues with the old list unchanged; `AddedItemShownFirst` states where `render` then shows it |
| `Jetsetter.WithoutId` | 4.1.jetsetter/src/components/Application.jsx:29 | no longer than the list; an item is kept iff it is in the list and its id differs from the argument's; `WithoutIdConcat`, `IdsWithoutId` and `WithoutIdOfUnique` state order, id counts and multiplicities |
| `Jetsetter.MarkedAsPacked` | 4.1.jetsetter/src/components/Application.jsx:29-33 | the new list is non-empty and at most one longer; its head has the argument's value and id with `packed` negated, and the rest holds exactly the old items of other ids; `MarkedAsPackedShape`, `MarkedAsPackedSingleId`, `MarkedAsPackedKeepsIds`, `MarkedAsPackedTogglesOne` and `MarkedAsPackedTwice` state the rest |
| `Jetsetter.Unpacked` | 4.1.jetsetter/src/components/Application.jsx:46 | no longer than the list; an item is in it iff it is in the list and not packed; `RenderPartition` and `AddedItemShownFirst` state order and partition |
| `Jetsetter.Packed` | 4.1.jetsetter/src/components/Application.jsx:47 | no longer than the list; an item is in it iff it is in the list and packed; `RenderPartition` and `AllUnpackedRendersUnpacked` state partition and the effect of unpacking |
| `Jetsetter.AddedItemShownFirst` | 4.1.jetsetter/src/components/Application.jsx:22-25 | after `addItem`, the new item heads the sublist its flag selects, and the other sublist is unchanged |
| `Jetsetter.MarkedAsPackedShape` | 4.1.jetsetter/src/components/Application.jsx:29-33 | the head of the new list has the argument's value and id and the negated flag; the rest holds every old item of another id, with its multiplicity, and nothing else |
| `Jetsetter.WithoutIdConcat` | 4.1.jetsetter/src/components/Application.jsx:29 | dropping one id distributes over concatenation, so the remaining items keep their relative order |
| `Jetsetter.IdsWithoutId` | 4.1.jetsetter/src/components/Application.jsx:29 | dropping one id removes every occurrence of that id from the multiset of ids and changes no other id's count |
| `Jetsetter.IdsWithoutIdCount` | 4.1.jetsetter/src/components/Application.jsx:29 | proof helper of `IdsWithoutId`: the same fact stated per id value (the dropped id occurs zero times, every other id as often as before), proved by induction |
| `Jetsetter.IdsConcat` | 4.1.jetsetter/src/components/Application.jsx:29-33 | the ids of a concatenation are the ids of the parts, in order |
| `Jetsetter.MarkedAsPackedSingleId` | 4.1.jetsetter/src/components/Application.jsx:29-33 | after `markAsPacked` the list has exactly one item with the argument's id |
| `Jetsetter.UniqueIdOccursOnce` | 4.1.jetsetter/src/components/Application.jsx:12 | in a list with unique ids, an id that is present occurs exactly once |
| `Jetsetter.OnlyItemOfItsId` | 4.1.jetsetter/src/components/Application.jsx:29 | in a list with unique ids, an item occurs once and no other item has its id |
| `Jetsetter.WithoutIdOfUnique` | 4.1.jetsetter/src/components/Application.jsx:29 | with unique ids, dropping the id of a list item removes exactly one copy of that item from the multiset and nothing else |
| `Jetsetter.MarkedAsPackedKeepsIds` | 4.1.jetsetter/src/components/Application.jsx:29-33 | with unique ids and the argument's id present, `markAsPacked` keeps the list length and the multiset of ids |
| `Jetsetter.UniqueIdsCons` | 4.1.jetsetter/src/components/Application.jsx:24 | an item whose id no listed item has, put in front of a list with unique ids, leaves the ids unique |
| `Jetsetter.FilterKeepsUniqueIds` | 4.1.jetsetter/src/components/Application.jsx:29 | filtering a list with unique ids gives a list with unique ids |
| `Jetsetter.WithAddedUniqueIds` | 4.1.jetsetter/src/components/Application.jsx:24 | `addItem` keeps ids unique when the new item's id is not already listed |
| `Jetsetter.MarkedAsPackedUniqueIds` | 4.1.jetsetter/src/components/Application.jsx:29-33 | `markAsPacked` keeps ids unique for every argument, listed or not |
| `Jetsetter.AllUnpackedUniqueIds` | 4.1.jetsetter/src/components/Application.jsx:38 | `markAllAsUnpacked` keeps ids unique |
| `Jetsetter.MarkedAsPackedTogglesOne` | 4.1.jetsetter/src/components/Application.jsx:29-33 | with unique ids, checking off an item of the list yields a permutation of the old list in which only that item is replaced by its flag-negated copy |
| `Jetsetter.MarkedAsPackedTwice` | 4.1.jetsetter/src/components/Application.jsx:31 | a second `markAsPacked` with the item the first produced restores the argument, original flag included, at the head and leaves the other items as the first call left them |
| `Jetsetter.AllUnpackedIdempotent` | 4.1.jetsetter/src/components/Application.jsx:38 | `markAllAsUnpacked` applied twice gives the same list as applied once |
| `Jetsetter.AllUnpackedRendersUnpacked` | 4.1.jetsetter/src/components/Application.jsx:36-47 | after `markAllAsUnpacked`, `render` shows the whole list as unpacked and nothing as packed |
| `Jetsetter.RenderPartition` | 4.1.jetsetter/src/components/Application.jsx:45-47 | every item lands in exactly one sublist: unpacked iff not packed, packed iff packed; lengths and multisets add up |
| `Bookmarker.WithLink` | bookmarker/app/renderer.js:69-71 | after storing, `url` maps to `{title, url}`; the keys are the old keys plus `url`; every other key keeps its record |
| `Bookmarker.LinkStorage.StoreLink` | bookmarker/app/renderer.js:69-71 | the store's new contents are the old ones with `url` mapped to `{title, url}` and every other key unchanged; it keeps every record filed under its own url |
| `Bookmarker.LinkStorage.Clear` | bookmarker/app/renderer.js:40-43 | the store is empty afterwards, so no key enumeration is left but the empty one |
| `Bookmarker.WithLinkKeyedByUrl` | bookmarker/app/renderer.js:70 | storing keeps every record filed under its own url |
| `Bookmarker.WithLinkTwice` | bookmarker/app/renderer.js:70 | storing the same url twice leaves one entry, holding the last title |
| `Bookmarker.WithLinkSize` | bookmarker/app/renderer.js:70 | the store grows by one entry for a new url and keeps its size for a url already there |
| `Bookmarker.LinksAt` | bookmarker/app/renderer.js:81-83 | one record per listed key, in the keys' order, each the value stored under its key |
| `Bookmarker.DistinctCount` | bookmarker/app/renderer.js:81 | a duplicate-free key listing has exactly as many entries as there are distinct keys |
| `Bookmarker.GetLinks` | bookmarker/app/renderer.js:79-84 | as many records as stored keys, the i-th being the value under the i-th key, and a record is returned iff it is a stored value |
| `Bookmarker.GetLinksOnePerUrl` | bookmarker/app/renderer.js:79-84 | in a store filled by `storeLink`, no two records returned by `getLinks` share a url |
| `Bookmarker.StoredLinkListedOnce` | bookmarker/app/renderer.js:69-84 | after `storeLink(title, url)`, `getLinks` returns `{title, url}`, and no other record with that url |
| `Bookmarker.ClearedStoreListsNothing` | bookmarker/app/renderer.js:40-43 | on the cleared store the only key listing is empty, `getLinks` returns nothing and the rendered markup is empty |
| `Bookmarker.ConvertToElement` | bookmarker/app/renderer.js:87-92 | the fragment's length is the template's plus the title's plus twice the url's; `ConvertToElementLayout` places each piece |
| `Bookmarker.ConvertToElementLayout` | bookmarker/app/renderer.js:87-92 | the fragment is the template with the title inside the heading and the url twice, as href and as link text, each at its fixed template position |
| `Bookmarker.LinksHtml` | bookmarker/app/renderer.js:97 | the joined markup is empty iff there are no links, and has at least one character per link; `LinksHtmlConcat` states that it is the markup of each link in order |
| `Bookmarker.LinksHtmlConcat` | bookmarker/app/renderer.js:97 | the joined markup of a list of links is the markup of its parts in order |
| `Bookmarker.StatusError` | bookmarker/app/renderer.js:118 | the message starts with `Status code of `, ends with the status text and is longer than both together with a separator; `StatusErrorReadsBack` and `StatusErrorInjective` pin it down exactly |
| `Bookmarker.ValidateResponse` | bookmarker/app/renderer.js:112-119 | succeeds iff `ok`, then with the response unchanged; otherwise fails with the status error message |
| `Bookmarker.StatusErrorReadsBack` | bookmarker/app/renderer.js:118 | the error message is `Status code of `, the decimal digits of the status code (read back, they give the code), one space and the status text |
| `Bookmarker.FirstSpaceAfterDigits` | bookmarker/app/renderer.js:118 | in digits followed by a space, the first space is the one right after the digits |
| `Bookmarker.StatusErrorInjective` | bookmarker/app/renderer.js:118 | two rejected responses with the same error message have the same status code and status text |
| `Bookmarker.ErrorNotice` | bookmarker/app/renderer.js:103-107 | the notice is `There was an issue adding "<url>": <message>`, with the template's line breaks and indentation gone and trailing whitespace trimmed |
| `Bookmarker.ErrorNoticeOfMessage` | bookmarker/app/renderer.js:105-107 | when the message has a visible character, the notice is the lead text followed by the message, less the message's trailing whitespace |
| `Bookmarker.ErrorNoticeOfBlankMessage` | bookmarker/app/renderer.js:105-107 | when the message is blank, the notice ends at the colon, because `trim()` also removes the space after it |
| `Bookmarker.TrimEndAfterDigits` | bookmarker/app/renderer.js:105-107 | trimming text that ends in a digit only trims what follows the digit |
| `Bookmarker.FailedResponseNotice` | bookmarker/app/renderer.js:103-119 | for a rejected response, the notice is the lead text, `Status code of `, the code, and then the space and status text less trailing whitespace |
| `JsStrings.TrimStart` | bookmarker/app/renderer.js:107 | the result is the suffix of the input that starts at its first non-whitespace character; everything removed is whitespace |
| `JsStrings.TrimEnd` | bookmarker/app/renderer.js:107 | the result is the prefix of the input that ends at its last non-whitespace character; everything removed is whitespace |
| `JsStrings.Trim` | bookmarker/app/renderer.js:107 | the trimmed string is no longer than the input, has no whitespace at either end, and is empty iff the input is all whitespace; `TrimIdempotent` and `TrimOfTrimmed` state its fixed points |
| `JsStrings.TrimOfTrimmed` | bookmarker/app/renderer.js:107 | a string with no whitespace at either end is its own trim |
| `JsStrings.TrimIdempotent` | bookmarker/app/renderer.js:107 | trimming twice gives the same string as trimming once |
| `JsStrings.TrimStartAfterWhitespace` | bookmarker/app/renderer.js:105-107 | leading whitespace followed by a visible character is exactly what is trimmed from the start |
| `JsStrings.TrimEndBeforeWhitespace` | bookmarker/app/renderer.js:105-107 | appended whitespace is removed by trimming, leaving the trim of what precedes it |
| `JsStrings.TrimEndAfterSolid` | bookmarker/app/renderer.js:105-107 | after a visible last character, trimming the whole string only trims the appended part |
| `JsStrings.TrimEndOfSolidTail` | bookmarker/app/renderer.js:105-107 | when the appended part has a visible character, trimming the whole string only trims that part |
| `JsStrings.DigitChar` | bookmarker/app/renderer.js:118 | a digit below ten becomes the digit character of that value |
| `JsStrings.NatToString` | bookmarker/app/renderer.js:118 | the decimal text of a status code is non-empty, all digits, with no leading zero unless the code is 0 |
| `JsStrings.DecimalRoundTrip` | bookmarker/app/renderer.js:118 | reading back the decimal text of a number gives the number |
| `JsStrings.NatToStringInjective` | bookmarker/app/renderer.js:118 | different status codes have different decimal texts |

## Left out

- Network, parsing and DOM steps of the bookmarker: `fetch` and its promise chain, `DOMParser` and `findTitle`, `shell.openExternal`, the `innerHTML` writes, clearing the error after five seconds with `setTimeout`, and the URL input's validity handler. These are host-framework I/O. The title and the response are inputs of the model.
- Order of `Object.keys(localStorage)`: chosen by the host, so `GetLinks` takes the enumeration as a parameter. Its contract holds for every duplicate-free enumeration of the stored keys.
- Bookmarker.LinkStorage.StoreLink: does not model the failure of `localStorage.setItem` when the storage quota is full. In renderer.js that error stores nothing and reaches `handleError` through the chain's `catch` (bookmarker/app/renderer.js:37); the model always stores.
- JSON encoding of stored records: `JSON.stringify`/`JSON.parse` are taken as an identity round trip. Records written by other code under other keys are not modelled. A value that does not parse is not modelled either.
- `Response.status` is a natural number, as the fetch `status` attribute is an unsigned integer. The text of negative or fractional numbers is not modelled.
- The message of an error raised elsewhere in the chain, such as a network failure in `fetch` or a missing `<title>` in `findTitle`, is an arbitrary string input of `ErrorNotice`. Only the `validateResponse` error is built by the model.
- The JSX rendering of the `NewItem` and `Items` components is left out, and so is the `Date.now()` clock. The clock is a constructor parameter, and ids of added items come with the item.
- The React `setState` batching and re-render cycle is left out. Each handler replaces `items` at once.
- Uniqueness of item ids is not a class invariant of `Application`, because `addItem` accepts any item, including one whose id is already listed. The constructor establishes it, `MarkAsPacked` and `MarkAllAsUnpacked` preserve it for every argument, and `AddItem` preserves it for an item with a fresh id. The lemmas that need unique ids take uniqueness as a precondition.
- Window lifecycle and the other apps in the repository (markdown editors, clipboard managers, the other jetsetter variants) are not part of this model.
