# Creation dashboard, community gallery and object-name check — a Dafny model

This project models the client-side state logic of an AI content app's web
client: three React pages whose handlers keep a local copy of the user's
creations.

- **Dashboard** (`client/src/pages/Dashboard.jsx`): the user's creations,
  filtered by kind (`"all"` or one kind), shown ten per page. The bar shows up
  to five page numbers plus previous and next buttons. Creations are loaded
  and deleted through the server.
- **Community** (`client/src/pages/Community.jsx`): published creations with
  a like toggle, and a lightbox. The lightbox's `expandedIndex` and
  `isImageLoaded` cells change on ArrowLeft, ArrowRight and Escape, on its
  buttons, on clicks on grid items and on the image's load event.
- **Remove object** (`client/src/pages/RemoveObject.jsx`): the form refuses
  an object name of more than one word before it builds any request.

Each page's state cells are the fields of a Dafny class, and each handler is a
method of it. The pure parts are functions, with lemmas stating their
properties: filtering, slicing, `Math.ceil`, the page-number window, the like
toggle, the lightbox transitions, and `trim`/`split`. The JavaScript built-ins
the handlers call are modelled in their own modules (`JsArray`, `JsString`).
A remote call appears only as its outcome (`Api.Reply`): a response with
`success` true, a response with `success` false, or a thrown exception. That
outcome is an argument of the method for the handler.

Files: `js_array.dfy`, `js_string.dfy`, `api.dfy`, `dashboard.dfy`,
`community.dfy`, `remove_object.dfy`.

## Behaviour as written

The code's behaviour is modelled, including where it departs from what one
might expect of such a client:

- A like toggle updates the local list before the request. A failed reply or
  an exception does not undo it; it only raises a toast
  (`Community.jsx:53-55`).
- Delete is not optimistic. The collection changes only after a successful
  reply, and it is never changed on failure (`Dashboard.jsx:42-47`).
- `totalPages` is `Math.ceil(length / 10)`, which is 0 for an empty filtered
  list. There is no minimum of 1 (`Dashboard.jsx:69`).
- There is no ordering or serialisation of requests per creation id.
- Choosing the filter that is already selected changes no React state. React
  skips the update, the effect's dependencies are unchanged, and the page is
  not reset. Every successful load or delete, however, produces a new array,
  so the effect runs and the page goes back to 1, even when no creation had
  the deleted id.

## Model

| member | source | states |
|---|---|---|
| `JsArray.Filter` | client/src/pages/Dashboard.jsx:61 | `filter` returns only elements of the input that the test accepts, and every accepted element of the input is in the result |
| `JsArray.FilterSelectsInOrder` | client/src/pages/Dashboard.jsx:57-62 | the filtered list is the input's elements at strictly ascending positions, and those positions are exactly the accepted ones: order is kept and nothing accepted is dropped |
| `JsArray.FilterKeepsAll` | client/src/pages/Community.jsx:42 | a filter that accepts every element returns the whole list |
| `JsArray.FilterConcat` | client/src/pages/Community.jsx:42-43 | filtering a concatenation is concatenating the filtered parts |
| `JsArray.FilterIdempotent` | client/src/pages/Community.jsx:42 | filtering twice with the same test is filtering once |
| `JsArray.Slice` | client/src/pages/Dashboard.jsx:68 | for non-negative `start <= end`, `slice` is the sub-sequence between the two indices clamped to the length, of length at most `end - start` |
| `JsString.TrimStartSpec` | client/src/pages/RemoveObject.jsx:24 | the result is a suffix of the input, what was dropped is all whitespace, and the result does not start with whitespace |
| `JsString.TrimEndSpec` | client/src/pages/RemoveObject.jsx:24 | the result is a prefix of the input, what was dropped is all whitespace, and the result does not end with whitespace |
| `JsString.TrimIsInnerSlice` | client/src/pages/RemoveObject.jsx:24 | the trimmed text is the slice of the input between an all-whitespace prefix and an all-whitespace suffix, and it is empty or neither starts nor ends with whitespace |
| `JsString.TrimStartSkipsWhitespace` | client/src/pages/RemoveObject.jsx:24 | whitespace put in front of a string does not change what `trimStart` keeps |
| `JsString.TrimEndSkipsWhitespace` | client/src/pages/RemoveObject.jsx:24 | whitespace put after a string does not change what `trimEnd` keeps |
| `JsString.TrimStartKeepsTail` | client/src/pages/RemoveObject.jsx:24 | after text that is not all whitespace, whatever follows survives `trimStart` unchanged |
| `JsString.TrimAllWhitespace` | client/src/pages/RemoveObject.jsx:24 | an all-whitespace string (including the empty one) trims to the empty string |
| `JsString.TrimIgnoresOuterWhitespace` | client/src/pages/RemoveObject.jsx:24 | whitespace added before and after a string leaves its trimmed text the same |
| `JsString.TrimStart` | client/src/pages/RemoveObject.jsx:24 | `trimStart`, defined by recursion on the leading character; its properties are stated by `TrimStartSpec` |
| `JsString.TrimEnd` | client/src/pages/RemoveObject.jsx:24 | `trimEnd`, defined by recursion on the last character; its properties are stated by `TrimEndSpec` |
| `JsString.Trim` | client/src/pages/RemoveObject.jsx:24 | `trim` as `trimEnd` after `trimStart`; `TrimIsInnerSlice`, `TrimAllWhitespace` and `TrimIgnoresOuterWhitespace` state what it keeps |
| `JsString.Count` | client/src/pages/RemoveObject.jsx:24 | the number of occurrences of a character is at most the length, and it is zero exactly when the character is absent |
| `JsString.Split` | client/src/pages/RemoveObject.jsx:24 | `split(sep)` returns at least one part, and no part contains the separator |
| `JsString.SplitCount` | client/src/pages/RemoveObject.jsx:24 | `split` returns one more part than there are separators in the string |
| `JsString.SplitIsSeveralParts` | client/src/pages/RemoveObject.jsx:24 | `split(sep).length > 1` holds exactly when the separator occurs in the string |
| `JsString.JoinSplit` | client/src/pages/RemoveObject.jsx:24 | joining the parts of a split with the same separator gives back the string |
| `JsString.SplitPrefix` | client/src/pages/RemoveObject.jsx:24 | text without a separator in front of a string extends the first part of that string's split |
| `JsString.SplitJoin` | client/src/pages/RemoveObject.jsx:24 | splitting the join of separator-free parts gives back the parts |
| `Dashboard.FilterCreations` | client/src/pages/Dashboard.jsx:57-62 | for `"all"` the filtered list is the whole collection; for any other filter it holds exactly the creations of that kind |
| `Dashboard.FilterCreationsInOrder` | client/src/pages/Dashboard.jsx:57-62 | a kind filter keeps the creations of that kind in their original relative order |
| `Dashboard.WithoutId` | client/src/pages/Dashboard.jsx:44 | after a delete, the collection holds exactly the creations whose id differs from the deleted id |
| `Dashboard.WithoutIdInOrder` | client/src/pages/Dashboard.jsx:44 | the creations that remain after a delete keep their original relative order |
| `Dashboard.PageItems` | client/src/pages/Dashboard.jsx:66-68 | for any page from 1 on, the visible items are the slice `[(p-1)*10, p*10)` cut at the end of the list, so a page holds at most 10 items |
| `Dashboard.PageCount` | client/src/pages/Dashboard.jsx:69 | `totalPages` is the least `n` with `length <= 10n`, that is `ceil(length/10)`; it is 0 exactly for an empty list |
| `Dashboard.PagesUpToIsPrefix` | client/src/pages/Dashboard.jsx:66-68 | pages 1 to `n` concatenated are the first `min(10n, length)` items |
| `Dashboard.PagesCoverList` | client/src/pages/Dashboard.jsx:66-69 | pages 1 to `totalPages` concatenated give back the filtered list |
| `Dashboard.PagesPastTheEndAreEmpty` | client/src/pages/Dashboard.jsx:66-69 | a page number beyond `totalPages` shows no items |
| `Dashboard.TwentyThreeItems` | client/src/pages/Dashboard.jsx:66-69 | 23 items make 3 pages, holding 10, 10 and 3 items |
| `Dashboard.SeveralPages` | client/src/pages/Dashboard.jsx:151 | when the pagination bar is shown (more than 10 items) there are at least 2 pages |
| `Dashboard.PageNumbers` | client/src/pages/Dashboard.jsx:71-80 | the window is a run of consecutive numbers, empty when there are no pages. For a current page in `[1, totalPages]` it has `min(5, totalPages)` numbers, all in `[1, totalPages]`, and it contains the current page. Away from both ends the current page is in the middle; within two pages of the first page the window starts at 1, and within two pages of the last it ends at `totalPages`, so the window is fixed for every page in range |
| `Dashboard.DashboardPage.CurrentItems` | client/src/pages/Dashboard.jsx:66-68 | `currentItems` holds at most 10 creations and is the contiguous run of the filtered list from `(currentPage-1)*10` up to `currentPage*10`, both cut at the end of the list |
| `Dashboard.DashboardPage.PaginationShown` | client/src/pages/Dashboard.jsx:151 | the bar is shown only when there are at least 2 pages |
| `Dashboard.DashboardPage.PrevDisabled` | client/src/pages/Dashboard.jsx:155 | in a valid state the previous button is disabled exactly when there is no earlier page |
| `Dashboard.DashboardPage.NextDisabled` | client/src/pages/Dashboard.jsx:179 | while the bar is shown the next button is disabled exactly when there is no later page |
| `Dashboard.DashboardPage.constructor` | client/src/pages/Dashboard.jsx:12-16 | on mount the page is loading, with no creations, filter `"all"` and page 1 |
| `Dashboard.DashboardPage.RefreshFiltered` | client/src/pages/Dashboard.jsx:57-64 | the effect stores the filtered list for the current collection and filter, sets the page to 1, and keeps the collection, the filter and the loading flag |
| `Dashboard.DashboardPage.LoadCreations` | client/src/pages/Dashboard.jsx:21-35 | a success replaces the collection and resets the page to 1. A failure or exception keeps the collection, the filtered list and the page, and raises its message. Loading ends false on every path |
| `Dashboard.DashboardPage.DeleteCreation` | client/src/pages/Dashboard.jsx:37-51 | only a success removes the creations with that id and resets the page to 1 (success toast). A failure or exception changes nothing and raises its message |
| `Dashboard.DashboardPage.SelectFilter` | client/src/pages/Dashboard.jsx:114 | a new filter value resets the page to 1 and refilters. Choosing the current filter changes nothing. The page state stays valid |
| `Dashboard.DashboardPage.GoToPage` | client/src/pages/Dashboard.jsx:163-166 | a number from the window becomes the current page, and it is a page that exists |
| `Dashboard.DashboardPage.PrevPage` | client/src/pages/Dashboard.jsx:153-155 | the enabled previous button moves back exactly one page and stays within `[1, totalPages]` |
| `Dashboard.DashboardPage.NextPage` | client/src/pages/Dashboard.jsx:177-179 | the enabled next button moves on exactly one page and stays within `[1, totalPages]` |
| `Community.ToggleMember` | client/src/pages/Community.jsx:41-43 | after a toggle the user is a liker exactly when they were not before. No other user's membership changes. A new like is appended once at the end |
| `Community.ToggleKeepsOtherLikers` | client/src/pages/Community.jsx:41-43 | the other likers are the same and in the same order after a toggle |
| `Community.ToggleTwiceRestores` | client/src/pages/Community.jsx:41-43 | liking and then unliking returns a `likes` list that did not hold the user to its original value |
| `Community.ToggleTwiceFromLiked` | client/src/pages/Community.jsx:41-43 | unliking and then liking a list that held the user removes the user's duplicates and moves the user to the end |
| `Community.ToggleLike` | client/src/pages/Community.jsx:36-47 | the list keeps its length and order. Creations with another id are unchanged. A creation with the id changes only its `likes`, which become the toggled list of `ToggleMember` (the user removed if present, appended otherwise), so the user's membership flips and every other liker stays |
| `Community.ToggleLikeTwice` | client/src/pages/Community.jsx:36-47 | toggling the same creation twice for a user who had not liked it gives back the original list |
| `Community.KeyTransition` | client/src/pages/Community.jsx:59-74 | with the lightbox closed a key changes nothing, Escape closes an open lightbox, and keys other than the arrows and Escape change nothing. ArrowLeft on `i > 0` gives `(i-1, not loaded)` and ArrowRight on `i < length-1` gives `(i+1, not loaded)`; at the ends the arrows change nothing |
| `Community.ArrowsUndoEachOther` | client/src/pages/Community.jsx:62-67 | ArrowLeft then ArrowRight from a creation with a previous one, or ArrowRight then ArrowLeft from one with a next one, returns to that creation with the image not loaded |
| `Community.ArrowsStopAtEnds` | client/src/pages/Community.jsx:62-67 | ArrowLeft at index 0 and ArrowRight at the last index change nothing |
| `Community.CanOccur` | client/src/pages/Community.jsx:90-196 | when an event can reach the lightbox: keys always, a click on an existing grid item, and the close button, the image and the previous/next buttons only while the expanded view is shown (their late events during the exit fade are left out, see below); `StepStaysInRange` and `OpenFirstOfFive` state its consequences |
| `Community.Step` | client/src/pages/Community.jsx:95-196 | one event's effect on the lightbox (item click, close, previous, next, image load, or a key through `KeyTransition`); `StepStaysInRange` states what each event yields |
| `Community.StepStaysInRange` | client/src/pages/Community.jsx:59-196 | every event `CanOccur` admits keeps the lightbox either closed or on an existing creation. Opening and moving give the new index with the image not loaded, close gives the closed state, and load sets the loaded flag |
| `Community.RunStaysInRange` | client/src/pages/Community.jsx:59-196 | after any sequence of events each admitted by `CanOccur` when it comes, an index that was opened in range is still in range |
| `Community.OpenFirstOfFive` | client/src/pages/Community.jsx:59-196 | opening the first of five creations gives index 0 with the image not loaded. There is no previous button and there is a next button, and Escape closes the lightbox |
| `Community.CommunityPage.ExpandedItem` | client/src/pages/Community.jsx:139 | the expanded view shows a creation exactly when `expandedIndex` addresses an existing creation, and that creation is the one at the index |
| `Community.CommunityPage.constructor` | client/src/pages/Community.jsx:12-15 | on mount the page is loading, with no creations and the lightbox closed |
| `Community.CommunityPage.FetchCreations` | client/src/pages/Community.jsx:20-32 | a success replaces the list, and a failure or exception keeps it and raises its message. Loading ends false on every path and the lightbox is untouched |
| `Community.CommunityPage.ImageLikeToggle` | client/src/pages/Community.jsx:34-57 | the like toggle is applied whatever the reply, with no rollback. A failure or exception only raises its message |
| `Community.CommunityPage.HandleKeyDown` | client/src/pages/Community.jsx:59-74 | the lightbox cells take the key's transition |
| `Community.CommunityPage.OpenItem` | client/src/pages/Community.jsx:95-98 | a click on a grid item opens it with the image not loaded |
| `Community.CommunityPage.CloseExpanded` | client/src/pages/Community.jsx:164-168 | the close button gives the closed state with the image not loaded |
| `Community.CommunityPage.ShowPrevious` | client/src/pages/Community.jsx:174-184 | the previous button, present only above index 0, moves back one with the image not loaded |
| `Community.CommunityPage.ShowNext` | client/src/pages/Community.jsx:186-196 | the next button, present only below the last index, moves on one with the image not loaded |
| `Community.CommunityPage.ImageLoaded` | client/src/pages/Community.jsx:160 | the image's load event sets the loaded flag and keeps the index |
| `RemoveObject.Rejects` | client/src/pages/RemoveObject.jsx:24 | the check `object.trim().split(' ').length > 1` itself; `RejectsIffInnerSpace` and the lemmas below state what it accepts and refuses |
| `RemoveObject.RejectsIffInnerSpace` | client/src/pages/RemoveObject.jsx:24 | a name is refused exactly when its trimmed text contains a space character |
| `RemoveObject.OuterWhitespaceIgnored` | client/src/pages/RemoveObject.jsx:24 | whitespace before and after a name never changes whether it is refused |
| `RemoveObject.NoSpacePasses` | client/src/pages/RemoveObject.jsx:24 | a name without a space character passes, whatever tabs or newlines it has inside |
| `RemoveObject.BlankPasses` | client/src/pages/RemoveObject.jsx:24 | an empty or whitespace-only name passes |
| `RemoveObject.TwoWordsRejected` | client/src/pages/RemoveObject.jsx:24 | two words without whitespace, joined by one space, are refused |
| `RemoveObject.RemoveObjectForm.constructor` | client/src/pages/RemoveObject.jsx:12-15 | on mount there is no image, the name is empty, the form is not loading and there is no result |
| `RemoveObject.RemoveObjectForm.ChooseImage` | client/src/pages/RemoveObject.jsx:81 | the file input sets the chosen image |
| `RemoveObject.RemoveObjectForm.TypeObjectName` | client/src/pages/RemoveObject.jsx:89 | the text input sets the object name |
| `RemoveObject.RemoveObjectForm.Submit` | client/src/pages/RemoveObject.jsx:19-47 | a refused name builds no request, keeps `content` and raises the single-object toast. Otherwise the request carries the image and the untrimmed name, and only a success sets `content`. `loading` is false afterwards on every path |

## Left out

- Download handlers (`RemoveObject.jsx:49-65`, `CreationItem.jsx:10-27`) and those of the other generation pages: they are `fetch`, blob, object-URL and DOM-anchor calls in the browser, with nothing to state beyond call order.
- axios requests, the bearer token from Clerk and the toasts: each request is reduced to its outcome (`Api.Reply`), and a toast to the `Api.Notice` the handler returns.
- The `keydown` listener's registration and removal (`Community.jsx:80-83`): browser event plumbing. `handleKeyDown` is modelled as a transition.
- The submit handlers of the other generation pages (article, blog titles, images, background removal, resume review): they fill a prompt template and forward it to the server.
- Rendering: JSX, animations, skeleton loaders, the layout, navbar, plan and testimonial components.
- Community.CanOccur: admits the previous/next clicks and the image's load event only while the expanded view is shown. The view sits inside `<AnimatePresence>` (`Community.jsx:138`), which keeps the last view on the page, still clickable, during its exit fade after Escape or the close button. Three events can arrive in that window and are not modelled. A previous click computes `null - 1`, giving index `-1`; a following ArrowRight then reopens at 0. A next click computes `null + 1`, reopening the lightbox on creation 1. An image load gives `(null, true)`. `StepStaysInRange`, `RunStaysInRange` and `CommunityPage.Valid` hold only for event sequences that exclude these late events.
- Timing in React: each handler runs to completion with its reply given, and the `[filter, creations]` effect runs inside the handler that changed its inputs. The render between a state change and the effect, overlapping requests, and replies that arrive after unmount are not modelled.
- The fields `created_at` and `publish` of a creation: no modelled logic reads them.
- The community fetch runs only once a signed-in user is known (`Community.jsx:76-78`). The model takes the fetch's outcome as given.
- Community.CommunityPage.ImageLikeToggle: models `user.id` as a parameter. It does not model a creation whose `likes` is missing, where the JavaScript would throw.
