# oxidized-philosophy: verified model of the browsing core

oxidized-philosophy is a terminal reader for a philosophy forum. It shows the forum's thread list,
the comments of the selected thread, and the text of the selected comment. This project models,
in Dafny, the three parts of it that hold logic:

- **Navigation** (`navigation.dfy`, after `src/model.rs`). A `Model` class holds the thread list
  (`overview`) with its page counter (`page`), the selected thread, the scroll offset of the
  viewer, and a `ThreadsModel` object with the fetched comment pages (`data.data`), their selection
  and their page counter. `NextThread` and `NextComment` move a selection forward. They then fetch
  and append pages until the selection is covered. `PrevThread`, `PrevComment`, `ScrollUp` and
  `ScrollDown` are guarded steps. `Update` dispatches an `Action`. The two network calls are
  parameters: `getThreads` maps a page number to a list page, and `getThread` maps a list entry to
  that thread's comments. Each either arrives (`Fetched`) or fails (`Failed`).
- **Comment fragments** (`thread.rs` → `thread.dfy`). `ThreadComment.GetText` flattens a comment
  body to its text. `VisitComment`, `VisitAuthor` and `VisitMeta` choose which child of a fragment
  fills which field.
- **Thread list fragments** (`overview.rs` → `overview.dfy`). `ThreadOverview.Eq` compares
  entries by title only. `VisitDiscussion` picks the fields of one list entry.

`fragment.dfy` holds what the visitors share. A fragment is modelled as the sequence of its
children. Each child has a tag name and a value that has already been decoded. The value type is
generic. A record field is either still `Default` or `Decoded(v)`. Every visitor is specified by
`Values(entries, name)`, the values of the children tagged `name` in document order. For example,
"the second `div`" is `NthOf(Values(entries, "div"), 1)` and "the last `span`" is
`LastOf(Values(entries, "span"))`.

In `src/model.rs`, `next_thread` resets `data.selected` to 0 but does not discard the comment
pages already fetched. It fetches only when `data.data` is empty, so after a move to another thread
the comment pages of earlier threads stay in place. `NextThread`'s contract states this as written.

## Model

| member | source | states |
|---|---|---|
| Navigation.Model.constructor | src/model.rs:97-104 | the initial state: the first list page, `page == 1`, `selected == 0`, one comment page for the first entry, `data.page == 1`; the model is `Valid()` (both selections in range); a failed or empty first fetch is excluded because the source unwraps it |
| Navigation.ThreadsModel.constructor | src/model.rs:14-19 | the derived default: no comment pages, selection 0, page counter 0 |
| Navigation.Model.NextThread | src/model.rs:34-52 | `selected` grows by exactly 1; `overview` becomes the old list followed by pages `old(page)+1 .. page` in order; every page strictly before `page` arrived; no page is fetched when the new selection was already covered; every fetch except the last was needed (the list before the last fetch did not cover the selection), so at most `selected + 1 - |old(overview)|` pages are fetched; if a list page fails, the action ends with that error, with `selected` and `page` already raised and the scroll and comment state untouched; otherwise `viewerScroll == 0`, `data.selected == 0` and the comment coverage of `CommentsCoveredFrom` holds; `data.data` only grows and `data.page` never decreases; a successful call leaves the model `Valid()` |
| Navigation.Model.CoverSelectedComment | src/model.rs:44-49 | the coverage loop shared by `next_thread` and `next_comment` (the same loop appears at src/model.rs:67-72): with the selection already covered, nothing is fetched and nothing changes; otherwise the selected entry's comments are appended exactly `data.selected + 1 - |old(data.data)|` times, one page-counter step each; a failed fetch leaves the list as it was, with the counter raised by 1, and returns the error; the old list is always a prefix of the new one; on success `data.selected < |data.data|` |
| Navigation.Model.NextComment | src/model.rs:64-74 | `data.selected` grows by exactly 1 and `viewerScroll` becomes 0; the thread list, `selected` and `page` are not in its frame; the comment list grows only as `CommentsCoveredFrom` says; on success the new selection is in range and a `Valid()` model stays `Valid()` |
| Navigation.Model.PrevThread | src/model.rs:54-62 | at `selected == 0` nothing changes; otherwise `selected` decreases by 1 and `viewerScroll` and `data.selected` become 0; `Valid()` is preserved |
| Navigation.Model.PrevComment | src/model.rs:76-83 | at `data.selected == 0` nothing changes; otherwise `data.selected` decreases by 1 and `viewerScroll` becomes 0; only those two fields are in its frame; `Valid()` is preserved |
| Navigation.Model.ScrollDown | src/model.rs:85-88 | `viewerScroll` grows by exactly 1 and no other field may change |
| Navigation.Model.ScrollUp | src/model.rs:90-95 | `viewerScroll` decreases by 1, floored at 0 (no change at 0), and no other field may change |
| Navigation.Update | src/model.rs:107-118 | each action carries its operation's contract. `NextThread`: `selected` rises by 1 and the list grows by pages `old(page)+1 .. page`, every page before the last having arrived; no page is fetched when the selection was already covered, and every fetch but the last was needed; if a list page fails, the error is returned with `selected` and `page` already raised and the scroll and comment state untouched; otherwise the scroll and comment selection are zeroed and the first comment is covered as `CommentsCoveredFrom` says. `PrevThread` and `PrevComment`: nothing changes at 0; otherwise their selection is decremented and the scroll (and for `PrevThread` the comment selection) reset, with both lists and both page counters unchanged. `NextComment`: `data.selected` rises by 1, the scroll is zeroed, the thread list, `selected` and `page` stay, and the new comment is covered as `CommentsCoveredFrom` says. `ScrollDown` adds 1 and `ScrollUp` subtracts 1 floored at 0, with everything else unchanged. `Nothing` changes nothing. Every action other than the two "next" moves succeeds; under every action both lists only grow and both page counters never decrease; a `Valid()` model stays `Valid()` after any successful action; `Quit` is excluded because it panics |
| Navigation.PagesAfterGrows | src/model.rs:36-40 | when every list page is non-empty, `k` pages that arrive add at least `k` entries, which bounds the number of fetches in the list coverage loop |
| Thread.Choice.ToString | src/thread.rs:151-156 | only a text node can contribute a non-empty string, and a text node contributes exactly its own string; `TagContributesNothing` states the consequence for whole bodies |
| Thread.JoinText | src/thread.rs:19-25 | the fold of `get_text`, appending each node's text to the empty string; a body with no text node flattens to the empty string; `JoinTextIsConcat` proves the fold equals the in-order concatenation of the text-node strings |
| Thread.ThreadComment.GetText | src/thread.rs:18-26 | the text of a comment is the in-order concatenation of the strings of its text nodes (`Other`), and every tag node is dropped |
| Thread.JoinTextIsConcat | src/thread.rs:18-25 | the source's left fold of `to_string` equals the concatenation of the text-node strings, a definition written independently |
| Thread.JoinTextAppend | src/thread.rs:18-25 | flattening distributes over concatenation of bodies: the text of `a + b` is the text of `a` followed by the text of `b` |
| Thread.TagContributesNothing | src/thread.rs:151-156 | a tag node (`Iframe`, `Ul`, `Img`, `U`, `Span`, `Div`, `A`, `Blockquote`, `Br`, `I`, `B`) inserted anywhere in a body leaves its text unchanged |
| Thread.VisitComment | src/thread.rs:50-72 | the author is the last `span` child; the first `div` is skipped; the message is the second `div`; the date is the last `div` when there are at least three, and the last one wins; fields never matched stay default; the loop keeps its counter equal to `min(#divs seen, 2)`, so the counter starts at 0, never decreases and never exceeds 2; every key must be present |
| Thread.VisitAuthor | src/thread.rs:94-110 | the name is the first `a` child, or the default when there is none; later `a` children and all other children are ignored |
| Thread.VisitMeta | src/thread.rs:178-198 | the date wrapper is the second `span` child, or the default when there are fewer than two; the first span is skipped, later spans are ignored, and the counter stays equal to `min(#spans seen, 2)` |
| Overview.VisitDiscussion | src/overview.rs:66-87 | the author is the last `a` child; the reply count is the first `div`; the title is the last `div` when there are at least two, and the last one wins; fields never matched stay default; the counter is 0 until the first `div` and 1 after it |
| Fragment.OtherTagIgnored | src/overview.rs:83 | a child whose tag is not `name`, inserted anywhere, does not change the values tagged `name`, so by the visitors' contracts it changes no field |
| Fragment.ValuesAppend | src/thread.rs:54 | the values of a concatenation of children are the concatenation of their values, so the visitors' choice is decided in document order across the whole fragment |
| Overview.ThreadOverview.Eq | src/overview.rs:10-14 | two list entries are equal exactly when they are structurally equal once url, author and reply count are blanked, so only the title decides; the lemmas below show it is an equivalence |
| Overview.EqIgnoresAllButTitle | src/overview.rs:10-14 | an entry equals any entry with the same title, whatever its url, author and reply count; when the url differs, the two entries are still equal although they are structurally different |
| Overview.EqNeedsSameTitle | src/overview.rs:11-13 | for entries that agree on url, author and reply count, `Eq` coincides with structural equality |
| Overview.DifferentTitlesNeverEq | src/overview.rs:11-13 | entries with different titles are never equal, whatever their url, author and reply count |
| Overview.EqIsEquivalence | src/overview.rs:11-13 | equality by title is reflexive, symmetric and transitive |

## Left out

- `src/api.rs` is not part of this model. It sends HTTP requests and scans XML events. It becomes the two fetch parameters `getThreads` and `getThread`. How the visitors' records become `ThreadOverview` and `ThreadComment` values is not modelled. That includes the `unwrap` of each record's decoding, which panics on a malformed record.
- The fetch parameters are functions, so the same page or entry always gets the same answer. A real server may answer differently from one call to the next.
- `src/main.rs` and `src/ui.rs` are not part of this model. They hold the terminal event loop, drawing, and saving bookmarks. They use items that are not in the modelled `model.rs`, such as tabs, repeat counts and bookmark models.
- Decoding a child's value is not modelled. So are the errors of `next_key` and `next_value` (`?`) and whether skipping `next_value` at src/overview.rs:83 is legal. A child's value is taken as already decoded. The default of each field type is the single value `Default`.
- Navigation.Model.NextThread: requires that every thread list page that arrives is non-empty. In the source an empty page adds nothing and the loop moves on to the next page; if every later page is empty the source keeps fetching until the 16-bit page counter overflows. The requires also excludes runs where an empty page is followed by a non-empty one, which end normally in the source.
- Navigation.Model.NextThread: does not model the 16-bit width of `selected` and `page`. They are unbounded naturals, so the overflow panic of `+= 1` at 65535 is absent.
- Navigation.Model.NextComment: does not model the 16-bit width of `data.selected` and `data.page`. The overflow panic is absent.
- Navigation.Model.ScrollDown: does not model the 16-bit width of `viewerScroll`. The overflow panic is absent.
- Navigation.Model.CoverSelectedComment: requires the selected thread to exist when a fetch is needed. The source's `unwrap` of `overview.get(selected)` panics otherwise.
- Navigation.Update: requires `action != Quit`, because the source panics on it.
- The content of a fetched `ThreadData` (title, comments, comment page) is carried as is. The comment page counter is never read by the modelled code.
